/** The transmit path of a UART on values: bytes wait in a queue, are staged, fly as a DMA
    transfer and reach the wire.  What every run of events does to them. */
module UartPath {
  import opened Memory

  /** What the character layer, the DMA engine and the flow control do to the path. */
  datatype Event = Put(c: byte) | Moved(n: nat) | Interrupt(complete: bool) | Kick | Page(on: bool) | Inject(c: byte)

  /** `room` is the size of the ring, `xfer` that of the staging buffer. */
  datatype Path = Path(wire: seq<byte>, flight: seq<byte>, staged: seq<byte>, queue: seq<byte>,
                       active: bool, paged: bool, override: bool, room: nat, xfer: nat)

  predicate Proper(p: Path) {
    && |p.queue| <= p.room && |p.staged| <= p.xfer
    && (if p.active then p.staged == [] else p.flight == [])
  }

  /** Everything accepted so far, wherever it is, in order. */
  function All(p: Path): (b: seq<byte>) { p.wire + p.flight + (p.staged + p.queue) }

  /** How many bytes have left the queue. */
  function Handed(p: Path): (n: nat)
    ensures n <= |All(p)|
  {
    |p.wire| + |p.flight| + |p.staged|
  }

  // ---------------------------------------------------------------- one event

  /** How many bytes the filling of the buffer takes: one at most while output is held, and
      that only for a flow control byte. */
  function Taken(p: Path): (n: nat)
    requires |p.staged| <= p.xfer
    ensures n <= |p.queue| && |p.staged| + n <= p.xfer
  {
    var free := p.xfer - |p.staged|;
    if p.paged then (if p.override && p.queue != [] && free > 0 then 1 else 0)
    else if |p.queue| <= free then |p.queue| else free
  }

  function Filled(p: Path): (r: Path)
    requires |p.staged| <= p.xfer
  {
    var n := Taken(p);
    p.(staged := p.staged + p.queue[..n], queue := p.queue[n..], override := p.override && n == 0)
  }

  function Started(p: Path): (r: Path) {
    if p.staged != [] && !p.paged then p.(active := true, flight := p.staged, staged := []) else p
  }

  function Kicked(p: Path): (r: Path)
    requires Proper(p)
  {
    if p.active then p else Started(Filled(p))
  }

  /** A transfer with nothing left over is finished; another one is restarted. */
  function Interrupted(p: Path, complete: bool): (r: Path)
    requires Proper(p)
  {
    if p.active && !complete && p.flight != [] then p else Kicked(p.(active := false, flight := []))
  }

  /** What cannot happen now is skipped. */
  predicate Possible(p: Path, e: Event) {
    match e
    case Put(_) => |p.queue| < p.room
    case Inject(_) => |p.queue| < p.room
    case Moved(n) => p.active && n <= |p.flight|
    case Interrupt(complete) => p.active && complete ==> p.flight == []
    case _ => true
  }

  function After(p: Path, e: Event): (r: Path)
    requires Proper(p)
  {
    if !Possible(p, e) then p
    else
      match e
      case Put(c) => p.(queue := p.queue + [c])
      case Inject(c) => p.(queue := [c] + p.queue, override := true)
      case Moved(n) => p.(wire := p.wire + p.flight[..n], flight := p.flight[n..])
      case Interrupt(complete) => Interrupted(p, complete)
      case Kick => Kicked(p)
      case Page(on) => p.(paged := on)
  }

  predicate Adds(p: Path, e: Event) {
    (e.Put? || e.Inject?) && |p.queue| < p.room
  }

  /** Kicking neither loses nor reorders anything. */
  lemma KickedIs(p: Path)
    requires Proper(p)
    ensures var r := Kicked(p);
            && Proper(r) && All(r) == All(p) && r.wire == p.wire && r.room == p.room && r.xfer == p.xfer
            && Handed(p) <= Handed(r) && |r.queue| <= |p.queue|
  {
    if !p.active {
      var f := Filled(p);
      assert p.queue[..Taken(p)] + p.queue[Taken(p)..] == p.queue;
      assert f.staged + f.queue == p.staged + p.queue;
      StartedIs(f);
    }
  }

  lemma StartedIs(p: Path)
    requires Proper(p) && !p.active
    ensures var r := Started(p);
            && Proper(r) && All(r) == All(p) && r.wire == p.wire && r.room == p.room && r.xfer == p.xfer
            && Handed(p) == Handed(r) && r.queue == p.queue
  {
    assert p.wire + p.flight + (p.staged + p.queue) == p.wire + p.staged + ([] + p.queue);
  }

  lemma AllPut(p: Path, c: byte)
    ensures All(p.(queue := p.queue + [c])) == All(p) + [c]
  {
    assert p.staged + (p.queue + [c]) == p.staged + p.queue + [c];
  }

  lemma AllInjected(p: Path, c: byte)
    ensures All(p.(queue := [c] + p.queue)) == All(p)[..Handed(p)] + [c] + All(p)[Handed(p)..]
  {
    var front := p.wire + p.flight + p.staged;
    assert All(p) == front + p.queue;
    assert p.wire + p.flight + (p.staged + ([c] + p.queue)) == front + [c] + p.queue;
  }

  lemma AllMoved(p: Path, n: nat)
    requires n <= |p.flight|
    ensures All(p.(wire := p.wire + p.flight[..n], flight := p.flight[n..])) == All(p)
  {
    assert p.flight[..n] + p.flight[n..] == p.flight;
    assert p.wire + p.flight[..n] + p.flight[n..] == p.wire + p.flight;
  }

  /** An event keeps what was accepted, in order; a put byte comes last, and an injected one
      goes ahead of what is still in the queue. */
  lemma AfterIs(p: Path, e: Event)
    requires Proper(p)
    ensures var r, h := After(p, e), Handed(p);
            && Proper(r) && r.room == p.room && r.xfer == p.xfer && h <= Handed(r)
            && |p.wire| <= |r.wire| && r.wire[..|p.wire|] == p.wire
            && (!Adds(p, e) ==> All(r) == All(p) && |r.queue| <= |p.queue|)
            && (Adds(p, e) ==> |r.queue| == |p.queue| + 1)
            && (Adds(p, e) && e.Put? ==> All(r) == All(p) + [e.c])
            && (Adds(p, e) && e.Inject? ==> All(r) == All(p)[..h] + [e.c] + All(p)[h..])
  {
    if Possible(p, e) {
      match e
      case Put(c) => AllPut(p, c);
      case Inject(c) => AllInjected(p, c);
      case Moved(n) => AllMoved(p, n);
      case Interrupt(complete) =>
        if !(p.active && !complete && p.flight != []) {
          assert p.flight == [];
          KickedIs(p.(active := false, flight := []));
        }
      case Kick => KickedIs(p);
      case Page(_) =>
    }
  }

  function Least(a: nat, b: nat): nat { if a <= b then a else b }

  /** Kicking an idle path: unless output is held, all that waits is sent, as far as the buffer
      takes it; held output stays where it is, but for one flow control byte that is staged. */
  lemma KickedExactly(p: Path)
    requires Proper(p) && !p.active
    ensures var r, all := Kicked(p), p.staged + p.queue;
            var n := Least(|all|, p.xfer);
            && (!p.paged ==> r.flight == all[..n] && r.queue == all[n..] && r.staged == [] && (r.active <==> n > 0))
            && (p.paged ==> !r.active && r.staged + r.queue == all)
            && (p.paged ==> |r.staged| == |p.staged| + if p.override && p.queue != [] && |p.staged| < p.xfer then 1 else 0)
            && (r.override <==> p.override && |r.queue| == |p.queue|) && r.paged == p.paged && r.wire == p.wire
  {
    FilledIs(p.staged, p.queue, Taken(p));
  }

  lemma FilledIs(s: seq<byte>, q: seq<byte>, n: nat)
    requires n <= |q|
    ensures (s + q[..n]) + q[n..] == s + q && s + q[..n] == (s + q)[..|s| + n] && q[n..] == (s + q)[|s| + n..]
  {
  }

  /** The other events. */
  lemma EventsExactly(p: Path, c: byte, n: nat, on: bool)
    requires Proper(p)
    ensures After(p, Page(on)) == p.(paged := on) && After(p, Kick) == Kicked(p)
    ensures |p.queue| < p.room ==>
              After(p, Put(c)).queue == p.queue + [c] && After(p, Inject(c)).queue == [c] + p.queue && After(p, Inject(c)).override
    ensures p.active && n <= |p.flight| ==>
              After(p, Moved(n)).wire == p.wire + p.flight[..n] && After(p, Moved(n)).flight == p.flight[n..]
    ensures p.active && p.flight == [] ==> After(p, Interrupt(on)) == Kicked(p.(active := false))
    ensures p.active && p.flight != [] ==> After(p, Interrupt(on)) == p
  {
  }

  // ---------------------------------------------------------------- data and flow control

  /** A byte and whether it is a flow control byte that was injected ahead of the data. */
  datatype Item = Item(c: byte, injected: bool)

  function Bytes(items: seq<Item>): (b: seq<byte>)
    ensures |b| == |items|
  {
    seq(|items|, i requires 0 <= i < |items| => items[i].c)
  }

  /** The data bytes, without what was injected. */
  function Data(items: seq<Item>): (b: seq<byte>) {
    if items == [] then [] else (if items[0].injected then [] else [items[0].c]) + Data(items[1..])
  }

  function AsData(b: seq<byte>): (items: seq<Item>) {
    seq(|b|, i requires 0 <= i < |b| => Item(b[i], false))
  }

  lemma {:induction false} DataAppend(a: seq<Item>, b: seq<Item>)
    ensures Data(a + b) == Data(a) + Data(b)
  {
    if a == [] {
      assert a + b == b;
    } else {
      assert (a + b)[0] == a[0] && (a + b)[1..] == a[1..] + b;
      DataAppend(a[1..], b);
    }
  }

  lemma {:induction false} AsDataIs(b: seq<byte>)
    ensures Bytes(AsData(b)) == b && Data(AsData(b)) == b
  {
    if b != [] {
      assert AsData(b)[1..] == AsData(b[1..]);
      AsDataIs(b[1..]);
    }
  }

  /** One more data byte at the end. */
  lemma ItemPut(items: seq<Item>, c: byte)
    ensures Bytes(items + [Item(c, false)]) == Bytes(items) + [c]
    ensures Data(items + [Item(c, false)]) == Data(items) + [c]
  {
    DataAppend(items, [Item(c, false)]);
    assert [Item(c, false)][1..] == [];
  }

  lemma BytesAppend(a: seq<Item>, b: seq<Item>)
    ensures Bytes(a + b) == Bytes(a) + Bytes(b)
  {
  }

  lemma Halves<T>(x: seq<T>, a: seq<T>, b: seq<T>)
    requires x == a + b
    ensures x[..|a|] == a && x[|a|..] == b
  {
  }

  lemma BytesBetween(a: seq<Item>, b: seq<Item>, i: Item)
    ensures Bytes(a + [i] + b) == Bytes(a) + [i.c] + Bytes(b)
  {
    BytesAppend(a + [i], b);
    BytesAppend(a, [i]);
  }

  /** An injected byte in between does not touch the data. */
  lemma DataBetween(a: seq<Item>, b: seq<Item>, i: Item)
    requires i.injected
    ensures Data(a + [i] + b) == Data(a + b)
  {
    DataAppend(a + [i], b);
    DataAppend(a, [i]);
    DataAppend(a, b);
    assert [i][1..] == [];
  }

  lemma ItemInjected(items: seq<Item>, a: seq<Item>, b: seq<Item>, c: byte)
    requires items == a + b
    ensures Bytes(a + [Item(c, true)] + b) == Bytes(items)[..|a|] + [c] + Bytes(items)[|a|..]
    ensures Data(a + [Item(c, true)] + b) == Data(items)
  {
    BytesAppend(a, b);
    Halves(Bytes(items), Bytes(a), Bytes(b));
    BytesBetween(a, b, Item(c, true));
    DataBetween(a, b, Item(c, true));
  }

  // ---------------------------------------------------------------- runs

  function Replay(p: Path, events: seq<Event>): (r: Path)
    requires Proper(p)
    ensures Proper(r)
  {
    if events == [] then p
    else
      var r := Replay(p, events[..|events| - 1]);
      AfterIs(r, events[|events| - 1]);
      After(r, events[|events| - 1])
  }

  /** Where an event puts its byte. */
  function Placed(items: seq<Item>, p: Path, e: Event): (r: seq<Item>) {
    if !Adds(p, e) then items
    else if e.Put? then items + [Item(e.c, false)]
    else if Handed(p) <= |items| then items[..Handed(p)] + [Item(e.c, true)] + items[Handed(p)..]
    else items
  }

  /** What was in the path at the start as data, with the bytes of all events in their places. */
  function Arranged(p: Path, events: seq<Event>): (items: seq<Item>)
    requires Proper(p)
  {
    if events == [] then AsData(All(p))
    else
      var front := events[..|events| - 1];
      Placed(Arranged(p, front), Replay(p, front), events[|events| - 1])
  }

  /** The data bytes accepted in a run, in order. */
  function PutBytes(p: Path, events: seq<Event>): (b: seq<byte>)
    requires Proper(p)
  {
    if events == [] then []
    else
      var front, e := events[..|events| - 1], events[|events| - 1];
      PutBytes(p, front) + if e.Put? && Adds(Replay(p, front), e) then [e.c] else []
  }

  lemma PlacedIs(items: seq<Item>, p: Path, e: Event)
    requires Proper(p) && All(p) == Bytes(items)
    ensures All(After(p, e)) == Bytes(Placed(items, p, e))
    ensures Data(Placed(items, p, e)) == Data(items) + if e.Put? && Adds(p, e) then [e.c] else []
  {
    AfterIs(p, e);
    if Adds(p, e) {
      if e.Put? {
        ItemPut(items, e.c);
      } else {
        var h := Handed(p);
        assert items == items[..h] + items[h..];
        ItemInjected(items, items[..h], items[h..], e.c);
      }
    }
  }

  /** In every run the path holds exactly the arranged bytes, and without the injected ones
      these are what was there at the start and what was put since. */
  lemma {:induction false} RunArranged(p: Path, events: seq<Event>)
    requires Proper(p)
    ensures All(Replay(p, events)) == Bytes(Arranged(p, events))
    ensures Data(Arranged(p, events)) == All(p) + PutBytes(p, events)
  {
    if events == [] {
      AsDataIs(All(p));
    } else {
      var front, e := events[..|events| - 1], events[|events| - 1];
      RunArranged(p, front);
      PlacedIs(Arranged(p, front), Replay(p, front), e);
    }
  }

  lemma PrefixStep(a: seq<byte>, b: seq<byte>, c: seq<byte>)
    requires |a| <= |b| <= |c| && b[..|a|] == a && c[..|b|] == b
    ensures c[..|a|] == a
  {
    assert c[..|a|] == c[..|b|][..|a|];
  }

  /** In every run the wire only grows, it shows the front of the arranged bytes, and what
      had left the queue before stays in front. */
  lemma {:induction false} RunWire(p: Path, events: seq<Event>)
    requires Proper(p)
    ensures var r := Replay(p, events);
            && |p.wire| <= |r.wire| <= |Arranged(p, events)| && r.wire[..|p.wire|] == p.wire
            && r.wire == Bytes(Arranged(p, events))[..|r.wire|]
            && Handed(p) <= Handed(r) && All(r)[..Handed(p)] == All(p)[..Handed(p)]
            && r.room == p.room && r.xfer == p.xfer
  {
    RunArranged(p, events);
    var r := Replay(p, events);
    assert All(r)[..|r.wire|] == r.wire;
    if events != [] {
      var front, e := events[..|events| - 1], events[|events| - 1];
      RunWire(p, front);
      var q := Replay(p, front);
      AfterIs(q, e);
      PrefixStep(p.wire, q.wire, r.wire);
      FrontStays(q, e, Handed(p));
    }
  }

  lemma FrontStays(p: Path, e: Event, n: nat)
    requires Proper(p) && n <= Handed(p)
    ensures Handed(p) <= Handed(After(p, e)) && All(After(p, e))[..n] == All(p)[..n]
  {
    AfterIs(p, e);
  }

  /** The two together. */
  lemma RunIs(p: Path, events: seq<Event>)
    requires Proper(p)
    ensures var r, all := Replay(p, events), All(Replay(p, events));
            && all == Bytes(Arranged(p, events)) && Data(Arranged(p, events)) == All(p) + PutBytes(p, events)
            && |p.wire| <= |r.wire| <= |all| && r.wire[..|p.wire|] == p.wire && r.wire == all[..|r.wire|]
            && Handed(p) <= Handed(r) && all[..Handed(p)] == All(p)[..Handed(p)]
            && (r.flight == [] && r.staged == [] && r.queue == [] ==> r.wire == all)
  {
    RunArranged(p, events);
    RunWire(p, events);
  }

  lemma ReplayMore(p: Path, events: seq<Event>, e: Event)
    requires Proper(p)
    ensures Replay(p, events + [e]) == After(Replay(p, events), e)
  {
    assert (events + [e])[..|events|] == events;
  }

  /** A finished transfer is followed by one with what waits, if anything does. */
  lemma FinishOne(p: Path) returns (moved: Path, next: Path)
    requires Proper(p) && !p.paged && p.xfer > 0 && p.active
    ensures moved == After(p, Moved(|p.flight|)) && Proper(moved) && next == After(moved, Interrupt(true)) && Proper(next)
    ensures !next.paged && next.xfer == p.xfer && next.room == p.room && All(next) == All(p) && next.staged == []
    ensures |next.queue| <= |p.queue| && if next.active then |next.queue| < |p.queue| else next.queue == []
  {
    moved := After(p, Moved(|p.flight|));
    next := After(moved, Interrupt(true));
    EventsExactly(p, 0, |p.flight|, true);
    AfterIs(p, Moved(|p.flight|));
    EventsExactly(moved, 0, 0, true);
    AfterIs(moved, Interrupt(true));
    KickedExactly(moved.(active := false));
    assert moved.staged + moved.queue == moved.queue == p.queue;
  }

  /** Nothing is left on the way, and the wire has shown it all. */
  predicate Out(p: Path, all: seq<byte>) {
    p.wire == all && p.flight == [] && p.staged == [] && p.queue == []
  }

  /** As long as the engine finishes its transfers everything gets out: from where `events`
      have led, two more events for each byte in the queue and for the transfer are enough. */
  lemma {:induction false} Finishes(p: Path, events: seq<Event>, r: Path) returns (more: seq<Event>)
    requires Proper(p) && r == Replay(p, events) && Proper(r)
    requires !r.paged && r.xfer > 0 && (r.active || r.staged + r.queue == [])
    ensures Out(Replay(p, more), All(r))
    ensures |more| <= |events| + if r.active then 2 * (|r.queue| + 1) else 0
    decreases |r.queue|, r.active
  {
    if !r.active {
      more := events;
      assert All(r) == r.wire;
    } else {
      var moved, next := FinishOne(r);
      ReplayMore(p, events, Moved(|r.flight|));
      ReplayMore(p, events + [Moved(|r.flight|)], Interrupt(true));
      more := Finishes(p, events + [Moved(|r.flight|)] + [Interrupt(true)], next);
    }
  }

  /** Releasing and kicking the output. */
  lemma Released(p: Path) returns (free: Path, next: Path)
    requires Proper(p) && p.xfer > 0
    ensures free == After(p, Page(false)) && Proper(free) && next == After(free, Kick) && Proper(next)
    ensures !next.paged && next.xfer == p.xfer && All(next) == All(p) && |next.queue| <= |p.queue|
    ensures next.active || next.staged + next.queue == []
  {
    free := After(p, Page(false));
    next := After(free, Kick);
    EventsExactly(p, 0, 0, false);
    AfterIs(p, Page(false));
    EventsExactly(free, 0, 0, false);
    AfterIs(free, Kick);
    if !free.active {
      KickedExactly(free);
    }
  }

  /** From every state, releasing and kicking the output lets everything out. */
  lemma EverythingOut(p: Path) returns (events: seq<Event>)
    requires Proper(p) && p.xfer > 0
    ensures Out(Replay(p, events), All(p)) && |events| <= 2 * |p.queue| + 4
  {
    var free, next := Released(p);
    ReplayMore(p, [], Page(false));
    ReplayMore(p, [] + [Page(false)], Kick);
    events := Finishes(p, [] + [Page(false)] + [Kick], next);
  }

  /** With room for all events nothing is refused. */
  lemma {:induction false} AllAccepted(p: Path, events: seq<Event>, i: nat)
    requires Proper(p) && |p.queue| + |events| <= p.room && i <= |events|
    ensures |Replay(p, events[..i]).queue| <= |p.queue| + i
    ensures i < |events| && (events[i].Put? || events[i].Inject?) ==> Adds(Replay(p, events[..i]), events[i])
  {
    if i > 0 {
      AllAccepted(p, events, i - 1);
      assert events[..i][..i - 1] == events[..i - 1];
      AfterIs(Replay(p, events[..i - 1]), events[i - 1]);
    }
    RunWire(p, events[..i]);
  }
}
