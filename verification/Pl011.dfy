/** The PL011 DMA transmit path with output post-processing off: bytes go from the
    ring of the character layer into a staging buffer, from there by DMA to the wire.
    A partial DMA is restarted with what it left over.

    The DMA engine is the environment: it moves bytes of the buffer to the wire in
    order, and `bytes_left` reports exactly what it has not moved.  One device. */
module Pl011 {
  import opened Memory
  import opened UartPath

  // ---------------------------------------------------------------- the ring, on values

  /** What a ring holds, oldest byte first. */
  function Contents(ring: seq<byte>, tail: nat, cnt: nat): (c: seq<byte>)
    requires tail < |ring| && cnt <= |ring|
    ensures |c| == cnt
  {
    if tail + cnt <= |ring| then ring[tail..tail + cnt] else ring[tail..] + ring[..tail + cnt - |ring|]
  }

  function Advanced(size: nat, tail: nat, n: nat): (t: nat)
    requires tail < size && n <= size
    ensures t < size
  {
    if tail + n < size then tail + n else tail + n - size
  }

  /** Byte `i` of the ring, counted from the tail. */
  lemma ContentsAt(ring: seq<byte>, tail: nat, cnt: nat, i: nat)
    requires tail < |ring| && i < cnt <= |ring|
    ensures Contents(ring, tail, cnt)[i] == ring[Advanced(|ring|, tail, i)]
  {
  }

  lemma AdvancedTwice(size: nat, tail: nat, n: nat, i: nat)
    requires tail < size && n + i < size
    ensures Advanced(size, Advanced(size, tail, n), i) == Advanced(size, tail, n + i)
  {
  }

  /** Taking `n` bytes from the tail, across the wrap or not. */
  lemma ContentsTaken(ring: seq<byte>, tail: nat, cnt: nat, n: nat)
    requires tail < |ring| && n <= cnt <= |ring|
    ensures Contents(ring, tail, cnt) == Contents(ring, tail, n) + Contents(ring, Advanced(|ring|, tail, n), cnt - n)
  {
    var c, a, b := Contents(ring, tail, cnt), Contents(ring, tail, n), Contents(ring, Advanced(|ring|, tail, n), cnt - n);
    forall i | 0 <= i < cnt
      ensures c[i] == (a + b)[i]
    {
      ContentsAt(ring, tail, cnt, i);
      if i < n {
        ContentsAt(ring, tail, n, i);
      } else {
        ContentsAt(ring, Advanced(|ring|, tail, n), cnt - n, i - n);
        AdvancedTwice(|ring|, tail, n, i - n);
      }
    }
  }

  /** Putting a byte behind the head. */
  lemma ContentsPut(ring: seq<byte>, tail: nat, cnt: nat, c: byte)
    requires tail < |ring| && cnt < |ring|
    ensures Contents(ring[Advanced(|ring|, tail, cnt) := c], tail, cnt + 1) == Contents(ring, tail, cnt) + [c]
  {
    var r := ring[Advanced(|ring|, tail, cnt) := c];
    forall i | 0 <= i < cnt + 1
      ensures Contents(r, tail, cnt + 1)[i] == (Contents(ring, tail, cnt) + [c])[i]
    {
      ContentsAt(r, tail, cnt + 1, i);
      if i < cnt {
        ContentsAt(ring, tail, cnt, i);
      }
    }
  }

  function Before(size: nat, tail: nat): (t: nat)
    requires tail < size
    ensures t < size
  {
    if tail == 0 then size - 1 else tail - 1
  }

  /** Putting a byte in front of the tail. */
  lemma ContentsInjected(ring: seq<byte>, tail: nat, cnt: nat, c: byte)
    requires tail < |ring| && cnt < |ring|
    ensures Contents(ring[Before(|ring|, tail) := c], Before(|ring|, tail), cnt + 1) == [c] + Contents(ring, tail, cnt)
  {
    var r, t := ring[Before(|ring|, tail) := c], Before(|ring|, tail);
    forall i | 0 <= i < cnt + 1
      ensures Contents(r, t, cnt + 1)[i] == ([c] + Contents(ring, tail, cnt))[i]
    {
    }
  }

  /** A copy across the wrap in two parts. */
  lemma TwoParts(s: seq<byte>, half: seq<byte>, t: seq<byte>, ring: seq<byte>, tail: nat, n: nat)
    requires tail < |ring| < tail + n && n <= |ring|
    requires half == s + ring[tail..|ring|] && t == half + ring[0..n - (|ring| - tail)]
    ensures t == s + Contents(ring, tail, n)
  {
    assert ring[tail..|ring|] == ring[tail..];
    Assoc(s, ring[tail..], ring[..tail + n - |ring|]);
  }

  lemma PartsOf(b: array<byte>, i: nat, j: nat, k: nat)
    requires i <= j <= k <= b.Length
    ensures b[i..k][..j - i] == b[i..j] && b[i..k][j - i..] == b[j..k]
  {
  }

  lemma MovedIs(p: Path, n: nat, wire: seq<byte>, flight: seq<byte>)
    requires Proper(p) && p.active && n <= |p.flight| && wire == p.wire + p.flight[..n] && flight == p.flight[n..]
    ensures After(p, Moved(n)) == p.(wire := wire, flight := flight)
  {
  }

  lemma PartMoved(wire: seq<byte>, b: array<byte>, i: nat, j: nat, k: nat)
    requires i <= j <= k <= b.Length
    ensures wire + b[i..j] + b[j..k] == wire + b[i..k]
  {
    assert b[i..k] == b[i..j] + b[j..k];
    Assoc(wire, b[i..j], b[j..k]);
  }

  lemma InsertedAhead(line: seq<byte>, s: seq<byte>, q: seq<byte>, c: byte)
    ensures var n := |line| + |s|;
            line + (s + ([c] + q)) == (line + (s + q))[..n] + [c] + (line + (s + q))[n..]
  {
    Assoc(line, s, q);
    Assoc(line, s, [c] + q);
    Assoc(line + s, [c], q);
    Halves(line + s + q, line + s, q);
  }

  lemma AddedBehind(line: seq<byte>, s: seq<byte>, q: seq<byte>, c: byte)
    ensures line + (s + (q + [c])) == line + (s + q) + [c]
  {
    Assoc(s, q, [c]);
    Assoc(line, s + q, [c]);
  }

  lemma TakenBehind(s: seq<byte>, t: seq<byte>, ring: seq<byte>, tail: nat, cnt: nat, n: nat)
    requires tail < |ring| && n <= cnt <= |ring|
    requires t == s + Contents(ring, tail, n)
    ensures t + Contents(ring, Advanced(|ring|, tail, n), cnt - n) == s + Contents(ring, tail, cnt)
  {
    ContentsTaken(ring, tail, cnt, n);
    Assoc(s, Contents(ring, tail, n), Contents(ring, Advanced(|ring|, tail, n), cnt - n));
  }

  lemma Assoc(a: seq<byte>, b: seq<byte>, c: seq<byte>)
    ensures a + b + c == a + (b + c)
  {
  }

  method CopyBytes(dst: array<byte>, at: nat, src: array<byte>, from: nat, n: nat)
    requires dst != src && at + n <= dst.Length && from + n <= src.Length
    modifies dst
    ensures dst[..at + n] == old(dst[..at]) + src[..][from..from + n]
  {
    var i := 0;
    while i < n
      invariant 0 <= i <= n
      invariant dst[..at + i] == old(dst[..at]) + src[..][from..from + i]
    {
      dst[at + i] := src[from + i];
      assert dst[..at + i + 1] == dst[..at + i] + [src[from + i]];
      i := i + 1;
    }
  }

  /** Where the boundary between two parts of one sequence lies decides what they are. */
  lemma Boundary(s: seq<byte>, q: seq<byte>, s': seq<byte>, q': seq<byte>, n: nat)
    requires s' + q' == s + q && |s'| == |s| + n && n <= |q|
    ensures s' == s + q[..n] && q' == q[n..]
  {
    assert s + q == s + q[..n] + q[n..];
    assert s' == (s' + q')[..|s'|] && q' == (s' + q')[|s'|..];
  }

  class Uart {
    const ring: array<byte>
    const buf: array<byte>
    var tail: nat
    var cnt: nat
    var staged: nat        // the function static byte_cnt
    var active: bool       // DMA_TX_ACTIVE
    var len: nat           // buf_tx.len
    var paged: bool        // OHW_PAGED or OSW_PAGED
    var override: bool     // OSW_PAGED_OVERRIDE
    var sent: nat          // the DMA engine: how much of an active transfer has reached the wire
    var wire: seq<byte>    // what the line has seen

    ghost predicate Valid()
      reads this
    {
      && ring != buf && 0 < buf.Length < 0x8000_0000
      && tail < ring.Length && cnt <= ring.Length
      && staged <= buf.Length && len <= buf.Length
      && (active ==> staged == 0 && sent <= len)
    }

    ghost function InFlight(): (s: seq<byte>)
      reads this, buf
      requires Valid()
    {
      if active then buf[sent..len] else []
    }

    ghost function Queued(): (s: seq<byte>)
      reads this, ring
      requires Valid()
    {
      Contents(ring[..], tail, cnt)
    }

    /** What no transfer has taken up yet. */
    ghost function Waiting(): (s: seq<byte>)
      reads this, ring, buf
      requires Valid()
    {
      buf[..staged] + Queued()
    }

    /** Everything ever enqueued, wherever it is now, in order. */
    ghost function Total(): (s: seq<byte>)
      reads this, ring, buf
      requires Valid()
    {
      wire + InFlight() + Waiting()
    }

    /** The path as a value. */
    ghost function View(): (p: Path)
      reads this, ring, buf
      requires Valid()
      ensures Proper(p)
    {
      Path(wire, InFlight(), buf[..staged], Queued(), active, paged, override, ring.Length, buf.Length)
    }

    constructor (ringSize: nat, xferSize: nat)
      requires 0 < ringSize && 0 < xferSize < 0x8000_0000
      ensures Valid() && Total() == [] && !active
    {
      ring := new byte[ringSize](_ => 0);
      buf := new byte[xferSize](_ => 0);
      tail, cnt, staged, len, sent := 0, 0, 0, 0, 0;
      active, paged, override := false, false, false;
      wire := [];
    }

    /** The character layer adds a byte at the head of the ring. */
    method Enqueue(c: byte)
      requires Valid() && cnt < ring.Length
      modifies `cnt, ring
      ensures Valid() && Total() == old(Total()) + [c]
      ensures View() == After(old(View()), Put(c))
    {
      ContentsPut(ring[..], tail, cnt, c);
      AddedBehind(wire + InFlight(), buf[..staged], Queued(), c);
      ring[Advanced(ring.Length, tail, cnt)] := c;
      cnt := cnt + 1;
      assert Queued() == old(Queued()) + [c];
    }

    /** How many bytes have left the ring. */
    ghost function Handed(): (n: nat)
      reads this, buf
      requires Valid()
    {
      |wire| + |InFlight()| + staged
    }

    /** `tx_inject`: a flow control byte goes to the tail of the ring and may pass a held
        output. */
    method Injected(c: byte)
      requires Valid() && cnt < ring.Length
      modifies `tail, `cnt, `override, ring
      ensures Valid() && override && Queued() == [c] + old(Queued())
      ensures Handed() == old(Handed()) <= |old(Total())|
      ensures Total() == old(Total())[..old(Handed())] + [c] + old(Total())[old(Handed())..]
      ensures View() == After(old(View()), Inject(c))
    {
      PutInFront(c);
    }

    /** The byte goes to the place before the tail. */
    method PutInFront(c: byte)
      requires Valid() && cnt < ring.Length
      modifies `tail, `cnt, `override, ring
      ensures Valid() && override && cnt == old(cnt) + 1 && Queued() == [c] + old(Queued())
      ensures Total() == old(Total())[..old(Handed())] + [c] + old(Total())[old(Handed())..]
    {
      ContentsInjected(ring[..], tail, cnt, c);
      InsertedAhead(wire + InFlight(), buf[..staged], Queued(), c);
      tail := Before(ring.Length, tail);
      ring[tail] := c;
      cnt, override := cnt + 1, true;
      assert Queued() == [c] + old(Queued());
    }

    /** The DMA engine moves `n` more bytes to the wire. */
    method DmaMoves(n: nat)
      requires Valid() && active && sent + n <= len
      modifies `sent, `wire
      ensures Valid() && Total() == old(Total())
      ensures sent == old(sent) + n && wire == old(wire) + buf[old(sent)..sent]
      ensures View() == After(old(View()), Moved(n))
    {
      PartsOf(buf, sent, sent + n, len);
      ghost var was := View();
      Move(n);
      MovedIs(was, n, wire, InFlight());
    }

    method Move(n: nat)
      requires Valid() && active && sent + n <= len
      modifies `sent, `wire
      ensures Valid() && Total() == old(Total())
      ensures sent == old(sent) + n && wire == old(wire) + buf[old(sent)..sent] && InFlight() == buf[sent..len]
    {
      PartMoved(wire, buf, sent, sent + n, len);
      wire := wire + buf[sent..sent + n];
      sent := sent + n;
    }

    /** The block copy of `tto`, in one part or across the wrap in two. */
    method CopyRing(n: nat)
      requires Valid() && n <= cnt && staged + n <= buf.Length
      modifies buf
      ensures buf[..staged + n] == old(buf[..staged]) + Contents(ring[..], tail, n)
    {
      var first := ring.Length - tail;
      if n <= first {
        CopyBytes(buf, staged, ring, tail, n);
        assert Contents(ring[..], tail, n) == ring[..][tail..tail + n];
      } else {
        CopyWrapped(n);
      }
    }

    method CopyWrapped(n: nat)
      requires Valid() && n <= cnt && staged + n <= buf.Length && ring.Length - tail < n
      modifies buf
      ensures buf[..staged + n] == old(buf[..staged]) + Contents(ring[..], tail, n)
    {
      var first := ring.Length - tail;
      ghost var s := buf[..staged];
      CopyBytes(buf, staged, ring, tail, first);
      ghost var half := buf[..staged + first];
      CopyBytes(buf, staged + first, ring, 0, n - first);
      TwoParts(s, half, buf[..staged + n], ring[..], tail, n);
    }

    /** `n` bytes move from the ring to the buffer. */
    method Drain(n: nat)
      requires Valid() && !active && n <= cnt && staged + n <= buf.Length
      modifies `tail, `cnt, `staged, buf
      ensures Valid() && staged == old(staged) + n && cnt == old(cnt) - n
      ensures Waiting() == old(Waiting())
    {
      ghost var s, r := buf[..staged], ring[..];
      CopyRing(n);
      ghost var t := buf[..staged + n];
      assert ring[..] == r;
      TakenBehind(s, t, r, tail, cnt, n);
      TakeOver(n, Contents(r, Advanced(|r|, tail, n), cnt - n));
      assert buf[..staged] == t;
    }

    /** The copied bytes leave the ring: what stays there is `q`. */
    method TakeOver(n: nat, ghost q: seq<byte>)
      requires Valid() && !active && n <= cnt && staged + n <= buf.Length
      requires q == Contents(ring[..], Advanced(ring.Length, tail, n), cnt - n)
      modifies `tail, `cnt, `staged
      ensures Valid() && staged == old(staged) + n && cnt == old(cnt) - n && Queued() == q
    {
      tail := Advanced(ring.Length, tail, n);
      cnt, staged := cnt - n, staged + n;
    }

    /** The filling loop of `tto`. */
    method FillLoop()
      requires Valid() && !active
      modifies `tail, `cnt, `staged, `override, buf
      ensures Valid()
      ensures Waiting() == old(Waiting())
      ensures staged > 0 <==> old(staged) > 0 || (old(cnt) > 0 && (!paged || old(override)))
      ensures !paged ==> cnt == 0 || staged == buf.Length
      ensures cnt <= old(cnt) && (!paged && old(cnt) > 0 && old(staged) < buf.Length ==> cnt < old(cnt))
      ensures paged && !old(override) ==> staged == old(staged) && cnt == old(cnt) && tail == old(tail)
      ensures paged && old(override) && old(cnt) > 0 && old(staged) < buf.Length
           ==> staged == old(staged) + 1 && cnt == old(cnt) - 1 && !override
      ensures staged + cnt == old(staged) + old(cnt) && (override <==> old(override) && cnt == old(cnt))
    {
      while cnt > 0 && staged < buf.Length
        modifies `tail, `cnt, `staged, `override, buf
        invariant Valid() && staged >= old(staged) && cnt <= old(cnt)
        invariant Waiting() == old(Waiting())
        invariant cnt < old(cnt) ==> staged > 0
        invariant staged + cnt == old(staged) + old(cnt)
        invariant override <==> old(override) && cnt == old(cnt)
        invariant paged && !old(override) ==> staged == old(staged) && cnt == old(cnt) && tail == old(tail)
        invariant paged && old(override) && !override ==> staged == old(staged) + 1 && cnt == old(cnt) - 1
        decreases cnt
      {
        if paged && !override {
          break;
        }
        if override {
          Drain(1);
          override := false;
        } else {
          Drain(if cnt <= buf.Length - staged then cnt else buf.Length - staged);
        }
      }
    }

    /** What the loop does to the path: the boundary between buffer and ring moves. */
    method Fill()
      requires Valid() && !active
      modifies `tail, `cnt, `staged, `override, buf
      ensures Valid()
      ensures Waiting() == old(Waiting())
      ensures staged > 0 <==> old(staged) > 0 || (old(cnt) > 0 && (!paged || old(override)))
      ensures !paged ==> cnt == 0 || staged == buf.Length
      ensures cnt <= old(cnt) && (!paged && old(cnt) > 0 && old(staged) < buf.Length ==> cnt < old(cnt))
      ensures paged && !old(override) ==> staged == old(staged) && cnt == old(cnt) && tail == old(tail)
      ensures paged && old(override) && old(cnt) > 0 && old(staged) < buf.Length
           ==> staged == old(staged) + 1 && cnt == old(cnt) - 1 && !override
      ensures View() == Filled(old(View()))
    {
      ghost var was := View();
      FillLoop();
      Boundary(was.staged, was.queue, buf[..staged], Queued(), staged - old(staged));
    }

    /** The DMA branch of `tto`. */
    method Tto()
      requires Valid()
      modifies `tail, `cnt, `staged, `override, `active, `len, `sent, buf
      ensures Valid() && Total() == old(Total())
      ensures old(active) ==> active && len == old(len) && sent == old(sent) && cnt == old(cnt)
      // A transfer is started exactly when output is not held and there is something to send ...
      ensures !old(active) ==> (active <==> !paged && (old(staged) > 0 || old(cnt) > 0))
      // ... and it takes all that the buffer can hold.
      ensures !old(active) && active ==> sent == 0 && staged == 0 && (cnt == 0 || len == buf.Length)
      ensures cnt <= old(cnt) && (!old(active) && !paged && old(cnt) > 0 && old(staged) < buf.Length ==> cnt < old(cnt))
      ensures !old(active) && !active && !paged ==> staged == 0 && cnt == 0
      ensures !old(active) && paged && !old(override) ==> staged == old(staged) && cnt == old(cnt)
      // A flow control byte that may pass a held output is moved to the buffer, but no transfer starts.
      ensures !old(active) && paged && old(override) && old(cnt) > 0 && old(staged) < buf.Length
           ==> !active && staged == old(staged) + 1 && cnt == old(cnt) - 1
      ensures View() == Kicked(old(View()))
    {
      if active {
        return;
      }
      FillAndStart();
    }

    method FillAndStart()
      requires Valid() && !active
      modifies `tail, `cnt, `staged, `override, `active, `len, `sent, buf
      ensures Valid() && Total() == old(Total()) && View() == Kicked(old(View()))
      ensures active <==> !paged && (old(staged) > 0 || old(cnt) > 0)
      ensures active ==> sent == 0 && staged == 0 && (cnt == 0 || len == buf.Length)
      ensures cnt <= old(cnt) && (!paged && old(cnt) > 0 && old(staged) < buf.Length ==> cnt < old(cnt))
      ensures !active && !paged ==> staged == 0 && cnt == 0
      ensures paged && !old(override) ==> staged == old(staged) && cnt == old(cnt)
      ensures paged && old(override) && old(cnt) > 0 && old(staged) < buf.Length ==> staged == old(staged) + 1 && cnt == old(cnt) - 1
    {
      Fill();
      Launch();
    }

    /** What is staged is sent, unless output is held. */
    method Launch()
      requires Valid() && !active
      modifies `staged, `active, `len, `sent
      ensures Valid() && Total() == old(Total()) && View() == Started(old(View()))
      ensures active <==> !paged && old(staged) > 0
      ensures active ==> len == old(staged) && sent == 0 && staged == 0
      ensures !active ==> staged == old(staged)
    {
      if staged > 0 && !paged {
        Start();
      }
    }

    /** The staged bytes become a transfer. */
    method Start()
      requires Valid() && !active && staged > 0
      modifies `staged, `active, `len, `sent
      ensures Valid() && Total() == old(Total())
      ensures active && len == old(staged) && sent == 0 && staged == 0
      ensures !paged ==> View() == Started(old(View()))
    {
      assert buf[..0] + Queued() == Queued();
      assert buf[0..staged] == buf[..staged];
      Assoc(wire, buf[..staged], Queued());
      active, len, staged, sent := true, staged, 0, 0;
    }

    /** `tx_interrupt`: the transfer is over, or what it left over is moved to the
        front of the buffer and restarted; then `tto`. */
    method TxInterrupt(complete: bool)
      requires Valid()
      requires active && complete ==> sent == len
      modifies `tail, `cnt, `staged, `override, `active, `len, `sent, buf
      ensures Valid() && Total() == old(Total())
      ensures old(active) && old(sent) < old(len) ==> active && len == old(len) - old(sent) && sent == 0
      ensures old(active) && old(sent) == old(len) ==> (active <==> !paged && old(cnt) > 0)
      ensures old(active) && old(sent) == old(len) && active ==> cnt < old(cnt)
      ensures old(active) && !active && !paged ==> staged == 0 && cnt == 0
      ensures View() == Interrupted(old(View()), complete)
    {
      if active {
        if complete {
          Finish();
        } else {
          var left := len - sent;
          if left > 0 {
            Shift(left);
          } else {
            Finish();
          }
        }
      }
      Tto();
    }

    /** Nothing is left of the transfer. */
    method Finish()
      requires Valid() && active && sent == len
      modifies `active
      ensures Valid() && !active && Total() == old(Total()) && Waiting() == old(Waiting())
      ensures View() == old(View()).(active := false, flight := [])
    {
      active := false;
    }

    /** Restart of a partial transfer. */
    method Shift(left: nat)
      requires Valid() && active && left == len - sent && left > 0
      modifies `len, `sent, buf
      ensures Valid() && len == left && sent == 0
      ensures InFlight() == old(InFlight()) && View() == old(View())
    {
      ghost var was := buf[..];
      Memmove(buf, 0, len - left, left);
      MoveLengthFits(0, len - left, left);
      forall i | 0 <= i < left
        ensures buf[..][i] == was[sent..len][i]
      {
        CopiedAt(was, 0, sent, left, i);
      }
      assert buf[..left] == was[sent..len];
      len, sent := left, 0;
    }

    /** With output not held and an engine that finishes its transfers, everything
        accepted reaches the wire. */
    method RunDry()
      requires Valid() && !paged
      modifies this, buf
      ensures Valid() && wire == old(Total()) && !active && staged == 0 && cnt == 0
    {
      Tto();
      while active
        modifies this, buf
        invariant Valid() && !paged && Total() == old(Total())
        invariant !active ==> staged == 0 && cnt == 0
        decreases active, cnt
      {
        FinishOne();
      }
    }

    /** The engine finishes the transfer and the completion interrupt is served. */
    method FinishOne()
      requires Valid() && active && !paged
      modifies `sent, `wire, `tail, `cnt, `staged, `override, `active, `len, buf
      ensures Valid() && Total() == old(Total())
      ensures active ==> cnt < old(cnt)
      ensures !active ==> staged == 0 && cnt == 0
    {
      MoveRest();
      TxInterrupt(true);
    }

    method MoveRest()
      requires Valid() && active
      modifies `sent, `wire
      ensures Valid() && sent == len && Total() == old(Total())
    {
      DmaMoves(len - sent);
    }

    /** One step of a run; what cannot happen now is skipped. */
    method Step(e: Event)
      requires Valid()
      modifies this, ring, buf
      ensures Valid() && View() == After(old(View()), e)
    {
      match e
      case Put(c) => if cnt < ring.Length { Enqueue(c); }
      case Moved(n) => if active && sent + n <= len { DmaMoves(n); }
      case Interrupt(complete) => if active && complete ==> sent == len { TxInterrupt(complete); }
      case Kick => Tto();
      case Page(on) => paged := on;
      case Inject(c) => if cnt < ring.Length { Injected(c); }
    }

    /** The steps of a run, one by one. */
    method Steps(events: seq<Event>)
      requires Valid()
      modifies this, ring, buf
      ensures Valid() && View() == Replay(old(View()), events)
    {
      ghost var start := View();
      var i := 0;
      while i < |events|
        invariant 0 <= i <= |events| && Valid() && View() == Replay(start, events[..i])
      {
        Step(events[i]);
        i := i + 1;
        ReplayNext(start, events, i);
      }
      assert events[..i] == events;
    }

    /** Every run does to the ring, the buffer and the wire what it does to the path on
        values: the wire shows the front of the accepted bytes, data in order, injected bytes
        ahead of what was then in the ring. */
    method Run(events: seq<Event>)
      requires Valid()
      modifies this, ring, buf
      ensures Valid() && View() == Replay(old(View()), events)
      ensures Total() == Bytes(Arranged(old(View()), events))
      ensures Data(Arranged(old(View()), events)) == old(Total()) + PutBytes(old(View()), events)
      ensures |old(wire)| <= |wire| <= |Total()| && wire[..|old(wire)|] == old(wire) && wire == Total()[..|wire|]
      ensures old(Handed()) <= Handed() && Total()[..old(Handed())] == old(Total())[..old(Handed())]
      ensures !active && staged == 0 && cnt == 0 ==> wire == Total()
    {
      ghost var start := View();
      assert All(start) == Total() && Handed() == UartPath.Handed(start);
      Steps(events);
      assert All(View()) == Total() && Handed() == UartPath.Handed(View());
      RunIs(start, events);
    }
  }

  lemma ReplayNext(p: Path, events: seq<Event>, i: nat)
    requires Proper(p) && 1 <= i <= |events|
    ensures Replay(p, events[..i]) == After(Replay(p, events[..i - 1]), events[i - 1])
  {
    assert events[..i][..i - 1] == events[..i - 1];
  }
}
