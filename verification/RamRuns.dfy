/** Sequences of calls to the RAM allocator, on values: what each request answers, what the
    lists are afterwards, and what any two answers of one run have to do with one another. */
module RamRuns {
  import opened Options
  import opened RamMap

  /** A call of `add_ram`, of `alloc_ram` with or without an address, or of `avoid_ram`. */
  datatype Request = Add(b: Block) | AllocHere(b: Block) | Any(size: nat, align: nat) | Avoid(start: nat, size: nat)

  datatype State = State(list: seq<Block>, avoids: seq<Range>)

  function Answer(s: State, q: Request): (a: Option<nat>) {
    if q.Any? && q.align >= 1 then Find(s.list, Visible(s.avoids), q.size, q.align) else None
  }

  /** The lists after one request; `image` is taken out again after every addition. */
  function After(s: State, q: Request, image: Block): (r: State) {
    match q
    case Add(b) => s.(list := Cut(Added(s.list, b), image.addr, End(image)))
    case AllocHere(b) => s.(list := Cut(s.list, b.addr, End(b)))
    case Any(size, _) =>
      var a := Answer(s, q);
      if a == None then s else s.(list := Cut(s.list, a.value, a.value + size))
    case Avoid(start, size) => s.(avoids := AfterAvoid(s.avoids, start, size))
  }

  function Replay(s: State, qs: seq<Request>, image: Block): (r: State) {
    if qs == [] then s else After(Replay(s, qs[..|qs| - 1], image), qs[|qs| - 1], image)
  }

  function Answers(s: State, qs: seq<Request>, image: Block): (a: seq<Option<nat>>)
    ensures |a| == |qs|
  {
    if qs == [] then []
    else Answers(s, qs[..|qs| - 1], image) + [Answer(Replay(s, qs[..|qs| - 1], image), qs[|qs| - 1])]
  }

  /** The entries a request and its answer leave in the history. */
  function Ops(q: Request, a: Option<nat>, image: Block): (ops: seq<Op>) {
    match q
    case Add(b) => [Gain(b), Take(image)]
    case AllocHere(b) => [Take(b)]
    case Any(size, _) => if a == None then [] else [Take(Block(a.value, size))]
    case Avoid(_, _) => []
  }

  function Logged(qs: seq<Request>, answers: seq<Option<nat>>, image: Block): (log: seq<Op>)
    requires |answers| == |qs|
  {
    if qs == [] then []
    else Logged(qs[..|qs| - 1], answers[..|qs| - 1], image) + Ops(qs[|qs| - 1], answers[|qs| - 1], image)
  }

  predicate ValidState(s: State) {
    Separated(s.list) && Ranged(s.avoids)
  }

  /** The list holds exactly what the history leaves free. */
  ghost predicate Holds(s: State, log: seq<Op>) {
    forall x :: Free(s.list, x) <==> FreeBy(log, x)
  }

  lemma LogNext(l: seq<Block>, r: seq<Block>, log: seq<Op>, op: Op)
    requires forall x :: Free(l, x) <==> FreeBy(log, x)
    requires forall x :: Free(r, x) <==> if In(op.b, x) then op.Gain? else Free(l, x)
    ensures forall x :: Free(r, x) <==> FreeBy(log + [op], x)
  {
    forall x
      ensures Free(r, x) <==> FreeBy(log + [op], x)
    {
      FreeByNext(log, op, x);
    }
  }

  lemma {:induction false} RangedAppend(a: seq<Range>, r: Range)
    ensures Ranged(a + [r]) <==> Ranged(a) && r.start <= r.end
  {
    if a == [] {
      assert a + [r] == [r] && [r][1..] == [];
    } else {
      assert (a + [r])[0] == a[0] && (a + [r])[1..] == a[1..] + [r];
      RangedAppend(a[1..], r);
    }
  }

  lemma AvoidRanged(l: seq<Range>, start: nat, size: nat)
    requires Ranged(l)
    ensures Ranged(AfterAvoid(l, start, size))
  {
    if l != [] {
      var n := |l| - 1;
      assert l == l[..n] + [l[n]];
      RangedAppend(l[..n], l[n]);
      RangedAppend(l[..n], Range(l[n].start, start + size));
    }
    RangedAppend(l, Range(start, start + size));
  }

  lemma {:induction false} RangedVisible(l: seq<Range>)
    requires Ranged(l)
    ensures Ranged(Visible(l))
  {
    if l != [] && l[0].end != 0 {
      RangedVisible(l[1..]);
    }
  }

  lemma TakeHolds(l: seq<Block>, b: Block, log: seq<Op>)
    requires Separated(l) && forall x :: Free(l, x) <==> FreeBy(log, x)
    ensures Separated(Cut(l, b.addr, End(b)))
    ensures forall x :: Free(Cut(l, b.addr, End(b)), x) <==> FreeBy(log + [Take(b)], x)
  {
    CutIs(l, b.addr, End(b));
    LogNext(l, Cut(l, b.addr, End(b)), log, Take(b));
  }

  lemma GainHolds(l: seq<Block>, b: Block, log: seq<Op>)
    requires Separated(l) && forall x :: Free(l, x) <==> FreeBy(log, x)
    ensures Separated(Added(l, b))
    ensures forall x :: Free(Added(l, b), x) <==> FreeBy(log + [Gain(b)], x)
  {
    AddedIs(l, b);
    LogNext(l, Added(l, b), log, Gain(b));
  }

  /** One request keeps the list separated and in step with the history. */
  lemma AfterHolds(s: State, q: Request, image: Block, log: seq<Op>)
    requires ValidState(s) && Holds(s, log)
    ensures ValidState(After(s, q, image)) && Holds(After(s, q, image), log + Ops(q, Answer(s, q), image))
  {
    match q
    case Add(b) =>
      GainHolds(s.list, b, log);
      TakeHolds(Added(s.list, b), image, log + [Gain(b)]);
      assert log + [Gain(b)] + [Take(image)] == log + [Gain(b), Take(image)];
    case AllocHere(b) => TakeHolds(s.list, b, log);
    case Any(size, align) =>
      var a := Answer(s, q);
      if a == None {
        assert log + [] == log;
      } else {
        TakeHolds(s.list, Block(a.value, size), log);
      }
    case Avoid(start, size) =>
      AvoidRanged(s.avoids, start, size);
      assert log + [] == log;
  }

  /** What the whole run leaves free is what its history leaves free. */
  lemma {:induction false} ReplayHolds(s: State, qs: seq<Request>, image: Block, log: seq<Op>)
    requires ValidState(s) && Holds(s, log)
    ensures ValidState(Replay(s, qs, image))
    ensures Holds(Replay(s, qs, image), log + Logged(qs, Answers(s, qs, image), image))
  {
    if qs == [] {
      assert log + [] == log;
    } else {
      var front, q := qs[..|qs| - 1], qs[|qs| - 1];
      var a := Answers(s, front, image);
      ReplayHolds(s, front, image, log);
      AfterHolds(Replay(s, front, image), q, image, log + Logged(front, a, image));
      assert Answers(s, qs, image)[..|qs| - 1] == a;
      var ops := Ops(q, Answer(Replay(s, front, image), q), image);
      assert log + Logged(front, a, image) + ops == log + (Logged(front, a, image) + ops);
    }
  }

  // ---------------------------------------------------------------- the answers

  /** The answer at place `i` is the one the lists gave then. */
  lemma {:induction false} AnswerAt(s: State, qs: seq<Request>, image: Block, i: nat)
    requires i < |qs|
    ensures Answers(s, qs, image)[i] == Answer(Replay(s, qs[..i], image), qs[i])
    decreases |qs|
  {
    if i < |qs| - 1 {
      var front := qs[..|qs| - 1];
      AnswerAt(s, front, image, i);
      assert front[..i] == qs[..i];
    }
  }

  /** What a search hands out in a run was free at that point, aligned, and not avoided then. */
  lemma AnswerFree(s: State, qs: seq<Request>, image: Block, i: nat)
    requires ValidState(s) && i < |qs| && qs[i].Any? && Answers(s, qs, image)[i].Some?
    ensures var now, v := Replay(s, qs[..i], image), Answers(s, qs, image)[i].value;
            && qs[i].align >= 1 && v % qs[i].align == 0
            && forall x :: v <= x < v + qs[i].size ==> Free(now.list, x) && !Avoided(Visible(now.avoids), x)
  {
    AnswerAt(s, qs, image, i);
    ReplayValid(s, qs[..i], image);
    var now := Replay(s, qs[..i], image);
    RangedVisible(now.avoids);
    FoundIs(now.list, Visible(now.avoids), qs[i].size, qs[i].align);
  }

  lemma {:induction false} ReplayValid(s: State, qs: seq<Request>, image: Block)
    requires ValidState(s)
    ensures ValidState(Replay(s, qs, image))
  {
    if qs != [] {
      var r, q := Replay(s, qs[..|qs| - 1], image), qs[|qs| - 1];
      ReplayValid(s, qs[..|qs| - 1], image);
      AfterValid(r, q, image);
    }
  }

  lemma AfterValid(s: State, q: Request, image: Block)
    requires ValidState(s)
    ensures ValidState(After(s, q, image))
  {
    match q
    case Add(b) =>
      AddedIs(s.list, b);
      CutIs(Added(s.list, b), image.addr, End(image));
    case AllocHere(b) => CutIs(s.list, b.addr, End(b));
    case Any(size, align) =>
      var a := Answer(s, q);
      if a.Some? {
        CutIs(s.list, a.value, a.value + size);
      }
    case Avoid(start, size) => AvoidRanged(s.avoids, start, size);
  }

  /** The request took the address: at a fixed place, or where a search found it. */
  predicate Takes(q: Request, a: Option<nat>, x: int) {
    (q.AllocHere? && In(q.b, x)) || (q.Any? && a.Some? && In(Block(a.value, q.size), x))
  }

  predicate Gains(q: Request, x: int) {
    q.Add? && In(q.b, x)
  }

  lemma TakenGone(s: State, q: Request, image: Block, x: int)
    requires ValidState(s) && Takes(q, Answer(s, q), x)
    ensures !Free(After(s, q, image).list, x)
  {
    if q.AllocHere? {
      CutFree(s.list, q.b.addr, End(q.b), x);
    } else {
      CutFree(s.list, Answer(s, q).value, Answer(s, q).value + q.size, x);
    }
  }

  lemma GoneStays(s: State, q: Request, image: Block, x: int)
    requires ValidState(s) && !Free(s.list, x) && !Gains(q, x)
    ensures !Free(After(s, q, image).list, x)
  {
    match q
    case Add(b) =>
      AddedIs(s.list, b);
      CutFree(Added(s.list, b), image.addr, End(image), x);
    case AllocHere(b) => CutFree(s.list, b.addr, End(b), x);
    case Any(size, align) =>
      var a := Answer(s, q);
      if a.Some? {
        CutFree(s.list, a.value, a.value + size, x);
      }
    case Avoid(_, _) =>
  }

  lemma ReplayStep(s: State, qs: seq<Request>, image: Block, n: nat)
    requires n < |qs|
    ensures Replay(s, qs[..n + 1], image) == After(Replay(s, qs[..n], image), qs[n], image)
  {
    assert qs[..n + 1][..n] == qs[..n];
  }

  lemma {:induction false} GoneUntil(s: State, qs: seq<Request>, image: Block, k: nat, j: nat, x: int)
    requires ValidState(s) && k <= j <= |qs| && !Free(Replay(s, qs[..k], image).list, x)
    requires forall m :: k <= m < j ==> !Gains(qs[m], x)
    ensures !Free(Replay(s, qs[..j], image).list, x)
  {
    if k < j {
      GoneUntil(s, qs, image, k, j - 1, x);
      ReplayStep(s, qs, image, j - 1);
      ReplayValid(s, qs[..j - 1], image);
      GoneStays(Replay(s, qs[..j - 1], image), qs[j - 1], image, x);
    }
  }

  /** From a request that took the address until one that adds it again, it is not free. */
  lemma StaysTaken(s: State, qs: seq<Request>, image: Block, i: nat, x: int)
    requires ValidState(s) && i < |qs| && Takes(qs[i], Answers(s, qs, image)[i], x)
    requires forall m :: i < m < |qs| ==> !Gains(qs[m], x)
    ensures !Free(Replay(s, qs, image).list, x)
  {
    AnswerAt(s, qs, image, i);
    ReplayValid(s, qs[..i], image);
    TakenGone(Replay(s, qs[..i], image), qs[i], image, x);
    assert qs[..i + 1][..i] == qs[..i] && qs[..i + 1][i] == qs[i];
    GoneUntil(s, qs, image, i + 1, |qs|, x);
    assert qs[..|qs|] == qs;
  }

  /** No allocation overlaps another: what a search hands out shares an address with something
      taken earlier in the run only if a request in between adds that address again. */
  lemma AnswersApart(s: State, qs: seq<Request>, image: Block, i: nat, j: nat, x: int)
    requires ValidState(s) && i < j < |qs|
    requires Takes(qs[i], Answers(s, qs, image)[i], x)
    requires qs[j].Any? && Takes(qs[j], Answers(s, qs, image)[j], x)
    ensures exists m :: i < m < j && Gains(qs[m], x)
  {
    AnswerFree(s, qs, image, j);
    if forall m :: i < m < j ==> !Gains(qs[m], x) {
      AnswersFront(s, qs, image, j);
      assert qs[..j][i] == qs[i] && Answers(s, qs[..j], image)[i] == Answers(s, qs, image)[i];
      StaysTaken(s, qs[..j], image, i, x);
    }
  }

  // ---------------------------------------------------------------- what must be answered, and what must not

  /** A request is answered wherever a free block has a stretch with room for alignment. */
  lemma AnswerGiven(s: State, qs: seq<Request>, image: Block, i: nat, now: State)
    requires ValidState(s) && i < |qs| && qs[i].Any? && qs[i].size > 0 && qs[i].align >= 1
    requires now == Replay(s, qs[..i], image)
    requires AllOneTouches(now.list, Visible(now.avoids)) && Stretch(now.list, Visible(now.avoids), qs[i].size + qs[i].align - 1)
    ensures Answers(s, qs, image)[i].Some?
  {
    AnswerAt(s, qs, image, i);
    ReplayValid(s, qs[..i], image);
    Given(now, qs[i]);
  }

  lemma Given(now: State, q: Request)
    requires ValidState(now) && q.Any? && q.size > 0 && q.align >= 1
    requires AllOneTouches(now.list, Visible(now.avoids)) && Stretch(now.list, Visible(now.avoids), q.size + q.align - 1)
    ensures Answer(now, q).Some?
  {
    RangedVisible(now.avoids);
    StretchFound(now.list, Visible(now.avoids), q.size, q.align);
  }

  /** No avoided range ends at zero, which would end the list. */
  predicate Terminated(q: Request) {
    q.Avoid? ==> q.start + q.size > 0
  }

  lemma LastRanged(l: seq<Range>)
    requires Ranged(l) && l != []
    ensures l[|l| - 1].start <= l[|l| - 1].end
  {
    assert l == l[..|l| - 1] + [l[|l| - 1]];
    RangedAppend(l[..|l| - 1], l[|l| - 1]);
  }

  /** What is avoided after one request. */
  lemma AvoidedAfter(s: State, q: Request, image: Block, x: int)
    requires ValidState(s) && NoZero(s.avoids) && Terminated(q)
    ensures var r := After(s, q, image);
            && NoZero(r.avoids)
            && (Avoided(Visible(r.avoids), x) <==> Avoided(Visible(s.avoids), x) || AvoidedAt(q, x))
  {
    if q.Avoid? {
      if s.avoids != [] {
        LastRanged(s.avoids);
      }
      AvoidSeen(s.avoids, q.start, q.size, x);
    }
  }

  /** One of the first `n` requests avoids the address. */
  predicate Avoids(qs: seq<Request>, n: nat, x: int)
    requires n <= |qs|
  {
    exists i :: 0 <= i < n && AvoidedAt(qs[i], x)
  }

  predicate AvoidedAt(q: Request, x: int) {
    q.Avoid? && q.start <= x < q.start + q.size
  }

  ghost predicate AvoidsWell(s: State, r: State, qs: seq<Request>, n: nat, x: int)
    requires n <= |qs|
  {
    NoZero(r.avoids) && (Avoided(Visible(r.avoids), x) <==> Avoided(Visible(s.avoids), x) || Avoids(qs, n, x))
  }

  lemma AvoidsNext(s: State, r: State, qs: seq<Request>, image: Block, n: nat, x: int)
    requires n < |qs| && ValidState(r) && AvoidsWell(s, r, qs, n, x) && Terminated(qs[n])
    ensures AvoidsWell(s, After(r, qs[n], image), qs, n + 1, x)
  {
    AvoidedAfter(r, qs[n], image, x);
    assert Avoids(qs, n + 1, x) <==> Avoids(qs, n, x) || AvoidedAt(qs[n], x);
  }

  /** Exactly what the run has avoided is avoided, besides what was at the start. */
  lemma {:induction false} AvoidedBy(s: State, qs: seq<Request>, image: Block, n: nat, x: int)
    requires ValidState(s) && NoZero(s.avoids) && n <= |qs| && forall k :: 0 <= k < |qs| ==> Terminated(qs[k])
    ensures AvoidsWell(s, Replay(s, qs[..n], image), qs, n, x)
  {
    if n > 0 {
      AvoidedBy(s, qs, image, n - 1, x);
      ReplayValid(s, qs[..n - 1], image);
      ReplayStep(s, qs, image, n - 1);
      AvoidsNext(s, Replay(s, qs[..n - 1], image), qs, image, n - 1, x);
    }
  }

  /** No search of a run hands out what the run has avoided before. */
  lemma AnswersAvoid(s: State, qs: seq<Request>, image: Block, i: nat, j: nat, x: int)
    requires ValidState(s) && NoZero(s.avoids) && i < j < |qs| && forall k :: 0 <= k < |qs| ==> Terminated(qs[k])
    requires AvoidedAt(qs[i], x)
    requires qs[j].Any? && Answers(s, qs, image)[j].Some?
    ensures !Takes(qs[j], Answers(s, qs, image)[j], x)
  {
    AvoidedBy(s, qs, image, j, x);
    assert AvoidedAt(qs[i], x) && Avoids(qs, j, x);
    AnswerAt(s, qs, image, j);
    ReplayValid(s, qs[..j], image);
    NotHanded(Replay(s, qs[..j], image), qs[j], x);
  }

  lemma NotHanded(now: State, q: Request, x: int)
    requires ValidState(now) && q.Any? && Answer(now, q).Some? && Avoided(Visible(now.avoids), x)
    ensures !Takes(q, Answer(now, q), x)
  {
    RangedVisible(now.avoids);
    FoundIs(now.list, Visible(now.avoids), q.size, q.align);
  }

  // ---------------------------------------------------------------- the same, in the history

  /** A block handed out by a search: its place in the history and the avoid list then. */
  datatype Handed = Handed(at: nat, avoids: seq<Range>)

  ghost predicate HandedOk(h: Handed, log: seq<Op>) {
    && h.at < |log| && log[h.at].Take?
    && forall x :: In(log[h.at].b, x) ==> FreeBy(log[..h.at], x) && !Avoided(Visible(h.avoids), x)
  }

  /** In a history, too, a block that was handed out shares an address with something taken
      before only if that address has been added again in between. */
  lemma HandedApart(h: Handed, log: seq<Op>, i: nat, x: int)
    requires HandedOk(h, log) && i < h.at && log[i].Take? && In(log[i].b, x) && In(log[h.at].b, x)
    ensures exists j :: i < j < h.at && log[j].Gain? && In(log[j].b, x)
  {
    if forall j :: i < j < h.at && log[j].Gain? ==> !In(log[j].b, x) {
      var l := log[..h.at];
      assert l[i] == log[i] && forall j :: i < j < |l| && l[j].Gain? ==> !In(l[j].b, x);
      TakenStays(l, i, x);
    }
  }

  lemma {:induction false} LoggedAt(qs: seq<Request>, a: seq<Option<nat>>, image: Block, i: nat)
    requires |a| == |qs| && i < |qs|
    ensures var log, before, ops := Logged(qs, a, image), Logged(qs[..i], a[..i], image), Ops(qs[i], a[i], image);
            |before| + |ops| <= |log| && log[..|before| + |ops|] == before + ops
    decreases |qs|
  {
    var n := |qs| - 1;
    if i < n {
      LoggedAt(qs[..n], a[..n], image, i);
      assert qs[..n][..i] == qs[..i] && a[..n][..i] == a[..i];
    }
  }

  /** Where the history has what a search handed out. */
  lemma EntryAt(qs: seq<Request>, a: seq<Option<nat>>, image: Block, i: nat)
    requires |a| == |qs| && i < |qs| && qs[i].Any? && a[i].Some?
    ensures var log, before := Logged(qs, a, image), Logged(qs[..i], a[..i], image);
            |before| < |log| && log[|before|] == Take(Block(a[i].value, qs[i].size)) && log[..|before|] == before
  {
    var log, before, op := Logged(qs, a, image), Logged(qs[..i], a[..i], image), Take(Block(a[i].value, qs[i].size));
    LoggedAt(qs, a, image, i);
    assert log[..|before| + 1] == before + [op];
    assert log[|before|] == log[..|before| + 1][|before|] == op;
    assert log[..|before|] == log[..|before| + 1][..|before|] == before;
  }

  lemma {:induction false} AnswersFront(s: State, qs: seq<Request>, image: Block, i: nat)
    requires i <= |qs|
    ensures Answers(s, qs, image)[..i] == Answers(s, qs[..i], image)
    decreases |qs|
  {
    if i < |qs| {
      var front := qs[..|qs| - 1];
      AnswersFront(s, front, image, i);
      assert front[..i] == qs[..i];
      assert Answers(s, qs, image)[..i] == Answers(s, front, image)[..i];
    } else {
      assert qs[..i] == qs;
    }
  }

  /** Every block handed out in a run stands as such in its history. */
  lemma AnswerHanded(s: State, qs: seq<Request>, image: Block, i: nat)
    requires ValidState(s) && Holds(s, []) && i < |qs| && qs[i].Any? && Answers(s, qs, image)[i].Some?
    ensures var a := Answers(s, qs, image);
            var at := |Logged(qs[..i], a[..i], image)|;
            var log := Logged(qs, a, image);
            HandedOk(Handed(at, Replay(s, qs[..i], image).avoids), log) && log[at].b == Block(a[i].value, qs[i].size)
  {
    var a := Answers(s, qs, image);
    var before, log := Logged(qs[..i], a[..i], image), Logged(qs, a, image);
    var b := Block(a[i].value, qs[i].size);
    EntryAt(qs, a, image, i);
    AnswersFront(s, qs, image, i);
    ReplayHolds(s, qs[..i], image, []);
    assert [] + before == before;
    AnswerFree(s, qs, image, i);
  }
}
