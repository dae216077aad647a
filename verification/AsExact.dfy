/** Exactly when the pieces of `as_add_containing` are a partition.

    Nested containers are enough, but not needed: a container may stick out of the one
    that holds its start, as long as it does so into addresses that nothing has claimed. */
module AsExact {
  import opened AddressSpace

  ghost predicate Disjoint(l: seq<Range>) {
    forall x :: Count(l, x) <= 1
  }

  ghost predicate Clear(l: seq<Range>, p: Range, c: Range) {
    forall x :: In(x, p) && !In(x, c) ==> Count(l, x) == 0
  }

  ghost predicate Apart(c: Range, p: Range) {
    forall x :: In(x, p) ==> !In(x, c)
  }

  /** The piece touches no node but the one that holds its start, and does not make the
      address behind it wrap around. */
  ghost predicate Tame(l: seq<Range>, p: Range) {
    if l == [] then true
    else if In(p.start, l[0]) then (p.end == PADDR_MAX ==> l[0].end == PADDR_MAX) && Clear(l[1..], p, l[0])
    else Apart(l[0], p) && Tame(l[1..], p)
  }

  /** The rest of a node behind a piece that reaches the last address wraps to zero. */
  predicate Wraps(c: Range, p: Range, x: int) {
    p.end == PADDR_MAX && c.end != PADDR_MAX && 0 <= x <= c.end
  }

  lemma SplitCount(c: Range, p: Range, x: int)
    requires In(p.start, c) && p.start <= p.end && c.owner != NULL_OFF && p.owner != NULL_OFF
    ensures Owned(Split(c, p))
    ensures Count(Split(c, p), x) == (if In(x, c) || In(x, p) then 1 else 0) + (if Wraps(c, p, x) then 1 else 0)
    ensures !Wraps(c, p, x) && (In(x, c) || In(x, p)) ==> OwnerAt(Split(c, p), x) == if In(x, p) then p.owner else c.owner
  {
    var l := Split(c, p);
    Unroll(l[0], l[1..], x);
    assert l == [l[0]] + l[1..];
    if |l| > 1 {
      Unroll(l[1], l[2..], x);
      assert l[1..] == [l[1]] + l[2..];
      if |l| > 2 {
        Unroll(l[2], [], x);
        assert l[2..] == [l[2]] + [];
      }
    }
  }

  /** No insertion uncovers an address, and the piece itself is covered. */
  lemma {:induction false} InsertCovers(l: seq<Range>, p: Range, x: int)
    requires Owned(l) && p.start <= p.end && p.owner != NULL_OFF
    ensures Owned(Insert(l, p))
    ensures Count(Insert(l, p), x) >= Count(l, x)
    ensures In(x, p) ==> Count(Insert(l, p), x) >= 1
  {
    if l == [] {
    } else if In(p.start, l[0]) {
      SplitCount(l[0], p, x);
      Appended(Split(l[0], p), l[1..], x);
    } else {
      InsertCovers(l[1..], p, x);
      Appended([l[0]], Insert(l[1..], p), x);
    }
  }

  lemma TailDisjoint(l: seq<Range>)
    requires l != [] && Disjoint(l)
    ensures Disjoint(l[1..])
  {
    forall x
      ensures Count(l[1..], x) <= 1
    {
      assert Count(l, x) <= 1;
    }
  }

  /** A tame insertion hands the addresses of the piece to its owner and covers the union once. */
  lemma {:induction false} TameMeaning(l: seq<Range>, p: Range, x: int)
    requires Owned(l) && Disjoint(l) && Tame(l, p) && p.start <= p.end && p.owner != NULL_OFF
    ensures OwnerAt(Insert(l, p), x) == if In(x, p) then p.owner else OwnerAt(l, x)
    ensures Count(Insert(l, p), x) == if In(x, p) && Count(l, x) == 0 then 1 else Count(l, x)
  {
    if l == [] {
    } else if In(p.start, l[0]) {
      SplitCount(l[0], p, x);
      Appended(Split(l[0], p), l[1..], x);
      assert Count(l, x) <= 1;
    } else {
      TailDisjoint(l);
      TameMeaning(l[1..], p, x);
      InsertCovers(l[1..], p, x);
      Appended([l[0]], Insert(l[1..], p), x);
    }
  }

  lemma DisjointTame(l: seq<Range>, p: Range)
    requires Owned(l) && p.start <= p.end && p.owner != NULL_OFF
    requires Disjoint(Insert(l, p))
    ensures Tame(l, p)
  {
    if l == [] {
    } else if In(p.start, l[0]) {
      forall x | In(x, p) && !In(x, l[0])
        ensures Count(l[1..], x) == 0
      {
        SplitCount(l[0], p, x);
        Appended(Split(l[0], p), l[1..], x);
        assert Count(Insert(l, p), x) <= 1;
      }
      SplitCount(l[0], p, p.start);
      Appended(Split(l[0], p), l[1..], p.start);
      assert Count(Insert(l, p), p.start) <= 1;
    } else {
      forall x
        ensures Count(Insert(l[1..], p), x) <= 1 && (In(x, p) ==> !In(x, l[0]))
      {
        InsertCovers(l[1..], p, x);
        Appended([l[0]], Insert(l[1..], p), x);
        assert Count(Insert(l, p), x) <= 1;
      }
      DisjointTame(l[1..], p);
    }
  }

  /** One insertion keeps the list disjoint exactly if it is tame. */
  lemma InsertExactly(l: seq<Range>, p: Range)
    requires Owned(l) && p.start <= p.end && p.owner != NULL_OFF
    ensures Disjoint(Insert(l, p)) <==> Disjoint(l) && Tame(l, p)
  {
    if Disjoint(Insert(l, p)) {
      DisjointTame(l, p);
      forall x
        ensures Count(l, x) <= 1
      {
        InsertCovers(l, p, x);
        assert Count(Insert(l, p), x) <= 1;
      }
    }
    if Disjoint(l) && Tame(l, p) {
      forall x
        ensures Count(Insert(l, p), x) <= 1
      {
        TameMeaning(l, p, x);
        assert Count(l, x) <= 1;
      }
    }
  }

  // ---------------------------------------------------------------- the condition, on owners

  lemma {:induction false} OwnerCount(l: seq<Range>, x: int)
    requires Owned(l)
    ensures OwnerAt(l, x) != NULL_OFF <==> Count(l, x) > 0
    ensures OwnerAt(l, x) != NULL_OFF ==> exists i :: 0 <= i < |l| && l[i].owner == OwnerAt(l, x)
  {
    if l != [] && !In(x, l[0]) {
      OwnerCount(l[1..], x);
      if OwnerAt(l, x) != NULL_OFF {
        var i :| 0 <= i < |l[1..]| && l[1..][i].owner == OwnerAt(l[1..], x);
        assert l[i + 1].owner == OwnerAt(l, x);
      }
    }
  }

  lemma {:induction false} NodeCounts(l: seq<Range>, i: nat, x: int)
    requires i < |l| && In(x, l[i])
    ensures Count(l, x) >= 1
  {
    if i > 0 {
      NodeCounts(l[1..], i - 1, x);
    }
  }

  lemma {:induction false} OwnerOfNode(l: seq<Range>, i: nat, x: int)
    requires Disjoint(l) && i < |l| && In(x, l[i])
    ensures OwnerAt(l, x) == l[i].owner
  {
    if i > 0 {
      NodeCounts(l[1..], i - 1, x);
      assert Count(l, x) <= 1;
      TailDisjoint(l);
      OwnerOfNode(l[1..], i - 1, x);
    }
  }

  lemma {:induction false} CountedNode(l: seq<Range>, x: int) returns (i: nat)
    requires Count(l, x) > 0
    ensures i < |l| && In(x, l[i])
  {
    if In(x, l[0]) {
      i := 0;
    } else {
      var j := CountedNode(l[1..], x);
      i := j + 1;
    }
  }

  /** Tameness seen from the node that holds the start. */
  lemma {:induction false} TameHolder(l: seq<Range>, p: Range, i: nat)
    requires Disjoint(l) && i < |l| && In(p.start, l[i])
    ensures Tame(l, p) <==> (p.end == PADDR_MAX ==> l[i].end == PADDR_MAX) && Clear(l, p, l[i])
  {
    if i == 0 {
      assert Clear(l, p, l[0]) <==> Clear(l[1..], p, l[0]) by {
        assert forall x :: !In(x, l[0]) ==> Count(l, x) == Count(l[1..], x);
      }
    } else {
      NodeCounts(l[1..], i - 1, p.start);
      assert Count(l, p.start) <= 1;
      TailDisjoint(l);
      TameHolder(l[1..], p, i - 1);
      HolderBehind(l, p, i);
    }
  }

  lemma HolderBehind(l: seq<Range>, p: Range, i: nat)
    requires Disjoint(l) && 0 < i < |l|
    ensures Clear(l, p, l[i]) <==> Apart(l[0], p) && Clear(l[1..], p, l[i])
  {
    if Clear(l, p, l[i]) {
      forall x | In(x, p)
        ensures !In(x, l[0]) && (!In(x, l[i]) ==> Count(l[1..], x) == 0)
      {
        assert Count(l, x) <= 1;
        if In(x, l[i]) {
          NodeCounts(l[1..], i - 1, x);
        }
      }
    }
    if Apart(l[0], p) && Clear(l[1..], p, l[i]) {
      forall x | In(x, p) && !In(x, l[i])
        ensures Count(l, x) == 0
      {
        assert !In(x, l[0]) && Count(l[1..], x) == 0;
      }
    }
  }

  ghost predicate Unclaimed(l: seq<Range>, p: Range) {
    forall x :: In(x, p) ==> Count(l, x) == 0
  }

  lemma {:induction false} TameFree(l: seq<Range>, p: Range)
    requires Count(l, p.start) == 0
    ensures Tame(l, p) <==> Unclaimed(l, p)
  {
    if l != [] {
      TameFree(l[1..], p);
      if Unclaimed(l, p) {
        forall x | In(x, p)
          ensures !In(x, l[0]) && Count(l[1..], x) == 0
        {
          assert Count(l, x) == 0;
        }
      }
    }
  }

  /** The address behind a node belongs to someone else. */
  ghost predicate Maximal(l: seq<Range>) {
    forall i :: 0 <= i < |l| && l[i].start <= l[i].end ==> OwnerAt(l, l[i].end + 1) != l[i].owner
  }

  /** From its start on, the piece runs through one owner and then through nobody's addresses. */
  ghost predicate Straight(l: seq<Range>, p: Range) {
    && (forall x, y :: In(x, p) && OwnerAt(l, x) != NULL_OFF && p.start <= y <= x ==> OwnerAt(l, y) == OwnerAt(l, x))
    && (p.end == PADDR_MAX && OwnerAt(l, p.start) != NULL_OFF ==> OwnerAt(l, PADDR_MAX) == OwnerAt(l, p.start))
  }

  lemma StraightFree(l: seq<Range>, p: Range)
    requires Owned(l) && Count(l, p.start) == 0
    ensures Straight(l, p) <==> Unclaimed(l, p)
  {
    OwnerCount(l, p.start);
    forall x
      ensures OwnerAt(l, x) != NULL_OFF <==> Count(l, x) > 0
    {
      OwnerCount(l, x);
    }
  }

  lemma StraightTame(l: seq<Range>, p: Range, i: nat)
    requires Owned(l) && Disjoint(l) && Maximal(l) && p.start <= p.end && i < |l| && In(p.start, l[i]) && Straight(l, p)
    ensures (p.end == PADDR_MAX ==> l[i].end == PADDR_MAX) && Clear(l, p, l[i])
  {
    var o, next := l[i].owner, l[i].end + 1;
    OwnerOfNode(l, i, p.start);
    assert OwnerAt(l, next) != o;
    forall x | In(x, p) && !In(x, l[i])
      ensures Count(l, x) == 0
    {
      OwnerCount(l, x);
      assert p.start <= next <= x;
    }
  }

  lemma TameStraight(l: seq<Range>, p: Range, i: nat)
    requires Owned(l) && Disjoint(l) && i < |l| && In(p.start, l[i])
    requires (p.end == PADDR_MAX ==> l[i].end == PADDR_MAX) && Clear(l, p, l[i])
    ensures Straight(l, p)
  {
    forall x, y | In(x, p) && OwnerAt(l, x) != NULL_OFF && p.start <= y <= x
      ensures OwnerAt(l, y) == OwnerAt(l, x)
    {
      OwnerCount(l, x);
      assert In(x, l[i]);
      OwnerOfNode(l, i, x);
      OwnerOfNode(l, i, y);
    }
    if p.end == PADDR_MAX {
      OwnerOfNode(l, i, p.start);
      OwnerOfNode(l, i, PADDR_MAX);
    }
  }

  /** Tameness in terms of who owns which address. */
  lemma TameIsStraight(l: seq<Range>, p: Range)
    requires Owned(l) && Disjoint(l) && Maximal(l) && p.start <= p.end
    ensures Tame(l, p) <==> Straight(l, p)
  {
    if Count(l, p.start) == 0 {
      TameFree(l, p);
      StraightFree(l, p);
    } else {
      var i := CountedNode(l, p.start);
      TameHolder(l, p, i);
      if Straight(l, p) {
        StraightTame(l, p, i);
      }
      if Tame(l, p) {
        TameStraight(l, p, i);
      }
    }
  }

  // ---------------------------------------------------------------- nodes stay maximal

  predicate Part(c: Range, p: Range, d: Range) {
    && In(p.start, c) && d.owner == c.owner
    && (d.end == p.start - 1 || (d.end == c.end && p.end != c.end && Next(p.end) <= c.end))
  }

  /** Where a node of the new list comes from. */
  ghost predicate Origin(l: seq<Range>, p: Range, d: Range) {
    d == p || d in l || exists i :: 0 <= i < |l| && Part(l[i], p, d)
  }

  lemma {:induction false} NodeOrigin(l: seq<Range>, p: Range, d: Range)
    requires d in Insert(l, p) && d.start <= d.end
    ensures Origin(l, p, d)
  {
    if l == [] {
    } else if In(p.start, l[0]) {
      if d in Split(l[0], p) && d != p {
        assert Part(l[0], p, d);
      }
    } else if d != l[0] {
      NodeOrigin(l[1..], p, d);
      if d != p && d !in l {
        var i :| 0 <= i < |l[1..]| && Part(l[1..][i], p, d);
        assert Part(l[i + 1], p, d);
      }
    }
  }

  ghost predicate FreshOwner(l: seq<Range>, o: int) {
    o != NULL_OFF && forall i :: 0 <= i < |l| ==> l[i].owner != o
  }

  lemma NodeMaximal(l: seq<Range>, p: Range, d: Range)
    requires Owned(l) && Disjoint(l) && Maximal(l) && Tame(l, p) && p.start <= p.end && FreshOwner(l, p.owner)
    requires Origin(l, p, d) && d.start <= d.end
    ensures OwnerAt(Insert(l, p), d.end + 1) != d.owner
  {
    TameMeaning(l, p, d.end + 1);
    OwnerCount(l, d.end + 1);
    if d != p && d !in l {
      var i :| 0 <= i < |l| && Part(l[i], p, d);
      TameHolder(l, p, i);
    }
  }

  lemma MaximalIf(r: seq<Range>)
    requires forall d :: d in r && d.start <= d.end ==> OwnerAt(r, d.end + 1) != d.owner
    ensures Maximal(r)
  {
  }

  lemma MaximalKept(l: seq<Range>, p: Range)
    requires Owned(l) && Disjoint(l) && Maximal(l) && Tame(l, p) && p.start <= p.end && FreshOwner(l, p.owner)
    ensures Maximal(Insert(l, p))
  {
    forall d | d in Insert(l, p) && d.start <= d.end
      ensures OwnerAt(Insert(l, p), d.end + 1) != d.owner
    {
      NodeOrigin(l, p, d);
      NodeMaximal(l, p, d);
    }
    MaximalIf(Insert(l, p));
  }

  // ---------------------------------------------------------------- the table

  predicate ProperTable(es: seq<Entry>) {
    ValidTable(es) && forall i :: 0 <= i < |es| ==> es[i].start <= es[i].end
  }

  /** The first address of both. */
  predicate First(e: Entry, start: paddr, x: int) {
    x == start || x == e.start
  }

  /** The requested addresses that entry `j` holds start with addresses of one deepest
      container, and those behind them are held by no earlier entry of that name; if they
      reach the last address, so does that container. */
  ghost predicate Orderly(es: seq<Entry>, j: nat, start: paddr, end: paddr, container: string)
    requires ValidTable(es) && j < |es|
  {
    var e := es[j];
    && (forall x, y :: Shared(e, start, end, x) && Shared(e, start, end, y) && y <= x ==>
          Deepest(es, j, start, end, container, x) != NULL_OFF ==>
            Deepest(es, j, start, end, container, y) == Deepest(es, j, start, end, container, x))
    && (forall y :: Shared(e, start, end, PADDR_MAX) && Shared(e, start, end, y) && First(e, start, y) ==>
          Deepest(es, j, start, end, container, y) != NULL_OFF ==>
            Deepest(es, j, start, end, container, PADDR_MAX) == Deepest(es, j, start, end, container, y))
  }

  ghost predicate OrderlyUpTo(es: seq<Entry>, k: nat, start: paddr, end: paddr, container: string)
    requires ValidTable(es) && k <= |es|
  {
    forall j :: 0 <= j < k && Matches(es, j, start, end, container) ==> Orderly(es, j, start, end, container)
  }

  /** The pieces of the first `k` entries are a partition. */
  ghost predicate Partitioned(es: seq<Entry>, k: nat, start: paddr, end: paddr, container: string)
    requires ValidTable(es) && k <= |es|
  {
    forall x :: var d := Deepest(es, k, start, end, container, x);
      OwnerAt(Pieces(es, k, start, end, container), x) == d
      && Count(Pieces(es, k, start, end, container), x) == if d == NULL_OFF then 0 else 1
  }

  lemma {:induction false} PiecesBelow(es: seq<Entry>, k: nat, start: paddr, end: paddr, container: string)
    requires ValidTable(es) && k <= |es|
    ensures OwnersBelow(Pieces(es, k, start, end, container), k) && Owned(Pieces(es, k, start, end, container))
  {
    if k > 0 {
      PiecesBelow(es, k - 1, start, end, container);
      if Matches(es, k - 1, start, end, container) {
        InsertOwners(Pieces(es, k - 1, start, end, container), Clip(es[k - 1], start, end, k - 1), k);
      }
    }
  }

  lemma StraightIsOrderly(es: seq<Entry>, j: nat, start: paddr, end: paddr, container: string)
    requires ValidTable(es) && j < |es|
    requires forall x :: OwnerAt(Pieces(es, j, start, end, container), x) == Deepest(es, j, start, end, container, x)
    ensures Straight(Pieces(es, j, start, end, container), Clip(es[j], start, end, j)) <==> Orderly(es, j, start, end, container)
  {
  }

  /** What holds of a disjoint list of pieces. */
  ghost predicate Good(es: seq<Entry>, k: nat, start: paddr, end: paddr, container: string)
    requires ValidTable(es) && k <= |es|
  {
    var l := Pieces(es, k, start, end, container);
    Disjoint(l) && Maximal(l) && forall x :: OwnerAt(l, x) == Deepest(es, k, start, end, container, x)
  }

  lemma MatchUnfolds(es: seq<Entry>, k: nat, start: paddr, end: paddr, container: string)
    requires ProperTable(es) && 0 < k <= |es| && start <= end && Matches(es, k - 1, start, end, container)
    ensures var l, p := Pieces(es, k - 1, start, end, container), Clip(es[k - 1], start, end, k - 1);
            && Pieces(es, k, start, end, container) == Insert(l, p) && p.start <= p.end && p.owner == k - 1
            && Owned(l) && FreshOwner(l, p.owner)
  {
    PiecesBelow(es, k - 1, start, end, container);
  }

  lemma GoodStep(es: seq<Entry>, k: nat, start: paddr, end: paddr, container: string)
    requires ProperTable(es) && 0 < k <= |es| && start <= end && Matches(es, k - 1, start, end, container)
    requires Good(es, k - 1, start, end, container)
    ensures Disjoint(Pieces(es, k, start, end, container)) <==> Orderly(es, k - 1, start, end, container)
    ensures Orderly(es, k - 1, start, end, container) ==> Good(es, k, start, end, container)
  {
    var l, p := Pieces(es, k - 1, start, end, container), Clip(es[k - 1], start, end, k - 1);
    MatchUnfolds(es, k, start, end, container);
    InsertExactly(l, p);
    TameIsStraight(l, p);
    StraightIsOrderly(es, k - 1, start, end, container);
    if Orderly(es, k - 1, start, end, container) {
      MaximalKept(l, p);
      forall x
        ensures OwnerAt(Insert(l, p), x) == Deepest(es, k, start, end, container, x)
      {
        TameMeaning(l, p, x);
      }
    }
  }

  /** Disjoint exactly if all was orderly, and then as good as it can be. */
  ghost predicate ExactUpTo(es: seq<Entry>, k: nat, start: paddr, end: paddr, container: string)
    requires ValidTable(es) && k <= |es|
  {
    && (Disjoint(Pieces(es, k, start, end, container)) <==> OrderlyUpTo(es, k, start, end, container))
    && (Disjoint(Pieces(es, k, start, end, container)) ==> Good(es, k, start, end, container))
  }

  lemma ExactStart(es: seq<Entry>, start: paddr, end: paddr, container: string)
    requires ValidTable(es)
    ensures ExactUpTo(es, 0, start, end, container)
  {
    assert Pieces(es, 0, start, end, container) == [];
  }

  lemma ExactSkip(es: seq<Entry>, k: nat, start: paddr, end: paddr, container: string)
    requires ValidTable(es) && 0 < k <= |es|
    requires !Matches(es, k - 1, start, end, container) && ExactUpTo(es, k - 1, start, end, container)
    ensures ExactUpTo(es, k, start, end, container)
  {
    assert Pieces(es, k, start, end, container) == Pieces(es, k - 1, start, end, container);
    assert forall x :: Deepest(es, k, start, end, container, x) == Deepest(es, k - 1, start, end, container, x);
  }

  lemma OrderlyNext(es: seq<Entry>, k: nat, start: paddr, end: paddr, container: string)
    requires ValidTable(es) && 0 < k <= |es| && Matches(es, k - 1, start, end, container)
    ensures OrderlyUpTo(es, k, start, end, container)
       <==> OrderlyUpTo(es, k - 1, start, end, container) && Orderly(es, k - 1, start, end, container)
  {
  }

  /** What is covered twice stays covered twice. */
  lemma OverlapStays(es: seq<Entry>, k: nat, start: paddr, end: paddr, container: string)
    requires ProperTable(es) && 0 < k <= |es| && start <= end && Matches(es, k - 1, start, end, container)
    requires !Disjoint(Pieces(es, k - 1, start, end, container))
    ensures !Disjoint(Pieces(es, k, start, end, container))
  {
    MatchUnfolds(es, k, start, end, container);
    InsertExactly(Pieces(es, k - 1, start, end, container), Clip(es[k - 1], start, end, k - 1));
  }

  lemma ExactMatch(es: seq<Entry>, k: nat, start: paddr, end: paddr, container: string)
    requires ProperTable(es) && 0 < k <= |es| && start <= end
    requires Matches(es, k - 1, start, end, container) && ExactUpTo(es, k - 1, start, end, container)
    ensures ExactUpTo(es, k, start, end, container)
  {
    OrderlyNext(es, k, start, end, container);
    if Disjoint(Pieces(es, k - 1, start, end, container)) {
      GoodStep(es, k, start, end, container);
    } else {
      OverlapStays(es, k, start, end, container);
    }
  }

  lemma {:induction false} GoodExactly(es: seq<Entry>, k: nat, start: paddr, end: paddr, container: string)
    requires ProperTable(es) && k <= |es| && start <= end
    ensures ExactUpTo(es, k, start, end, container)
  {
    if k == 0 {
      ExactStart(es, start, end, container);
    } else {
      GoodExactly(es, k - 1, start, end, container);
      if Matches(es, k - 1, start, end, container) {
        ExactMatch(es, k, start, end, container);
      } else {
        ExactSkip(es, k, start, end, container);
      }
    }
  }

  /** The pieces of a request are a partition owned by the deepest containers, if and
      only if every matching container is orderly. */
  lemma PartitionExactly(es: seq<Entry>, start: paddr, end: paddr, container: string)
    requires ProperTable(es) && start <= end
    ensures Partitioned(es, |es|, start, end, container) <==> OrderlyUpTo(es, |es|, start, end, container)
  {
    var l := Pieces(es, |es|, start, end, container);
    GoodExactly(es, |es|, start, end, container);
    PiecesBelow(es, |es|, start, end, container);
    if Disjoint(l) {
      forall x
        ensures OwnerAt(l, x) == Deepest(es, |es|, start, end, container, x)
        ensures Count(l, x) == if Deepest(es, |es|, start, end, container, x) == NULL_OFF then 0 else 1
      {
        OwnerCount(l, x);
        assert Count(l, x) <= 1;
      }
    }
    if Partitioned(es, |es|, start, end, container) {
      forall x
        ensures Count(l, x) <= 1
      {
        assert OwnerAt(l, x) == Deepest(es, |es|, start, end, container, x);
      }
    }
  }

  /** Nesting parent first is enough. */
  lemma NestedOrderly(es: seq<Entry>, start: paddr, end: paddr, container: string)
    requires ProperTable(es) && start <= end && Nested(es, start, end, container)
    ensures OrderlyUpTo(es, |es|, start, end, container)
  {
    forall x
      ensures OwnerAt(Pieces(es, |es|, start, end, container), x) == Deepest(es, |es|, start, end, container, x)
      ensures Count(Pieces(es, |es|, start, end, container), x) == if Deepest(es, |es|, start, end, container, x) == NULL_OFF then 0 else 1
    {
      Partition(es, |es|, start, end, container, x);
    }
    PartitionExactly(es, start, end, container);
  }
}
