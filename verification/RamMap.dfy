/** The list of free RAM of the startup library, on values: blocks in address order that
    never touch, blocks added and coalesced, ranges cut out, ranges avoided. */
module RamMap {
  import opened Options
  import Arith

  datatype Block = Block(addr: nat, size: nat)

  function End(b: Block): nat { b.addr + b.size }

  predicate In(b: Block, x: int) { b.addr <= x < End(b) }

  /** The address is free. */
  predicate Free(l: seq<Block>, x: int) {
    l != [] && (In(l[0], x) || Free(l[1..], x))
  }

  /** Non-empty blocks in order of their addresses. */
  predicate Ascending(l: seq<Block>) {
    l == [] || (l[0].size > 0 && (|l| > 1 ==> l[0].addr <= l[1].addr) && Ascending(l[1..]))
  }

  /** Non-empty blocks in order, with a gap behind each. */
  predicate Separated(l: seq<Block>) {
    l == [] || (l[0].size > 0 && (|l| > 1 ==> End(l[0]) < l[1].addr) && Separated(l[1..]))
  }

  lemma {:induction false} FreeAppend(a: seq<Block>, b: seq<Block>, x: int)
    ensures Free(a + b, x) <==> Free(a, x) || Free(b, x)
  {
    if a == [] {
      assert a + b == b;
    } else {
      assert (a + b)[0] == a[0] && (a + b)[1..] == a[1..] + b;
      FreeAppend(a[1..], b, x);
    }
  }

  // ---------------------------------------------------------------- adding a block

  /** The insertion by address. */
  function Put(l: seq<Block>, b: Block): (r: seq<Block>)
    ensures |r| == |l| + 1
  {
    if l == [] || l[0].addr > b.addr then [b] + l else [l[0]] + Put(l[1..], b)
  }

  function Max(a: nat, b: nat): nat { if a < b then b else a }

  /** The coalescing pass: a block that starts at or before the end of the one before is
      merged into it. */
  function Joined(l: seq<Block>): (r: seq<Block>)
    decreases |l|
  {
    if |l| < 2 then l
    else if l[1].addr <= End(l[0]) then Joined([Merged(l[0], l[1])] + l[2..])
    else [l[0]] + Joined(l[1..])
  }

  function Merged(a: Block, b: Block): (r: Block) {
    Block(a.addr, if b.addr <= End(a) && a.addr <= b.addr then Max(End(a), End(b)) - a.addr else a.size)
  }

  /** `add_mem`. */
  function Added(l: seq<Block>, b: Block): (r: seq<Block>) {
    if b.size == 0 then l else Joined(Put(l, b))
  }

  lemma {:induction false} PutAscending(l: seq<Block>, b: Block)
    requires Ascending(l) && b.size > 0
    ensures Ascending(Put(l, b))
    ensures Put(l, b)[0].addr == b.addr || (l != [] && Put(l, b)[0] == l[0])
  {
    if l == [] {
    } else if l[0].addr > b.addr {
      assert ([b] + l)[1..] == l;
    } else {
      PutAscending(l[1..], b);
      assert ([l[0]] + Put(l[1..], b))[1..] == Put(l[1..], b);
    }
  }

  lemma {:induction false} PutFree(l: seq<Block>, b: Block, x: int)
    ensures Free(Put(l, b), x) <==> Free(l, x) || In(b, x)
  {
    if l == [] || l[0].addr > b.addr {
      assert ([b] + l)[1..] == l;
    } else {
      PutFree(l[1..], b, x);
      assert ([l[0]] + Put(l[1..], b))[1..] == Put(l[1..], b);
    }
  }

  /** Coalescing separates the blocks and keeps the free addresses. */
  lemma {:induction false} JoinedSeparated(l: seq<Block>)
    requires Ascending(l)
    ensures Separated(Joined(l)) && (l != [] ==> Joined(l) != [] && Joined(l)[0].addr == l[0].addr)
    decreases |l|
  {
    if |l| >= 2 {
      if l[1].addr <= End(l[0]) {
        JoinedSeparated(MergedHead(l));
      } else {
        JoinedSeparated(l[1..]);
        assert ([l[0]] + Joined(l[1..]))[1..] == Joined(l[1..]);
      }
    }
  }

  function MergedHead(l: seq<Block>): (r: seq<Block>)
    requires |l| >= 2 && Ascending(l) && l[1].addr <= End(l[0])
    ensures r == [Merged(l[0], l[1])] + l[2..] && Ascending(r) && |r| == |l| - 1
  {
    var r := [Merged(l[0], l[1])] + l[2..];
    assert r[1..] == l[2..] && l[1..][1..] == l[2..] && l[1..][0] == l[1];
    assert |l| > 2 ==> l[1..][1] == l[2];
    assert Ascending(l[1..]) && Ascending(l[2..]);
    r
  }

  lemma {:induction false} JoinedFree(l: seq<Block>, x: int)
    requires Ascending(l)
    ensures Free(Joined(l), x) <==> Free(l, x)
    decreases |l|
  {
    if |l| >= 2 {
      if l[1].addr <= End(l[0]) {
        JoinedFree(MergedHead(l), x);
        assert MergedHead(l)[1..] == l[2..] && l[1..][1..] == l[2..];
        assert In(Merged(l[0], l[1]), x) <==> In(l[0], x) || In(l[1], x);
      } else {
        JoinedFree(l[1..], x);
        assert ([l[0]] + Joined(l[1..]))[1..] == Joined(l[1..]);
      }
    }
  }

  lemma {:induction false} SeparatedAscending(l: seq<Block>)
    requires Separated(l)
    ensures Ascending(l)
  {
    if l != [] {
      SeparatedAscending(l[1..]);
    }
  }

  /** Adding a block keeps the list separated and frees exactly its addresses. */
  lemma AddedIs(l: seq<Block>, b: Block)
    requires Separated(l)
    ensures Separated(Added(l, b))
    ensures forall x :: Free(Added(l, b), x) <==> Free(l, x) || In(b, x)
  {
    if b.size > 0 {
      SeparatedAscending(l);
      PutAscending(l, b);
      JoinedSeparated(Put(l, b));
      forall x
        ensures Free(Added(l, b), x) <==> Free(l, x) || In(b, x)
      {
        PutFree(l, b, x);
        JoinedFree(Put(l, b), x);
      }
    }
  }

  // ---------------------------------------------------------------- cutting a range out

  predicate Overlaps(b: Block, a: nat, e: nat) {
    a < e && a < End(b) && b.addr < e
  }

  /** What a cut leaves of a block. */
  function CutOne(b: Block, a: nat, e: nat): (r: seq<Block>) {
    if !Overlaps(b, a, e) then [b]
    else (if b.addr < a then [Block(b.addr, a - b.addr)] else []) + (if e < End(b) then [Block(e, End(b) - e)] else [])
  }

  /** `alloc_ram`: the range from `a` to `e` is taken out. */
  function Cut(l: seq<Block>, a: nat, e: nat): (r: seq<Block>) {
    if l == [] then [] else CutOne(l[0], a, e) + Cut(l[1..], a, e)
  }

  lemma CutOneIs(b: Block, a: nat, e: nat, x: int)
    ensures Free(CutOne(b, a, e), x) <==> In(b, x) && !(a <= x < e)
  {
    var low, high := Block(b.addr, if b.addr < a then a - b.addr else 0), Block(e, if e < End(b) then End(b) - e else 0);
    if Overlaps(b, a, e) {
      FreeAppend(if b.addr < a then [low] else [], if e < End(b) then [high] else [], x);
    }
  }

  lemma {:induction false} CutFree(l: seq<Block>, a: nat, e: nat, x: int)
    ensures Free(Cut(l, a, e), x) <==> Free(l, x) && !(a <= x < e)
  {
    if l != [] {
      CutOneIs(l[0], a, e, x);
      CutFree(l[1..], a, e, x);
      FreeAppend(CutOne(l[0], a, e), Cut(l[1..], a, e), x);
    }
  }

  /** Everything in the list lies at or behind `lo`, and behind it if the list is not empty. */
  predicate From(l: seq<Block>, lo: nat) {
    l == [] || lo <= l[0].addr
  }

  lemma {:induction false} SeparatedAppend(a: seq<Block>, b: seq<Block>, hi: nat)
    requires Separated(a) && Separated(b) && (a != [] ==> End(a[|a| - 1]) <= hi) && From(b, hi + 1)
    ensures Separated(a + b)
  {
    if a == [] {
      assert a + b == b;
    } else {
      assert (a + b)[0] == a[0] && (a + b)[1..] == a[1..] + b;
      SeparatedAppend(a[1..], b, hi);
    }
  }

  lemma CutOneSeparated(b: Block, a: nat, e: nat)
    requires b.size > 0
    ensures var r := CutOne(b, a, e);
            Separated(r) && From(r, b.addr) && (r != [] ==> End(r[|r| - 1]) <= End(b))
  {
    var r := CutOne(b, a, e);
    if |r| == 2 {
      assert r[1..] == [r[1]] && r[1..][1..] == [];
    } else if |r| == 1 {
      assert r[1..] == [];
    }
  }

  lemma {:induction false} CutSeparated(l: seq<Block>, a: nat, e: nat, lo: nat)
    requires Separated(l) && From(l, lo)
    ensures Separated(Cut(l, a, e)) && From(Cut(l, a, e), lo)
  {
    if l != [] {
      CutOneSeparated(l[0], a, e);
      CutSeparated(l[1..], a, e, End(l[0]) + 1);
      SeparatedAppend(CutOne(l[0], a, e), Cut(l[1..], a, e), End(l[0]));
    }
  }

  /** Cutting keeps the list separated and takes exactly the range. */
  lemma CutIs(l: seq<Block>, a: nat, e: nat)
    requires Separated(l)
    ensures Separated(Cut(l, a, e))
    ensures forall x :: Free(Cut(l, a, e), x) <==> Free(l, x) && !(a <= x < e)
  {
    CutSeparated(l, a, e, 0);
    forall x
      ensures Free(Cut(l, a, e), x) <==> Free(l, x) && !(a <= x < e)
    {
      CutFree(l, a, e, x);
    }
  }

  lemma {:induction false} CutAppend(p: seq<Block>, q: seq<Block>, a: nat, e: nat)
    ensures Cut(p + q, a, e) == Cut(p, a, e) + Cut(q, a, e)
  {
    if p == [] {
      assert p + q == q;
    } else {
      assert (p + q)[0] == p[0] && (p + q)[1..] == p[1..] + q;
      CutAppend(p[1..], q, a, e);
    }
  }

  lemma {:induction false} JoinedSame(l: seq<Block>)
    requires Separated(l)
    ensures Joined(l) == l
    decreases |l|
  {
    if |l| >= 2 {
      JoinedSame(l[1..]);
      assert l == [l[0]] + l[1..];
    }
  }

  // ---------------------------------------------------------------- the history

  /** What the routines did: added a range, or took one out. */
  datatype Op = Gain(b: Block) | Take(b: Block)

  /** The last operation that touched the address added it. */
  predicate FreeBy(log: seq<Op>, x: int) {
    if log == [] then false
    else
      var op := log[|log| - 1];
      if In(op.b, x) then op.Gain? else FreeBy(log[..|log| - 1], x)
  }

  lemma FreeByNext(log: seq<Op>, op: Op, x: int)
    ensures FreeBy(log + [op], x) <==> if In(op.b, x) then op.Gain? else FreeBy(log, x)
  {
    assert (log + [op])[..|log|] == log;
  }

  /** An address that was taken stays taken until it is added again. */
  lemma {:induction false} TakenStays(log: seq<Op>, i: nat, x: int)
    requires i < |log| && log[i].Take? && In(log[i].b, x)
    requires forall j :: i < j < |log| && log[j].Gain? ==> !In(log[j].b, x)
    ensures !FreeBy(log, x)
  {
    var n := |log| - 1;
    if i < n && !In(log[n].b, x) {
      assert log[..n][i] == log[i];
      TakenStays(log[..n], i, x);
    }
  }

  // ---------------------------------------------------------------- avoided ranges

  datatype Range = Range(start: nat, end: nat)

  predicate Within(r: Range, x: int) { r.start <= x < r.end }

  /** The entries in front of the first end of zero, which terminates the list. */
  function Visible(l: seq<Range>): (r: seq<Range>) {
    if l == [] || l[0].end == 0 then [] else [l[0]] + Visible(l[1..])
  }

  predicate Avoided(l: seq<Range>, x: int) {
    l != [] && (Within(l[0], x) || Avoided(l[1..], x))
  }

  predicate NoZero(l: seq<Range>) {
    l == [] || (l[0].end != 0 && NoZero(l[1..]))
  }

  /** `avoid_ram`: a range that continues the last entry extends it. */
  function AfterAvoid(l: seq<Range>, start: nat, size: nat): (r: seq<Range>) {
    var n := |l| - 1;
    if l != [] && l[n].end == start then l[..n] + [Range(l[n].start, start + size)] else l + [Range(start, start + size)]
  }

  /** A list without an end of zero is seen whole, and so is what stands behind it up to
      the next end of zero. */
  lemma {:induction false} VisibleAppend(a: seq<Range>, b: seq<Range>)
    requires NoZero(a)
    ensures Visible(a + b) == a + Visible(b) && (NoZero(a + b) <==> NoZero(b))
  {
    if a == [] {
      assert a + b == b;
    } else {
      assert (a + b)[0] == a[0] && (a + b)[1..] == a[1..] + b;
      VisibleAppend(a[1..], b);
    }
  }

  lemma {:induction false} AvoidedAppend(a: seq<Range>, b: seq<Range>, x: int)
    ensures Avoided(a + b, x) <==> Avoided(a, x) || Avoided(b, x)
  {
    if a == [] {
      assert a + b == b;
    } else {
      assert (a + b)[0] == a[0] && (a + b)[1..] == a[1..] + b;
      AvoidedAppend(a[1..], b, x);
    }
  }

  lemma SeenWhole(l: seq<Range>)
    requires NoZero(l)
    ensures Visible(l) == l
  {
    VisibleAppend(l, []);
    assert l + [] == l;
  }

  lemma {:induction false} FrontNoZero(a: seq<Range>, r: Range)
    requires NoZero(a + [r])
    ensures NoZero(a) && r.end != 0
  {
    if a != [] {
      assert (a + [r])[0] == a[0] && (a + [r])[1..] == a[1..] + [r];
      FrontNoZero(a[1..], r);
    }
  }

  lemma OneMore(a: seq<Range>, r: Range, x: int)
    requires NoZero(a) && r.end != 0
    ensures NoZero(a + [r]) && Visible(a + [r]) == a + [r]
    ensures Avoided(a + [r], x) <==> Avoided(a, x) || Within(r, x)
  {
    assert [r][1..] == [];
    VisibleAppend(a, [r]);
    AvoidedAppend(a, [r], x);
  }

  /** As long as no entry ends at zero, everything ever avoided is seen by the search. */
  lemma AvoidSeen(l: seq<Range>, start: nat, size: nat, x: int)
    requires NoZero(l) && start + size > 0 && (l != [] ==> l[|l| - 1].start <= l[|l| - 1].end)
    ensures NoZero(AfterAvoid(l, start, size))
    ensures Avoided(Visible(AfterAvoid(l, start, size)), x) <==> Avoided(Visible(l), x) || start <= x < start + size
  {
    SeenWhole(l);
    if l != [] && l[|l| - 1].end == start {
      var a, r := l[..|l| - 1], l[|l| - 1];
      assert l == a + [r];
      FrontNoZero(a, r);
      OneMore(a, r, x);
      OneMore(a, Range(r.start, start + size), x);
    } else {
      OneMore(l, Range(start, start + size), x);
    }
  }

  /** Avoiding nothing at address zero ends the list: what is avoided next is not seen. */
  lemma ZeroHides(l: seq<Range>, start: nat, size: nat)
    requires NoZero(l) && start > 0
    ensures Visible(AfterAvoid(AfterAvoid(l, 0, 0), start, size)) == l
  {
    if l != [] {
      assert l == l[..|l| - 1] + [l[|l| - 1]];
      FrontNoZero(l[..|l| - 1], l[|l| - 1]);
    }
    var z := AfterAvoid(l, 0, 0);
    assert z == l + [Range(0, 0)];
    var r := AfterAvoid(z, start, size);
    assert r == l + [Range(0, 0), Range(start, start + size)];
    VisibleAppend(l, [Range(0, 0), Range(start, start + size)]);
  }

  /** Everything is seen exactly if no entry ends at zero. */
  lemma {:induction false} SeenExactly(l: seq<Range>)
    ensures Visible(l) == l <==> NoZero(l)
  {
    if l != [] && l[0].end != 0 {
      SeenExactly(l[1..]);
      assert Visible(l)[1..] == Visible(l[1..]);
    }
  }

  // ---------------------------------------------------------------- searching

  /** `fix_size`: what is left of a candidate beside an avoided range, the larger part if
      there are two. */
  function Fixed(c: Range, a: Range): (r: Option<Range>) {
    if c.start >= a.end || c.end <= a.start then Some(c)
    else if c.start >= a.start then (if c.end <= a.end then None else Some(Range(a.end, c.end)))
    else if c.end < a.end then Some(Range(c.start, a.start))
    else if a.start - c.start > c.end - a.end then Some(Range(c.start, a.start))
    else Some(Range(a.end, c.end))
  }

  lemma FixedIs(c: Range, a: Range)
    requires a.start <= a.end && Fixed(c, a).Some?
    ensures var r := Fixed(c, a).value;
            && c.start <= r.start && r.end <= c.end
            && forall x :: Within(r, x) ==> !Within(a, x)
  {
  }

  predicate Ranged(l: seq<Range>) {
    l == [] || (l[0].start <= l[0].end && Ranged(l[1..]))
  }

  function FixedAll(c: Range, l: seq<Range>): (r: Option<Range>)
    decreases |l|
  {
    if l == [] then Some(c)
    else
      var f := Fixed(c, l[0]);
      if f == None then None else FixedAll(f.value, l[1..])
  }

  /** What the search leaves of a block lies inside it and beside everything avoided. */
  lemma {:induction false} FixedAllIs(c: Range, l: seq<Range>)
    requires Ranged(l) && FixedAll(c, l).Some?
    ensures var r := FixedAll(c, l).value;
            && c.start <= r.start && r.end <= c.end
            && forall x :: Within(r, x) ==> !Avoided(l, x)
    decreases |l|
  {
    if l != [] {
      FixedIs(c, l[0]);
      FixedAllIs(Fixed(c, l[0]).value, l[1..]);
    }
  }

  function RoundUp(x: nat, align: nat): (r: nat)
    requires align >= 1
  {
    (x + align - 1) / align * align
  }

  /** Where a request fits into a block. */
  function FitIn(b: Block, avoids: seq<Range>, size: nat, align: nat): (r: Option<nat>)
    requires align >= 1
  {
    var c := FixedAll(Range(b.addr, End(b)), avoids);
    if c == None then None
    else
      var addr := RoundUp(c.value.start, align);
      if addr < c.value.end && size <= c.value.end - addr then Some(addr) else None
  }

  /** `find_ram`: the first block into which the request fits. */
  function Find(l: seq<Block>, avoids: seq<Range>, size: nat, align: nat): (r: Option<nat>)
    requires align >= 1
  {
    if l == [] then None
    else
      var f := FitIn(l[0], avoids, size, align);
      if f.Some? then f else Find(l[1..], avoids, size, align)
  }

  lemma RoundedUp(x: nat, align: nat)
    requires align >= 1
    ensures RoundUp(x, align) >= x && RoundUp(x, align) % align == 0
  {
    var q := (x + align - 1) / align;
    assert x + align - 1 == align * q + (x + align - 1) % align;
    assert q * align == align * q;
    assert (q * align) % align == 0 by {
      MultipleRemainder(q, align);
    }
  }

  lemma MultipleRemainder(q: nat, m: nat)
    requires m >= 1
    ensures (q * m) % m == 0
  {
    assert q * m == m * q + 0;
    Arith.QuotientIs(q * m, m, q, 0);
  }

  /** What is found is free, beside everything avoided, and aligned. */
  lemma {:induction false} FoundIs(l: seq<Block>, avoids: seq<Range>, size: nat, align: nat)
    requires align >= 1 && Ranged(avoids) && Find(l, avoids, size, align).Some?
    ensures var a := Find(l, avoids, size, align).value;
            && a % align == 0
            && forall x :: a <= x < a + size ==> Free(l, x) && !Avoided(avoids, x)
  {
    var f := FitIn(l[0], avoids, size, align);
    if f.Some? {
      var c := FixedAll(Range(l[0].addr, End(l[0])), avoids);
      FixedAllIs(Range(l[0].addr, End(l[0])), avoids);
      RoundedUp(c.value.start, align);
      forall x | f.value <= x < f.value + size
        ensures Free(l, x) && !Avoided(avoids, x)
      {
        assert Within(c.value, x) && In(l[0], x);
      }
    } else {
      FoundIs(l[1..], avoids, size, align);
    }
  }

  /** The search can miss: only the larger part beside an avoided range is kept, and a later
      range may cover it. */
  lemma SearchMisses()
    ensures var l, avoids := [Block(0, 100)], [Range(40, 50), Range(50, 100)];
            Find(l, avoids, 16, 1) == None && forall x :: 0 <= x < 16 ==> Free(l, x) && !Avoided(avoids, x)
  {
    var avoids := [Range(40, 50), Range(50, 100)];
    assert avoids[1..] == [Range(50, 100)] && avoids[1..][1..] == [];
    assert Fixed(Range(0, 100), avoids[0]) == Some(Range(50, 100));
    assert Fixed(Range(50, 100), avoids[1..][0]) == None;
    assert [Block(0, 100)][1..] == [];
    forall x | 0 <= x < 16
      ensures Free([Block(0, 100)], x) && !Avoided(avoids, x)
    {
      assert !Avoided(avoids[1..], x);
    }
  }

  // ---------------------------------------------------------------- when the search misses nothing

  /** The avoided range does not lie strictly inside the candidate. */
  predicate Edge(c: Range, a: Range) {
    !(c.start < a.start && a.end < c.end)
  }

  predicate Edges(c: Range, avoids: seq<Range>) {
    avoids == [] || (Edge(c, avoids[0]) && Edges(c, avoids[1..]))
  }

  lemma {:induction false} EdgesShrink(c: Range, r: Range, avoids: seq<Range>)
    requires Edges(c, avoids) && c.start <= r.start && r.end <= c.end
    ensures Edges(r, avoids)
  {
    if avoids != [] {
      EdgesShrink(c, r, avoids[1..]);
    }
  }

  /** At an edge exactly the avoided addresses are given up. */
  lemma FixedExact(c: Range, a: Range)
    requires c.start < c.end && a.start <= a.end && Edge(c, a)
    ensures Fixed(c, a) == None ==> forall x :: Within(c, x) ==> Within(a, x)
    ensures Fixed(c, a).Some? ==>
      var r := Fixed(c, a).value;
      && r.start < r.end && c.start <= r.start && r.end <= c.end
      && forall x :: Within(r, x) <==> Within(c, x) && !Within(a, x)
  {
  }

  lemma {:induction false} FixedAllExact(c: Range, avoids: seq<Range>)
    requires c.start < c.end && Ranged(avoids) && Edges(c, avoids)
    ensures FixedAll(c, avoids) == None ==> forall x :: Within(c, x) ==> Avoided(avoids, x)
    ensures FixedAll(c, avoids).Some? ==>
      var r := FixedAll(c, avoids).value;
      r.start < r.end && forall x :: Within(r, x) <==> Within(c, x) && !Avoided(avoids, x)
    decreases |avoids|
  {
    if avoids != [] {
      FixedExact(c, avoids[0]);
      var f := Fixed(c, avoids[0]);
      if f.Some? {
        EdgesShrink(c, f.value, avoids[1..]);
        FixedAllExact(f.value, avoids[1..]);
      }
    }
  }

  /** The request would fit at `t`. */
  ghost predicate RoomAt(b: Block, avoids: seq<Range>, size: nat, align: nat, t: nat)
    requires align >= 1
  {
    t % align == 0 && forall x :: t <= x < t + size ==> In(b, x) && !Avoided(avoids, x)
  }

  lemma RoundedLeast(x: nat, align: nat, t: nat)
    requires align >= 1 && t >= x && t % align == 0
    ensures RoundUp(x, align) <= t
  {
    var k := t / align;
    assert t == align * k;
    assert x + align - 1 < align * (k + 1) by {
      assert align * (k + 1) == align * k + align;
    }
    Arith.QuotientBelow(x + align - 1, align, k + 1);
    Arith.ProductGrows(align, (x + align - 1) / align, k);
  }

  lemma FitSound(b: Block, avoids: seq<Range>, size: nat, align: nat)
    requires align >= 1 && Ranged(avoids) && FitIn(b, avoids, size, align).Some?
    ensures RoomAt(b, avoids, size, align, FitIn(b, avoids, size, align).value)
  {
    var c := Range(b.addr, End(b));
    FixedAllIs(c, avoids);
    var r := FixedAll(c, avoids).value;
    RoundedUp(r.start, align);
    var t := FitIn(b, avoids, size, align).value;
    forall x | t <= x < t + size
      ensures In(b, x) && !Avoided(avoids, x)
    {
      assert Within(r, x);
    }
  }

  lemma FitComplete(b: Block, avoids: seq<Range>, size: nat, align: nat, t: nat)
    requires align >= 1 && size > 0 && b.size > 0 && Ranged(avoids) && Edges(Range(b.addr, End(b)), avoids)
    requires RoomAt(b, avoids, size, align, t)
    ensures FitIn(b, avoids, size, align).Some?
  {
    var c, last := Range(b.addr, End(b)), t + size - 1;
    FixedAllExact(c, avoids);
    assert In(b, t) && In(b, last) && !Avoided(avoids, t) && !Avoided(avoids, last);
    assert Within(c, t) && Within(c, last);
    var r := FixedAll(c, avoids).value;
    assert Within(r, t) && Within(r, last);
    RoundedLeast(r.start, align, t);
  }

  /** If no avoided range lies strictly inside the block, room in it is found. */
  lemma FitExactly(b: Block, avoids: seq<Range>, size: nat, align: nat)
    requires align >= 1 && size > 0 && b.size > 0 && Ranged(avoids) && Edges(Range(b.addr, End(b)), avoids)
    ensures FitIn(b, avoids, size, align).Some? <==> exists t: nat :: RoomAt(b, avoids, size, align, t)
  {
    if FitIn(b, avoids, size, align).Some? {
      FitSound(b, avoids, size, align);
    }
    if t: nat :| RoomAt(b, avoids, size, align, t) {
      FitComplete(b, avoids, size, align, t);
    }
  }

  ghost predicate RoomIn(l: seq<Block>, avoids: seq<Range>, size: nat, align: nat)
    requires align >= 1
  {
    l != [] && ((exists t: nat :: RoomAt(l[0], avoids, size, align, t)) || RoomIn(l[1..], avoids, size, align))
  }

  predicate AllEdges(l: seq<Block>, avoids: seq<Range>) {
    l == [] || (Edges(Range(l[0].addr, End(l[0])), avoids) && AllEdges(l[1..], avoids))
  }

  /** The search finds room exactly if there is any, as long as no avoided range lies strictly
      inside a free block. */
  lemma {:induction false} FindExactly(l: seq<Block>, avoids: seq<Range>, size: nat, align: nat)
    requires align >= 1 && size > 0 && Separated(l) && Ranged(avoids) && AllEdges(l, avoids)
    ensures Find(l, avoids, size, align).Some? <==> RoomIn(l, avoids, size, align)
  {
    if l != [] {
      FitExactly(l[0], avoids, size, align);
      FindExactly(l[1..], avoids, size, align);
    }
  }

  // ---------------------------------------------------------------- one avoided range in a block

  /** The whole of one lies in front of the other or behind it. */
  predicate Beside(c: Range, a: Range) {
    c.end <= a.start || a.end <= c.start
  }

  predicate Untouched(c: Range, avoids: seq<Range>) {
    avoids == [] || (Beside(c, avoids[0]) && Untouched(c, avoids[1..]))
  }

  predicate SubRange(s: Range, c: Range) {
    c.start <= s.start < s.end <= c.end
  }

  function Length(r: Range): int { r.end - r.start }

  /** What is left of a candidate is the longest stretch of it beside the avoided range, the
      upper one of two equals; nothing is left exactly if everything is avoided. */
  lemma FixedLongest(c: Range, a: Range)
    requires c.start < c.end && a.start <= a.end
    ensures Fixed(c, a) == None <==> forall x :: Within(c, x) ==> Within(a, x)
    ensures Fixed(c, a).Some? ==>
      var r := Fixed(c, a).value;
      && SubRange(r, c) && Beside(r, a)
      && forall s :: SubRange(s, c) && Beside(s, a) ==> Length(s) <= Length(r) && (Length(s) == Length(r) ==> s.start <= r.start)
  {
    if Fixed(c, a).Some? {
      var r := Fixed(c, a).value;
      assert Within(c, r.start) && !Within(a, r.start);
    }
  }

  /** In particular, where the avoided range lies strictly inside. */
  lemma FixedInside(c: Range, a: Range)
    requires c.start < a.start <= a.end < c.end
    ensures Fixed(c, a) == Some(if a.start - c.start > c.end - a.end then Range(c.start, a.start) else Range(a.end, c.end))
  {
  }

  /** At most one of the avoided ranges touches the candidate. */
  predicate OneTouches(c: Range, avoids: seq<Range>) {
    avoids == [] || (Beside(c, avoids[0]) && OneTouches(c, avoids[1..])) || Untouched(c, avoids[1..])
  }

  lemma {:induction false} UntouchedPart(s: Range, c: Range, avoids: seq<Range>)
    requires Untouched(c, avoids) && SubRange(s, c)
    ensures Untouched(s, avoids)
  {
    if avoids != [] {
      UntouchedPart(s, c, avoids[1..]);
    }
  }

  lemma {:induction false} UntouchedKeeps(c: Range, avoids: seq<Range>)
    requires Untouched(c, avoids)
    ensures FixedAll(c, avoids) == Some(c)
  {
    if avoids != [] {
      UntouchedKeeps(c, avoids[1..]);
    }
  }

  lemma {:induction false} StretchAvoided(s: Range, avoids: seq<Range>)
    requires s.start < s.end && Ranged(avoids) && Untouched(s, avoids)
    ensures !Avoided(avoids, s.start)
  {
    if avoids != [] {
      StretchAvoided(s, avoids[1..]);
    }
  }

  /** With one avoided range in a block the search keeps its longest free stretch. */
  lemma {:induction false} FixedAllLongest(c: Range, avoids: seq<Range>)
    requires c.start < c.end && Ranged(avoids) && OneTouches(c, avoids)
    ensures FixedAll(c, avoids) == None ==> forall x :: Within(c, x) ==> Avoided(avoids, x)
    ensures FixedAll(c, avoids).Some? ==>
      var r := FixedAll(c, avoids).value;
      SubRange(r, c) && Untouched(r, avoids) && forall s :: SubRange(s, c) && Untouched(s, avoids) ==> Length(s) <= Length(r)
    decreases |avoids|
  {
    if avoids != [] {
      if Beside(c, avoids[0]) && OneTouches(c, avoids[1..]) {
        FixedAllLongest(c, avoids[1..]);
      } else {
        FixedLongest(c, avoids[0]);
        var f := Fixed(c, avoids[0]);
        if f.Some? {
          UntouchedPart(f.value, c, avoids[1..]);
          UntouchedKeeps(f.value, avoids[1..]);
        }
      }
    }
  }

  predicate AllOneTouches(l: seq<Block>, avoids: seq<Range>) {
    l == [] || (OneTouches(Range(l[0].addr, End(l[0])), avoids) && AllOneTouches(l[1..], avoids))
  }

  /** Some block has a stretch of `n` bytes beside everything avoided. */
  ghost predicate Stretch(l: seq<Block>, avoids: seq<Range>, n: nat) {
    l != [] && ((exists s :: SubRange(s, Range(l[0].addr, End(l[0]))) && Untouched(s, avoids) && Length(s) >= n)
                || Stretch(l[1..], avoids, n))
  }

  lemma RoundedBelow(x: nat, align: nat)
    requires align >= 1
    ensures RoundUp(x, align) <= x + align - 1
  {
    var y := x + align - 1;
    assert y == align * (y / align) + y % align;
  }

  /** A stretch that leaves room for alignment is found. */
  lemma {:induction false} StretchFound(l: seq<Block>, avoids: seq<Range>, size: nat, align: nat)
    requires align >= 1 && size > 0 && Separated(l) && Ranged(avoids) && AllOneTouches(l, avoids)
    requires Stretch(l, avoids, size + align - 1)
    ensures Find(l, avoids, size, align).Some?
  {
    var c := Range(l[0].addr, End(l[0]));
    if s :| SubRange(s, c) && Untouched(s, avoids) && Length(s) >= size + align - 1 {
      FixedAllLongest(c, avoids);
      StretchAvoided(s, avoids);
      assert Within(c, s.start);
      RoundedBelow(FixedAll(c, avoids).value.start, align);
    } else {
      StretchFound(l[1..], avoids, size, align);
    }
  }

  /** And where something is found there is a stretch of that size. */
  lemma {:induction false} FoundStretch(l: seq<Block>, avoids: seq<Range>, size: nat, align: nat)
    requires align >= 1 && size > 0 && Separated(l) && Ranged(avoids) && AllOneTouches(l, avoids)
    requires Find(l, avoids, size, align).Some?
    ensures Stretch(l, avoids, size)
  {
    var c := Range(l[0].addr, End(l[0]));
    if FitIn(l[0], avoids, size, align).Some? {
      FixedAllLongest(c, avoids);
      RoundedUp(FixedAll(c, avoids).value.start, align);
    } else {
      FoundStretch(l[1..], avoids, size, align);
    }
  }

  /** With at most one avoided range in each block, wherever it lies, the search misses nothing
      but for alignment: a stretch with room for alignment is found, and only where there is
      a stretch of the size; for byte alignment the two are the same. */
  lemma FindBeside(l: seq<Block>, avoids: seq<Range>, size: nat, align: nat)
    requires align >= 1 && size > 0 && Separated(l) && Ranged(avoids) && AllOneTouches(l, avoids)
    ensures Stretch(l, avoids, size + align - 1) ==> Find(l, avoids, size, align).Some?
    ensures Find(l, avoids, size, align).Some? ==> Stretch(l, avoids, size)
    ensures Find(l, avoids, size, 1).Some? <==> Stretch(l, avoids, size)
  {
    if Stretch(l, avoids, size + align - 1) {
      StretchFound(l, avoids, size, align);
    }
    if Find(l, avoids, size, align).Some? {
      FoundStretch(l, avoids, size, align);
    }
    if Stretch(l, avoids, size) {
      StretchFound(l, avoids, size, 1);
    }
    if Find(l, avoids, size, 1).Some? {
      FoundStretch(l, avoids, size, 1);
    }
  }
}
