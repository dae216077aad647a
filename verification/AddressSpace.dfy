/** The address-space section of the system page: a growing table of ranges whose
    owner links form a forest of names, and `as_add_containing`, which registers a
    range piecewise inside every entry that carries (or inherits) a given name.

    An offset into the section is an index into `entries`; NULL_OFF is AS_NULL_OFF. */
module AddressSpace {
  const NULL_OFF := -1
  const PADDR_MAX := 0xFFFF_FFFF_FFFF_FFFF
  const PRIORITY_DEFAULT := 100

  type paddr = x: int | 0 <= x <= PADDR_MAX

  /** The flag word: AS_OVERLAY_IO is a request only and is never stored. */
  datatype Attr = Attr(bits: nat, overlay: bool, continued: bool, kids: bool)

  datatype Entry = Entry(start: paddr, end: paddr, owner: int, name: string, attr: Attr, priority: int)

  /** One node of the list of ranges that `as_add_containing` splits. */
  datatype Range = Range(start: paddr, end: paddr, owner: int)

  predicate In(x: int, r: Range) {
    r.start <= x <= r.end
  }

  /** Owners are entries added before the entries they own. */
  predicate ValidTable(es: seq<Entry>) {
    forall i :: 0 <= i < |es| ==> es[i].owner == NULL_OFF || 0 <= es[i].owner < i
  }

  // ---------------------------------------------------------------- matching

  /** Entry `i`, or an entry it is nested in, is called `name`. */
  predicate Named(es: seq<Entry>, i: nat, name: string)
    requires ValidTable(es) && i < |es|
    decreases i
  {
    es[i].name == name || (es[i].owner != NULL_OFF && Named(es, es[i].owner, name))
  }

  /** From an entry to its owner, to the owner of that, and so on. */
  predicate OwnerPath(es: seq<Entry>, i: nat, path: seq<nat>)
    decreases |path|
  {
    && path != [] && path[0] == i && i < |es|
    && (|path| > 1 ==> es[i].owner == path[1] && OwnerPath(es, path[1], path[1..]))
  }

  predicate LastNamed(es: seq<Entry>, path: seq<nat>, name: string) {
    path != [] && path[|path| - 1] < |es| && es[path[|path| - 1]].name == name
  }

  lemma {:induction false} NamedPath(es: seq<Entry>, i: nat, name: string) returns (path: seq<nat>)
    requires ValidTable(es) && i < |es| && Named(es, i, name)
    ensures OwnerPath(es, i, path) && LastNamed(es, path, name)
    decreases i
  {
    if es[i].name == name {
      path := [i];
    } else {
      var rest := NamedPath(es, es[i].owner, name);
      path := [i] + rest;
      assert path[1..] == rest && path[|path| - 1] == rest[|rest| - 1];
    }
  }

  lemma {:induction false} PathNamed(es: seq<Entry>, i: nat, path: seq<nat>, name: string)
    requires ValidTable(es) && i < |es| && OwnerPath(es, i, path) && LastNamed(es, path, name)
    ensures Named(es, i, name)
    decreases |path|
  {
    if |path| > 1 {
      PathNamed(es, path[1], path[1..], name);
    }
  }

  /** A name is inherited along the owner links. */
  lemma NamedExactly(es: seq<Entry>, i: nat, name: string)
    requires ValidTable(es) && i < |es|
    ensures Named(es, i, name) <==> exists path :: OwnerPath(es, i, path) && LastNamed(es, path, name)
  {
    if Named(es, i, name) {
      var path := NamedPath(es, i, name);
    }
    if path :| OwnerPath(es, i, path) && LastNamed(es, path, name) {
      PathNamed(es, i, path, name);
    }
  }

  /** The three overlap tests of the search. */
  predicate Touches(e: Entry, start: paddr, end: paddr) {
    || e.start <= start <= e.end
    || e.start <= end <= e.end
    || (start <= e.start && end >= e.end)
  }

  predicate Matches(es: seq<Entry>, i: nat, start: paddr, end: paddr, container: string)
    requires ValidTable(es) && i < |es|
  {
    Named(es, i, container) && Touches(es[i], start, end)
  }

  /** The part of the request that entry `i` holds. */
  function Clip(e: Entry, start: paddr, end: paddr, owner: int): (r: Range) {
    Range(if e.start > start then e.start else start, if e.end < end then e.end else end, owner)
  }

  /** The tests find exactly the entries that share an address with the request. */
  lemma TouchesIsOverlap(e: Entry, start: paddr, end: paddr)
    requires start <= end && e.start <= e.end
    ensures Touches(e, start, end) <==> exists x :: In(x, Range(start, end, 0)) && In(x, Range(e.start, e.end, 0))
  {
    if Touches(e, start, end) {
      var r := Clip(e, start, end, 0);
      assert In(r.start, Range(start, end, 0)) && In(r.start, Range(e.start, e.end, 0));
    }
  }

  /** The address lies in the request and in the entry. */
  predicate Shared(e: Entry, start: paddr, end: paddr, x: int) {
    start <= x <= end && e.start <= x <= e.end
  }

  /** A requested address that entry `i` holds, under the name of the container. */
  predicate Holds(es: seq<Entry>, i: nat, start: paddr, end: paddr, container: string, x: int)
    requires ValidTable(es) && i < |es|
  {
    Shared(es[i], start, end, x) && Named(es, i, container)
  }

  /** The search meets every entry that holds a requested address, and the clipped range of
      a match has exactly the requested addresses that it holds. */
  lemma ClipHolds(es: seq<Entry>, i: nat, start: paddr, end: paddr, container: string, x: int)
    requires ValidTable(es) && i < |es|
    ensures Matches(es, i, start, end, container) && In(x, Clip(es[i], start, end, i)) <==> Holds(es, i, start, end, container, x)
  {
  }

  /** The last entry below `k` that holds the requested address `x`: the deepest
      container, because containers are added before what they contain. */
  function Deepest(es: seq<Entry>, k: nat, start: paddr, end: paddr, container: string, x: int): (d: int)
    requires ValidTable(es) && k <= |es|
    ensures d == NULL_OFF || 0 <= d < k
    ensures d != NULL_OFF ==> Holds(es, d, start, end, container, x)
    ensures forall i :: d < i < k && 0 <= i ==> !Holds(es, i, start, end, container, x)
  {
    if k == 0 then NULL_OFF
    else if Holds(es, k - 1, start, end, container, x) then k - 1
    else Deepest(es, k - 1, start, end, container, x)
  }

  // ---------------------------------------------------------------- splitting

  function Next(x: paddr): (y: paddr) {
    if x == PADDR_MAX then 0 else x + 1
  }

  /** A node that holds the first address of `p` gives way to up to three nodes. */
  function Split(c: Range, p: Range): (l: seq<Range>)
    requires In(p.start, c)
  {
    if c.start == p.start && c.end == p.end then [Range(c.start, c.end, p.owner)]
    else if c.start == p.start then [p, Range(Next(p.end), c.end, c.owner)]
    else if c.end == p.end then [Range(c.start, p.start - 1, c.owner), p]
    else [Range(c.start, p.start - 1, c.owner), p, Range(Next(p.end), c.end, c.owner)]
  }

  function Insert(l: seq<Range>, p: Range): (r: seq<Range>) {
    if l == [] then [p]
    else if In(p.start, l[0]) then Split(l[0], p) + l[1..]
    else [l[0]] + Insert(l[1..], p)
  }

  /** The list after the first `k` entries of the table have been looked at. */
  function Pieces(es: seq<Entry>, k: nat, start: paddr, end: paddr, container: string): (l: seq<Range>)
    requires ValidTable(es) && k <= |es|
  {
    if k == 0 then []
    else
      var l := Pieces(es, k - 1, start, end, container);
      if Matches(es, k - 1, start, end, container) then Insert(l, Clip(es[k - 1], start, end, k - 1)) else l
  }

  // ---------------------------------------------------------------- what a list of ranges means

  function OwnerAt(l: seq<Range>, x: int): (o: int) {
    if l == [] then NULL_OFF else if In(x, l[0]) then l[0].owner else OwnerAt(l[1..], x)
  }

  /** How many ranges hold `x`; never above one means pairwise disjoint. */
  function Count(l: seq<Range>, x: int): (n: nat) {
    if l == [] then 0 else (if In(x, l[0]) then 1 else 0) + Count(l[1..], x)
  }

  predicate Owned(l: seq<Range>) {
    forall i :: 0 <= i < |l| ==> l[i].owner != NULL_OFF
  }

  /** `p` lies inside `c` or apart from it. */
  predicate Fits(c: Range, p: Range) {
    if In(p.start, c) then p.start <= p.end <= c.end else p.end < c.start || c.end < p.start
  }

  predicate FitsAll(l: seq<Range>, p: Range) {
    l == [] || (Fits(l[0], p) && FitsAll(l[1..], p))
  }

  lemma {:induction false} Appended(a: seq<Range>, b: seq<Range>, x: int)
    requires Owned(a)
    ensures OwnerAt(a + b, x) == if Count(a, x) > 0 then OwnerAt(a, x) else OwnerAt(b, x)
    ensures Count(a + b, x) == Count(a, x) + Count(b, x)
  {
    if a == [] {
      assert a + b == b;
    } else {
      assert (a + b)[0] == a[0] && (a + b)[1..] == a[1..] + b;
      Appended(a[1..], b, x);
    }
  }

  lemma {:induction false} FitsAppended(a: seq<Range>, b: seq<Range>, p: Range)
    ensures FitsAll(a + b, p) <==> FitsAll(a, p) && FitsAll(b, p)
  {
    if a == [] {
      assert a + b == b;
    } else {
      assert (a + b)[0] == a[0] && (a + b)[1..] == a[1..] + b;
      FitsAppended(a[1..], b, p);
    }
  }

  lemma Unroll(a: Range, l: seq<Range>, x: int)
    ensures Count([a] + l, x) == (if In(x, a) then 1 else 0) + Count(l, x)
    ensures OwnerAt([a] + l, x) == if In(x, a) then a.owner else OwnerAt(l, x)
    ensures forall p :: FitsAll([a] + l, p) <==> Fits(a, p) && FitsAll(l, p)
  {
    assert ([a] + l)[1..] == l;
  }

  /** Splitting a node changes the owner inside `p` only, and covers the same addresses once. */
  lemma SplitMeaning(c: Range, p: Range, x: int)
    requires In(p.start, c) && Fits(c, p)
    requires c.owner != NULL_OFF && p.owner != NULL_OFF
    ensures Owned(Split(c, p))
    ensures Count(Split(c, p), x) == if In(x, c) then 1 else 0
    ensures In(x, c) ==> OwnerAt(Split(c, p), x) == if In(x, p) then p.owner else c.owner
  {
    var l := Split(c, p);
    Unroll(l[0], l[1..], x);
    assert l == [l[0]] + l[1..];
    if |l| > 1 {
      Unroll(l[1], l[2..], x);
      assert l[1..] == [l[1]] + l[2..];
      if |l| > 2 {
        Unroll(l[2], [], x);
        assert l[2..] == [l[2]] + [];
      }
    }
  }

  lemma {:induction false} InsertMeaning(l: seq<Range>, p: Range, x: int)
    requires FitsAll(l, p) && Owned(l) && p.owner != NULL_OFF
    ensures Owned(Insert(l, p))
    ensures OwnerAt(Insert(l, p), x) == if In(x, p) then p.owner else OwnerAt(l, x)
    ensures Count(Insert(l, p), x) == if In(x, p) && Count(l, x) == 0 then 1 else Count(l, x)
  {
    if l == [] {
    } else if In(p.start, l[0]) {
      SplitMeaning(l[0], p, x);
      Appended(Split(l[0], p), l[1..], x);
    } else {
      InsertMeaning(l[1..], p, x);
      Appended([l[0]], Insert(l[1..], p), x);
    }
  }

  lemma SplitFits(c: Range, p: Range, q: Range)
    requires In(p.start, c) && Fits(c, p) && Fits(c, q) && Fits(p, q)
    ensures FitsAll(Split(c, p), q)
  {
    var l := Split(c, p);
    Unroll(l[0], l[1..], 0);
    assert l == [l[0]] + l[1..];
    if |l| > 1 {
      Unroll(l[1], l[2..], 0);
      assert l[1..] == [l[1]] + l[2..];
      if |l| > 2 {
        Unroll(l[2], [], 0);
        assert l[2..] == [l[2]] + [];
      }
    }
  }

  /** A range nested in everything so far is still nested after `p` is carved out. */
  lemma {:induction false} InsertFits(l: seq<Range>, p: Range, q: Range)
    requires FitsAll(l, p) && FitsAll(l, q) && Fits(p, q)
    ensures FitsAll(Insert(l, p), q)
  {
    if l == [] {
    } else if In(p.start, l[0]) {
      SplitFits(l[0], p, q);
      FitsAppended(Split(l[0], p), l[1..], q);
    } else {
      InsertFits(l[1..], p, q);
      FitsAppended([l[0]], Insert(l[1..], p), q);
    }
  }

  /** Matched containers, clipped to the request, are nested parent first. */
  predicate Nested(es: seq<Entry>, start: paddr, end: paddr, container: string)
    requires ValidTable(es)
  {
    forall i, j :: 0 <= i < j < |es| && Matches(es, i, start, end, container) && Matches(es, j, start, end, container)
      ==> Fits(Clip(es[i], start, end, i), Clip(es[j], start, end, j))
  }

  lemma {:induction false} PiecesFit(es: seq<Entry>, k: nat, j: nat, start: paddr, end: paddr, container: string)
    requires ValidTable(es) && k <= j < |es| && Nested(es, start, end, container)
    requires Matches(es, j, start, end, container)
    ensures FitsAll(Pieces(es, k, start, end, container), Clip(es[j], start, end, j))
  {
    if k > 0 {
      PiecesFit(es, k - 1, j, start, end, container);
      if Matches(es, k - 1, start, end, container) {
        PiecesFit(es, k - 1, k - 1, start, end, container);
        InsertFits(Pieces(es, k - 1, start, end, container), Clip(es[k - 1], start, end, k - 1), Clip(es[j], start, end, j));
      }
    }
  }

  /** `x` lies in exactly one piece, which belongs to the deepest container; or in none. */
  ghost predicate PartAt(l: seq<Range>, d: int, x: int) {
    Owned(l) && OwnerAt(l, x) == d && Count(l, x) == if d == NULL_OFF then 0 else 1
  }

  lemma PartStep(l: seq<Range>, p: Range, d: int, x: int)
    requires PartAt(l, d, x) && FitsAll(l, p) && p.owner != NULL_OFF
    ensures PartAt(Insert(l, p), if In(x, p) then p.owner else d, x)
  {
    InsertMeaning(l, p, x);
  }

  /** The partition theorem: every address of the request that a matching container
      holds lies in exactly one piece, that piece belongs to the deepest such
      container, and no piece holds any other address. */
  lemma {:induction false} Partition(es: seq<Entry>, k: nat, start: paddr, end: paddr, container: string, x: int)
    requires ValidTable(es) && k <= |es| && Nested(es, start, end, container)
    ensures PartAt(Pieces(es, k, start, end, container), Deepest(es, k, start, end, container, x), x)
  {
    if k > 0 {
      Partition(es, k - 1, start, end, container, x);
      ClipHolds(es, k - 1, start, end, container, x);
      if Matches(es, k - 1, start, end, container) {
        PiecesFit(es, k - 1, k - 1, start, end, container);
        PartStep(Pieces(es, k - 1, start, end, container), Clip(es[k - 1], start, end, k - 1),
                 Deepest(es, k - 1, start, end, container, x), x);
      }
    }
  }

  /** Containers that are themselves nested parent first stay so for every request. */
  lemma TableNested(es: seq<Entry>, start: paddr, end: paddr, container: string)
    requires ValidTable(es)
    requires forall i :: 0 <= i < |es| ==> es[i].start <= es[i].end
    requires forall i, j :: 0 <= i < j < |es| ==>
      Fits(Range(es[i].start, es[i].end, i), Range(es[j].start, es[j].end, j))
    ensures Nested(es, start, end, container)
  {
    forall i, j | 0 <= i < j < |es| && Matches(es, i, start, end, container) && Matches(es, j, start, end, container)
      ensures Fits(Clip(es[i], start, end, i), Clip(es[j], start, end, j))
    {
      assert Fits(Range(es[i].start, es[i].end, i), Range(es[j].start, es[j].end, j));
    }
  }

  /** Without nesting the theorem fails: of two overlapping containers, the one
      that starts lower but was added later leaves shared addresses in two pieces. */
  lemma OverlapBreaksPartition(es: seq<Entry>, name: string)
    requires |es| == 2 && ValidTable(es) && es[0].name == name && es[1].name == name
    requires (es[0].start, es[0].end, es[1].start, es[1].end) == (5, 15, 0, 10)
    ensures !Nested(es, 0, 20, name) && Count(Pieces(es, 2, 0, 20, name), 7) == 2
  {
    assert Matches(es, 0, 0, 20, name) && Matches(es, 1, 0, 20, name);
    var a, b := Clip(es[0], 0, 20, 0), Clip(es[1], 0, 20, 1);
    assert !Fits(a, b);
    assert Pieces(es, 0, 0, 20, name) == [] && Pieces(es, 1, 0, 20, name) == [a];
    assert [a][1..] == [] && Insert([a], b) == [a] + [b];
    Unroll(a, [b], 7);
    assert [b][1..] == [];
  }

  // ---------------------------------------------------------------- growing the table

  function WithKids(e: Entry): (r: Entry) {
    e.(attr := e.attr.(kids := true))
  }

  function Stored(attr: Attr): (a: Attr) {
    attr.(bits := attr.bits % 0x1_0000, overlay := false)
  }

  /** `as_add64`: append, flag the owner, and add an overlay child on request. */
  function Added(es: seq<Entry>, start: paddr, end: paddr, attr: Attr, name: string, owner: int): (r: seq<Entry>)
    requires owner == NULL_OFF || 0 <= owner < |es|
    decreases attr.overlay
  {
    var marked := if owner == NULL_OFF then es else es[owner := WithKids(es[owner])];
    var grown := marked + [Entry(start, end, owner, name, Stored(attr), PRIORITY_DEFAULT)];
    if attr.overlay then Added(grown, start, end, attr.(overlay := false), "io", |es|) else grown
  }

  /** Equal except that the second may have gained the KIDS flag. */
  predicate SameButKids(a: Entry, b: Entry) {
    b == a || b == a.(attr := a.attr.(kids := true))
  }

  predicate KeptUpTo(es: seq<Entry>, r: seq<Entry>, n: nat) {
    n <= |es| && n <= |r| && forall i :: 0 <= i < n ==> SameButKids(es[i], r[i])
  }

  lemma AddedKeeps(es: seq<Entry>, start: paddr, end: paddr, attr: Attr, name: string, owner: int)
    requires owner == NULL_OFF || 0 <= owner < |es|
    requires !attr.overlay && ValidTable(es)
    ensures var r := Added(es, start, end, attr, name, owner);
            && |r| == |es| + 1 && KeptUpTo(es, r, |es|) && ValidTable(r)
            && r[|es|] == Entry(start, end, owner, name, Stored(attr), PRIORITY_DEFAULT)
            && (forall i :: 0 <= i < |es| && i != owner ==> r[i] == es[i])
            && (owner != NULL_OFF ==> r[owner].attr.kids)
  {
  }

  /** `e` is a child of the same range. */
  predicate ChildOf(e: Entry, piece: Entry, owner: nat, attr: Attr, name: string) {
    e == Entry(piece.start, piece.end, owner, name, Attr(attr.bits % 0x1_0000, false, attr.continued, attr.kids), PRIORITY_DEFAULT)
  }

  /** With an overlay: the entry, and an "io" child of the same range behind it. */
  lemma AddedOverlay(es: seq<Entry>, start: paddr, end: paddr, attr: Attr, name: string, owner: int)
    requires owner == NULL_OFF || 0 <= owner < |es|
    requires attr.overlay && ValidTable(es)
    ensures var r := Added(es, start, end, attr, name, owner);
            && |r| == |es| + 2 && KeptUpTo(es, r, |es|) && ValidTable(r)
            && r[|es|] == Entry(start, end, owner, name, Attr(attr.bits % 0x1_0000, false, attr.continued, true), PRIORITY_DEFAULT)
            && ChildOf(r[|es| + 1], r[|es|], |es|, attr, "io")
            && (forall i :: 0 <= i < |es| && i != owner ==> r[i] == es[i])
            && (owner != NULL_OFF ==> r[owner].attr.kids)
  {
    var plain := attr.(overlay := false);
    var grown := Added(es, start, end, plain, name, owner);
    AddedKeeps(es, start, end, plain, name, owner);
    AddedKeeps(grown, start, end, plain, "io", |es|);
    assert Stored(plain) == Stored(attr);
    KeptTrans(es, grown, Added(es, start, end, attr, name, owner), |es|);
  }

  lemma KeptTrans(a: seq<Entry>, b: seq<Entry>, c: seq<Entry>, n: nat)
    requires KeptUpTo(a, b, n) && KeptUpTo(b, c, n)
    ensures KeptUpTo(a, c, n)
  {
    forall i | 0 <= i < n
      ensures SameButKids(a[i], c[i])
    {
      assert SameButKids(a[i], b[i]) && SameButKids(b[i], c[i]);
    }
  }

  function NonEmpty(l: seq<Range>): (r: seq<Range>) {
    if l == [] then [] else (if l[0].start <= l[0].end then [l[0]] else []) + NonEmpty(l[1..])
  }

  lemma {:induction false} NonEmptyMeaning(l: seq<Range>, x: int)
    requires Owned(l)
    ensures OwnerAt(NonEmpty(l), x) == OwnerAt(l, x) && Count(NonEmpty(l), x) == Count(l, x)
  {
    if l != [] {
      NonEmptyMeaning(l[1..], x);
      assert [l[0]] + NonEmpty(l[1..]) == [l[0]] + NonEmpty(l[1..]);
      Unroll(l[0], NonEmpty(l[1..]), x);
      assert NonEmpty(l) == if l[0].start <= l[0].end then [l[0]] + NonEmpty(l[1..]) else NonEmpty(l[1..]);
    }
  }

  predicate OwnersBelow(l: seq<Range>, n: nat) {
    forall i :: 0 <= i < |l| ==> 0 <= l[i].owner < n
  }

  lemma {:induction false} InsertOwners(l: seq<Range>, p: Range, n: nat)
    requires OwnersBelow(l, n) && 0 <= p.owner < n
    ensures OwnersBelow(Insert(l, p), n)
  {
    if l != [] && !In(p.start, l[0]) {
      InsertOwners(l[1..], p, n);
    }
  }

  lemma {:induction false} PiecesOwners(es: seq<Entry>, k: nat, start: paddr, end: paddr, container: string)
    requires ValidTable(es) && k <= |es|
    ensures OwnersBelow(Pieces(es, k, start, end, container), |es|)
  {
    if k > 0 {
      PiecesOwners(es, k - 1, start, end, container);
      if Matches(es, k - 1, start, end, container) {
        InsertOwners(Pieces(es, k - 1, start, end, container), Clip(es[k - 1], start, end, k - 1), |es|);
      }
    }
  }

  /** The emission loop. */
  function Emitted(es: seq<Entry>, l: seq<Range>, attr: Attr, name: string): (r: seq<Entry>)
    requires OwnersBelow(l, |es|) && !attr.overlay
    decreases |l|
  {
    if l == [] then es
    else if l[0].start <= l[0].end then Emitted(Added(es, l[0].start, l[0].end, attr, name, l[0].owner), l[1..], attr, name)
    else Emitted(es, l[1..], attr, name)
  }

  function RangeOf(e: Entry): (r: Range) {
    Range(e.start, e.end, e.owner)
  }

  /** What the emission loop appends, entry by entry. */
  predicate Tail(r: seq<Entry>, n: nat, l: seq<Range>, attr: Attr, name: string) {
    && |r| == n + |l|
    && forall j {:trigger r[j]} :: n <= j < n + |l| ==>
         r[j] == Entry(l[j - n].start, l[j - n].end, l[j - n].owner, name, Stored(attr), PRIORITY_DEFAULT)
  }

  /** The owners of the pieces have the KIDS flag. */
  predicate Marked(r: seq<Entry>, l: seq<Range>) {
    forall i :: 0 <= i < |l| ==> 0 <= l[i].owner < |r| && r[l[i].owner].attr.kids
  }

  /** What holds of the table behind the emission loop, which found `es` and appends `l`. */
  ghost predicate EmittedOk(es: seq<Entry>, r: seq<Entry>, n: nat, l: seq<Range>, attr: Attr, name: string) {
    && ValidTable(r) && KeptUpTo(es, r, n) && Tail(r, |es|, l, attr, name) && Marked(r, l)
    && forall i :: n <= i < |es| ==> r[i] == es[i]
  }

  lemma EmittedStep(es: seq<Entry>, next: seq<Entry>, r: seq<Entry>, n: nat, c: Range, l: seq<Range>, attr: Attr, name: string)
    requires n <= |es| && 0 <= c.owner < n && |next| == |es| + 1 && KeptUpTo(es, next, |es|)
    requires next[|es|] == Entry(c.start, c.end, c.owner, name, Stored(attr), PRIORITY_DEFAULT)
    requires forall i :: 0 <= i < |es| && i != c.owner ==> next[i] == es[i]
    requires next[c.owner].attr.kids && EmittedOk(next, r, n, l, attr, name)
    ensures EmittedOk(es, r, n, [c] + l, attr, name)
  {
    KeptTrans(es, next, r, n);
    assert r[|es|] == next[|es|] && SameButKids(next[c.owner], r[c.owner]);
    forall j | |es| <= j < |es| + |l| + 1
      ensures var q := ([c] + l)[j - |es|];
              r[j] == Entry(q.start, q.end, q.owner, name, Stored(attr), PRIORITY_DEFAULT)
    {
      if j > |es| {
        assert ([c] + l)[j - |es|] == l[j - |next|];
      }
    }
  }

  lemma {:induction false} EmittedTail(es: seq<Entry>, n: nat, l: seq<Range>, attr: Attr, name: string)
    requires ValidTable(es) && n <= |es| && OwnersBelow(l, n) && !attr.overlay
    ensures EmittedOk(es, Emitted(es, l, attr, name), n, NonEmpty(l), attr, name)
    decreases |l|
  {
    if l == [] {
    } else if l[0].start <= l[0].end {
      var next := Added(es, l[0].start, l[0].end, attr, name, l[0].owner);
      AddedKeeps(es, l[0].start, l[0].end, attr, name, l[0].owner);
      EmittedTail(next, n, l[1..], attr, name);
      EmittedStep(es, next, Emitted(es, l, attr, name), n, l[0], NonEmpty(l[1..]), attr, name);
    } else {
      EmittedTail(es, n, l[1..], attr, name);
      assert NonEmpty(l) == NonEmpty(l[1..]);
    }
  }

  // ---------------------------------------------------------------- the continuation chain

  /** The ranges met when following CONTINUED from `off`, as `as_set_priority` does. */
  function Chain(es: seq<Entry>, off: nat): (c: seq<Range>)
    requires off < |es|
    ensures 1 <= |c| <= |es| - off
    decreases |es| - off
  {
    [RangeOf(es[off])] + if es[off].attr.continued && off + 1 < |es| then Chain(es, off + 1) else []
  }

  function Uncontinued(e: Entry): (r: Entry) {
    e.(attr := e.attr.(continued := false))
  }

  /** Entries n.. carry the ranges of `l`, linked by CONTINUED up to the last. */
  predicate Linked(es: seq<Entry>, n: nat, l: seq<Range>) {
    && n + |l| <= |es|
    && forall j {:trigger es[j]} :: n <= j < n + |l| ==>
         RangeOf(es[j]) == l[j - n] && (es[j].attr.continued <==> j + 1 < n + |l|)
  }

  lemma {:induction false} LinkedChain(es: seq<Entry>, n: nat, l: seq<Range>)
    requires l != [] && Linked(es, n, l)
    ensures Chain(es, n) == l
    decreases |l|
  {
    assert RangeOf(es[n]) == l[0];
    if |l| > 1 {
      LinkedChain(es, n + 1, l[1..]);
    }
  }

  /** The overlay pass: one child per piece of the chain, added behind it. */
  function Overlaid(es: seq<Entry>, first: nat, n: nat, attr: Attr, name: string): (r: seq<Entry>)
    requires first + n <= |es| && !attr.overlay
    ensures |r| == |es| + n
  {
    if n == 0 then es
    else
      var r := Overlaid(es, first, n - 1, attr, name);
      Added(r, r[first + n - 1].start, r[first + n - 1].end, attr, name, first + n - 1)
  }

  predicate ChildAt(r: seq<Entry>, first: nat, base: nat, i: nat, attr: Attr, name: string) {
    first + i < |r| && base + i < |r| && ChildOf(r[base + i], r[first + i], first + i, attr, name)
  }

  /** The overlay children: same range, same name, owned by their piece. */
  predicate Children(r: seq<Entry>, first: nat, n: nat, base: nat, attr: Attr, name: string) {
    && first + n <= base && base + n <= |r|
    && forall i :: 0 <= i < n ==> ChildAt(r, first, base, i, attr, name)
  }

  /** What holds of the table during the overlay pass. */
  ghost predicate OverlaidOk(es: seq<Entry>, r: seq<Entry>, first: nat, n: nat, attr: Attr, name: string) {
    && |r| == |es| + n && ValidTable(r) && KeptUpTo(es, r, |es|) && Children(r, first, n, |es|, attr, name)
    && forall i :: 0 <= i < |es| && !(first <= i < first + n) ==> r[i] == es[i]
  }

  /** One more child behind the others. */
  lemma OverlaidStep(es: seq<Entry>, r: seq<Entry>, q: seq<Entry>, first: nat, n: nat, attr: Attr, name: string)
    requires first + n < |es| && OverlaidOk(es, r, first, n, attr, name)
    requires |q| == |r| + 1 && KeptUpTo(r, q, |r|) && ValidTable(q)
    requires q[|r|] == Entry(r[first + n].start, r[first + n].end, first + n, name, Stored(attr), PRIORITY_DEFAULT)
    requires forall i :: 0 <= i < |r| && i != first + n ==> q[i] == r[i]
    ensures OverlaidOk(es, q, first, n + 1, attr, name)
  {
    KeptTrans(es, r, q, |es|);
    assert SameButKids(r[first + n], q[first + n]);
    forall i | 0 <= i < n + 1
      ensures ChildAt(q, first, |es|, i, attr, name)
    {
      if i < n {
        assert ChildAt(r, first, |es|, i, attr, name);
        assert q[|es| + i] == r[|es| + i] && q[first + i] == r[first + i];
      }
    }
  }

  lemma {:induction false} OverlaidKeeps(es: seq<Entry>, first: nat, n: nat, attr: Attr, name: string)
    requires first + n <= |es| && !attr.overlay && ValidTable(es)
    ensures OverlaidOk(es, Overlaid(es, first, n, attr, name), first, n, attr, name)
  {
    if n > 0 {
      OverlaidKeeps(es, first, n - 1, attr, name);
      var r, q := OverlaidNext(es, first, n, attr, name);
      OverlaidStep(es, r, q, first, n - 1, attr, name);
    }
  }

  lemma OverlaidNext(es: seq<Entry>, first: nat, n: nat, attr: Attr, name: string) returns (r: seq<Entry>, q: seq<Entry>)
    requires 0 < n && first + n <= |es| && !attr.overlay && ValidTable(Overlaid(es, first, n - 1, attr, name))
    ensures r == Overlaid(es, first, n - 1, attr, name) && q == Overlaid(es, first, n, attr, name)
    ensures |r| == |es| + n - 1 && |q| == |r| + 1 && KeptUpTo(r, q, |r|) && ValidTable(q)
    ensures q[|r|] == Entry(r[first + n - 1].start, r[first + n - 1].end, first + n - 1, name, Stored(attr), PRIORITY_DEFAULT)
    ensures forall i :: 0 <= i < |r| && i != first + n - 1 ==> q[i] == r[i]
  {
    r, q := Overlaid(es, first, n - 1, attr, name), Overlaid(es, first, n, attr, name);
    AddedKeeps(r, r[first + n - 1].start, r[first + n - 1].end, attr, name, first + n - 1);
  }

  /** The last steps: unlink the last piece, then the overlay pass. */
  function Finished(n: nat, emitted: seq<Entry>, attr: Attr, name: string): (r: (seq<Entry>, int))
    requires n <= |emitted|
  {
    if |emitted| == n then (emitted, NULL_OFF)
    else
      var linked := emitted[|emitted| - 1 := Uncontinued(emitted[|emitted| - 1])];
      (if attr.overlay then Overlaid(linked, n, |emitted| - n, attr.(overlay := false), name) else linked, n)
  }

  function PieceAttr(attr: Attr): (a: Attr) {
    attr.(overlay := false, continued := true)
  }

  /** The table and the offset that `as_add_containing` leaves, for every input. */
  function Registered(es: seq<Entry>, start: paddr, end: paddr, attr: Attr, name: string, container: string)
    : (r: (seq<Entry>, int))
    requires ValidTable(es)
  {
    PiecesOwners(es, |es|, start, end, container);
    var l := Pieces(es, |es|, start, end, container);
    EmittedTail(es, |es|, l, PieceAttr(attr), name);
    Finished(|es|, Emitted(es, l, PieceAttr(attr), name), attr, name)
  }

  lemma LinkedKept(es: seq<Entry>, r: seq<Entry>, n: nat, l: seq<Range>)
    requires Linked(es, n, l) && KeptUpTo(es, r, n + |l|)
    ensures Linked(r, n, l)
  {
    forall j | n <= j < n + |l|
      ensures RangeOf(r[j]) == l[j - n] && (r[j].attr.continued <==> j + 1 < n + |l|)
    {
      assert SameButKids(es[j], r[j]);
    }
  }

  /** The entry of a piece: as requested, with CONTINUED on all but the last. */
  predicate PieceEntry(e: Entry, c: Range, attr: Attr, name: string, continued: bool) {
    SameButKids(Entry(c.start, c.end, c.owner, name, Attr(attr.bits % 0x1_0000, false, continued, attr.kids), PRIORITY_DEFAULT), e)
  }

  lemma MarkedKept(es: seq<Entry>, r: seq<Entry>, l: seq<Range>)
    requires Marked(es, l) && KeptUpTo(es, r, |es|)
    ensures Marked(r, l)
  {
    forall i | 0 <= i < |l|
      ensures 0 <= l[i].owner < |r| && r[l[i].owner].attr.kids
    {
      assert SameButKids(es[l[i].owner], r[l[i].owner]);
    }
  }

  predicate PieceEntries(r: seq<Entry>, n: nat, l: seq<Range>, attr: Attr, name: string) {
    && n + |l| <= |r|
    && forall j {:trigger r[j]} :: n <= j < n + |l| ==> PieceEntry(r[j], l[j - n], attr, name, j + 1 < n + |l|)
  }

  lemma EntriesKept(es: seq<Entry>, r: seq<Entry>, n: nat, l: seq<Range>, attr: Attr, name: string)
    requires PieceEntries(es, n, l, attr, name) && KeptUpTo(es, r, n + |l|)
    ensures PieceEntries(r, n, l, attr, name)
  {
    forall j | n <= j < n + |l|
      ensures PieceEntry(r[j], l[j - n], attr, name, j + 1 < n + |l|)
    {
      assert SameButKids(es[j], r[j]);
    }
  }

  lemma Relink(es: seq<Entry>, emitted: seq<Entry>, l: seq<Range>, attr: Attr, name: string)
    requires l != [] && ValidTable(emitted) && KeptUpTo(es, emitted, |es|)
    requires Tail(emitted, |es|, l, PieceAttr(attr), name) && Marked(emitted, l)
    ensures var linked := emitted[|emitted| - 1 := Uncontinued(emitted[|emitted| - 1])];
            && |linked| == |es| + |l| && ValidTable(linked) && KeptUpTo(es, linked, |es|)
            && Linked(linked, |es|, l) && PieceEntries(linked, |es|, l, attr, name) && Marked(linked, l)
  {
    RelinkEntries(|es|, emitted, l, attr, name);
    RelinkKeeps(es, emitted, l);
  }

  lemma RelinkEntries(n: nat, emitted: seq<Entry>, l: seq<Range>, attr: Attr, name: string)
    requires l != [] && Tail(emitted, n, l, PieceAttr(attr), name)
    ensures var linked := emitted[|emitted| - 1 := Uncontinued(emitted[|emitted| - 1])];
            Linked(linked, n, l) && PieceEntries(linked, n, l, attr, name)
  {
  }

  lemma RelinkKeeps(es: seq<Entry>, emitted: seq<Entry>, l: seq<Range>)
    requires |emitted| > |es| && ValidTable(emitted) && KeptUpTo(es, emitted, |es|) && Marked(emitted, l)
    ensures var linked := emitted[|emitted| - 1 := Uncontinued(emitted[|emitted| - 1])];
            ValidTable(linked) && KeptUpTo(es, linked, |es|) && Marked(linked, l)
  {
  }

  /** `r` is `es` grown by the chain of pieces `l` (and its overlay children):
      earlier entries gain at most the KIDS flag, and following CONTINUED from the
      first new entry meets exactly `l`, in entries that are otherwise as requested. */
  predicate ChainOf(es: seq<Entry>, r: seq<Entry>, l: seq<Range>, attr: Attr, name: string) {
    && l != [] && |r| == |es| + |l| + (if attr.overlay then |l| else 0)
    && ValidTable(r) && KeptUpTo(es, r, |es|)
    && Linked(r, |es|, l) && Chain(r, |es|) == l && PieceEntries(r, |es|, l, attr, name) && Marked(r, l)
    && (attr.overlay ==> Children(r, |es|, |l|, |es| + |l|, attr.(overlay := false), name))
  }

  lemma FinishedChain(es: seq<Entry>, emitted: seq<Entry>, l: seq<Range>, attr: Attr, name: string)
    requires l != [] && ValidTable(emitted) && KeptUpTo(es, emitted, |es|)
    requires Tail(emitted, |es|, l, PieceAttr(attr), name) && Marked(emitted, l)
    ensures Finished(|es|, emitted, attr, name).1 == |es|
    ensures ChainOf(es, Finished(|es|, emitted, attr, name).0, l, attr, name)
  {
    Relink(es, emitted, l, attr, name);
    ChainFrom(es, emitted[|emitted| - 1 := Uncontinued(emitted[|emitted| - 1])], l, attr, name);
  }

  lemma ChainFrom(es: seq<Entry>, linked: seq<Entry>, l: seq<Range>, attr: Attr, name: string)
    requires l != [] && |linked| == |es| + |l| && ValidTable(linked) && KeptUpTo(es, linked, |es|)
    requires Linked(linked, |es|, l) && PieceEntries(linked, |es|, l, attr, name) && Marked(linked, l)
    ensures attr.overlay ==> ChainOf(es, Overlaid(linked, |es|, |l|, attr.(overlay := false), name), l, attr, name)
    ensures !attr.overlay ==> ChainOf(es, linked, l, attr, name)
  {
    if attr.overlay {
      var r := OverlaidTable(linked, |es|, |l|, attr.(overlay := false), name);
      ChainAssembled(es, linked, r, l, attr, name);
    } else {
      ChainPlain(es, linked, l, attr, name);
    }
  }

  lemma ChainPlain(es: seq<Entry>, linked: seq<Entry>, l: seq<Range>, attr: Attr, name: string)
    requires l != [] && |linked| == |es| + |l| && !attr.overlay && ValidTable(linked) && KeptUpTo(es, linked, |es|)
    requires Linked(linked, |es|, l) && PieceEntries(linked, |es|, l, attr, name) && Marked(linked, l)
    ensures ChainOf(es, linked, l, attr, name)
  {
    LinkedChain(linked, |es|, l);
  }

  /** The chain from the returned offset visits exactly the non-empty pieces, in list
      order; nothing is registered and nothing changes when there are none. */
  lemma RegisteredChain(es: seq<Entry>, start: paddr, end: paddr, attr: Attr, name: string, container: string)
    requires ValidTable(es)
    ensures var (r, first) := Registered(es, start, end, attr, name, container);
            var l := NonEmpty(Pieces(es, |es|, start, end, container));
            if l == [] then first == NULL_OFF && r == es else first == |es| && ChainOf(es, r, l, attr, name)
  {
    var pieces := Pieces(es, |es|, start, end, container);
    PiecesOwners(es, |es|, start, end, container);
    EmittedTail(es, |es|, pieces, PieceAttr(attr), name);
    var emitted := Emitted(es, pieces, PieceAttr(attr), name);
    if NonEmpty(pieces) == [] {
      EmittedNothing(es, pieces, PieceAttr(attr), name);
    } else {
      FinishedChain(es, emitted, NonEmpty(pieces), attr, name);
    }
  }

  /** A table grown behind the linked pieces by their overlay children. */
  lemma ChainAssembled(es: seq<Entry>, linked: seq<Entry>, r: seq<Entry>, l: seq<Range>, attr: Attr, name: string)
    requires l != [] && |linked| == |es| + |l| && attr.overlay && |r| == |linked| + |l|
    requires KeptUpTo(es, linked, |es|) && Linked(linked, |es|, l) && PieceEntries(linked, |es|, l, attr, name) && Marked(linked, l)
    requires ValidTable(r) && KeptUpTo(linked, r, |linked|)
    requires Children(r, |es|, |l|, |es| + |l|, attr.(overlay := false), name)
    ensures ChainOf(es, r, l, attr, name)
  {
    KeptFollows(es, linked, r, l, attr, name);
    MarkedKept(linked, r, l);
  }

  /** All that is needed of the table behind the overlay pass. */
  lemma OverlaidTable(es: seq<Entry>, first: nat, n: nat, attr: Attr, name: string) returns (r: seq<Entry>)
    requires first + n == |es| && !attr.overlay && ValidTable(es)
    ensures r == Overlaid(es, first, n, attr, name) && |r| == |es| + n
    ensures ValidTable(r) && KeptUpTo(es, r, |es|) && Children(r, first, n, first + n, attr, name)
  {
    r := Overlaid(es, first, n, attr, name);
    OverlaidKeeps(es, first, n, attr, name);
  }

  lemma KeptFollows(es: seq<Entry>, linked: seq<Entry>, r: seq<Entry>, l: seq<Range>, attr: Attr, name: string)
    requires l != [] && |linked| == |es| + |l| && KeptUpTo(es, linked, |es|) && KeptUpTo(linked, r, |linked|)
    requires Linked(linked, |es|, l) && PieceEntries(linked, |es|, l, attr, name)
    ensures KeptUpTo(es, r, |es|) && Linked(r, |es|, l) && Chain(r, |es|) == l && PieceEntries(r, |es|, l, attr, name)
  {
    LinkedKept(linked, r, |es|, l);
    EntriesKept(linked, r, |es|, l, attr, name);
    KeptTrans(es, linked, r, |es|);
    LinkedChain(r, |es|, l);
  }

  lemma {:induction false} EmittedNothing(es: seq<Entry>, l: seq<Range>, attr: Attr, name: string)
    requires OwnersBelow(l, |es|) && !attr.overlay && NonEmpty(l) == []
    ensures Emitted(es, l, attr, name) == es
    decreases |l|
  {
    if l != [] {
      EmittedNothing(es, l[1..], attr, name);
    }
  }

  predicate AllEmpty(l: seq<Range>, start: int, end: int) {
    forall i :: 0 <= i < |l| ==> start <= l[i].start && l[i].end <= end
  }

  lemma {:induction false} InsertAllEmpty(l: seq<Range>, p: Range, start: int, end: int)
    requires AllEmpty(l, start, end) && end < start && start <= p.start && p.end <= end
    ensures AllEmpty(Insert(l, p), start, end)
  {
    if l != [] {
      assert l[0].end < p.start;
      InsertAllEmpty(l[1..], p, start, end);
    }
  }

  lemma {:induction false} PiecesAllEmpty(es: seq<Entry>, k: nat, start: paddr, end: paddr, container: string)
    requires ValidTable(es) && k <= |es| && end < start
    ensures AllEmpty(Pieces(es, k, start, end, container), start, end)
  {
    if k > 0 {
      PiecesAllEmpty(es, k - 1, start, end, container);
      if Matches(es, k - 1, start, end, container) {
        InsertAllEmpty(Pieces(es, k - 1, start, end, container), Clip(es[k - 1], start, end, k - 1), start, end);
      }
    }
  }

  lemma {:induction false} NonEmptyOfEmpty(l: seq<Range>, start: int, end: int)
    requires AllEmpty(l, start, end) && end < start
    ensures NonEmpty(l) == []
  {
    if l != [] {
      NonEmptyOfEmpty(l[1..], start, end);
    }
  }

  /** A request that ends before it starts changes nothing, whatever it matches.
      Registering memory from a UEFI map makes one such call. */
  lemma EmptyRequest(es: seq<Entry>, start: paddr, end: paddr, attr: Attr, name: string, container: string)
    requires ValidTable(es) && end < start
    ensures Registered(es, start, end, attr, name, container) == (es, NULL_OFF)
  {
    PiecesAllEmpty(es, |es|, start, end, container);
    NonEmptyOfEmpty(Pieces(es, |es|, start, end, container), start, end);
    RegisteredChain(es, start, end, attr, name, container);
  }

  /** The two halves together: following the chain from the returned offset, an address is
      met exactly once if it is requested and an entry of the given name holds it, in a
      piece owned by the last such entry; and no other address is met. */
  lemma RegisteredPartition(es: seq<Entry>, start: paddr, end: paddr, attr: Attr, name: string, container: string, x: int)
    requires ValidTable(es) && Nested(es, start, end, container)
    ensures var (r, first) := Registered(es, start, end, attr, name, container);
            var d := Deepest(es, |es|, start, end, container, x);
            && (d != NULL_OFF <==> exists i :: 0 <= i < |es| && Holds(es, i, start, end, container, x))
            && if first == NULL_OFF then d == NULL_OFF
               else
                 && 0 <= first < |r|
                 && OwnerAt(Chain(r, first), x) == d
                 && Count(Chain(r, first), x) == if d == NULL_OFF then 0 else 1
  {
    RegisteredChain(es, start, end, attr, name, container);
    Partition(es, |es|, start, end, container, x);
    NonEmptyMeaning(Pieces(es, |es|, start, end, container), x);
  }
}
