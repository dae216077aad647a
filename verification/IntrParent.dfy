/** The search for the interrupt parent of a device tree node and its one-entry cache,
    over any number of unchanging trees.

    libfdt is the environment: a tree is what its queries answer.  Section 2.4 of the
    Devicetree Specification describes the search: an `interrupt-parent` property names
    the parent by phandle, otherwise the parent in the tree is meant. */
module IntrParent {
  import opened Options

  const FDT_ERR_NOTFOUND := 1
  const FDT_ERR_BADOFFSET := 4
  const FDT_ERR_BADSTRUCTURE := 11
  const FDT_ERR_BADNCELLS := 14
  const FDT_MAX_NCELLS := 4
  const NO_PHANDLE: nat := 0xFFFF_FFFF

  /** A property: missing (with libfdt's negative code), or its length and first word. */
  datatype Prop = Missing(err: int) | Value(len: nat, word: nat)

  /** What libfdt answers about one tree.  `rank` bounds the searches of an acyclic tree. */
  datatype Tree = Tree(
    interruptParent: int -> Prop,
    interruptCells: int -> Prop,
    byPhandle: nat -> int,
    above: int -> int,
    rank: int -> nat)

  datatype Answer = Found(parent: int, cells: int) | Failed(code: int)

  datatype Entry = Entry(fdt: int, phandle: nat, parent: int, cells: int)

  /** The code of `fdt_get_u32` at offset 0. */
  function GetU32(p: Prop): (r: int)
    ensures r == 0 ==> p.Value? && p.len == 4
    ensures r > 0 ==> p.Value? && p.len > 4
  {
    match p
    case Missing(err) => if err < 0 then err else -FDT_ERR_NOTFOUND
    case Value(len, _) => if len < 4 then -FDT_ERR_BADSTRUCTURE else if len > 4 then 4 else 0
  }

  /** Where the search goes from a node: a node, or a negative code. */
  function Next(t: Tree, node: int): int {
    var p := t.interruptParent(node);
    var r := GetU32(p);
    if r == 0 then t.byPhandle(p.word) else if r == -FDT_ERR_NOTFOUND then t.above(node) else r
  }

  function CellsCode(t: Tree, node: int): int { GetU32(t.interruptCells(node)) }

  predicate Usable(t: Tree, node: int) {
    CellsCode(t, node) == 0 && 0 < t.interruptCells(node).word <= FDT_MAX_NCELLS
  }

  /** No search goes round in circles. */
  ghost predicate Acyclic(t: Tree) {
    forall n :: Next(t, n) >= 0 && CellsCode(t, Next(t, n)) == -FDT_ERR_NOTFOUND ==> t.rank(Next(t, n)) < t.rank(n)
  }

  // ---------------------------------------------------------------- the search without a cache

  ghost function Search(t: Tree, node: int): Answer
    requires Acyclic(t)
    decreases t.rank(node)
  {
    var n := Next(t, node);
    if n < 0 then Failed(n)
    else if CellsCode(t, n) == -FDT_ERR_NOTFOUND then Search(t, n)
    else if CellsCode(t, n) < 0 then Failed(CellsCode(t, n))
    else if Usable(t, n) then Found(n, t.interruptCells(n).word)
    else Failed(-FDT_ERR_BADNCELLS)
  }

  // ---------------------------------------------------------------- what the search computes

  /** The code of a property that libfdt does not give. */
  function Code(err: int): int { if err < 0 then err else -FDT_ERR_NOTFOUND }

  /** `p` is meant by the node: by phandle, or as its parent in the tree if there is no
      property; an oversized property means the offset 4. */
  predicate ParentOf(t: Tree, node: int, p: int) {
    match t.interruptParent(node)
    case Missing(err) => Code(err) == -FDT_ERR_NOTFOUND && p == t.above(node)
    case Value(len, word) => (len == 4 && p == t.byPhandle(word)) || (len > 4 && p == 4)
  }

  /** A parent that leaves the number of cells to its own parent. */
  predicate PassesOn(t: Tree, node: int, p: int) {
    ParentOf(t, node, p) && p >= 0 && t.interruptCells(p).Missing? && Code(t.interruptCells(p).err) == -FDT_ERR_NOTFOUND
  }

  /** The search ends at a node with this answer: the parent and its cells, one to four of
      them; a parent that is not found; or a bad property. */
  ghost predicate EndsAt(t: Tree, node: int, a: Answer) {
    match a
    case Found(p, c) => ParentOf(t, node, p) && p >= 0 && 1 <= c <= FDT_MAX_NCELLS && t.interruptCells(p) == Value(4, c)
    case Failed(e) =>
      || (t.interruptParent(node).Missing? && e == Code(t.interruptParent(node).err) != -FDT_ERR_NOTFOUND)
      || (t.interruptParent(node).Value? && t.interruptParent(node).len < 4 && e == -FDT_ERR_BADSTRUCTURE)
      || (e < 0 && ParentOf(t, node, e))
      || exists p :: ParentOf(t, node, p) && p >= 0 && BadCells(t.interruptCells(p), e)
  }

  predicate BadCells(cells: Prop, e: int) {
    match cells
    case Missing(err) => e == Code(err) != -FDT_ERR_NOTFOUND
    case Value(len, word) =>
      if len < 4 then e == -FDT_ERR_BADSTRUCTURE else (len > 4 || word == 0 || word > FDT_MAX_NCELLS) && e == -FDT_ERR_BADNCELLS
  }

  /** The nodes that the search visits. */
  predicate Visits(t: Tree, node: int, path: seq<int>)
    decreases |path|
  {
    && path != [] && path[0] == node
    && (|path| > 1 ==> PassesOn(t, node, path[1]) && Visits(t, path[1], path[1..]))
  }

  lemma ParentIsNext(t: Tree, node: int, p: int)
    requires p >= 0
    ensures ParentOf(t, node, p) <==> Next(t, node) == p
  {
  }

  lemma EndsExactly(t: Tree, node: int, a: Answer)
    requires Acyclic(t)
    ensures EndsAt(t, node, a) <==> Search(t, node) == a && !(Next(t, node) >= 0 && CellsCode(t, Next(t, node)) == -FDT_ERR_NOTFOUND)
  {
    var n := Next(t, node);
    if n >= 0 {
      ParentIsNext(t, node, n);
    }
    if p :| a.Failed? && ParentOf(t, node, p) && p >= 0 && BadCells(t.interruptCells(p), a.code) {
      ParentIsNext(t, node, p);
    }
  }

  lemma {:induction false} SearchVisits(t: Tree, node: int) returns (path: seq<int>)
    requires Acyclic(t)
    ensures Visits(t, node, path) && EndsAt(t, path[|path| - 1], Search(t, node))
    decreases t.rank(node)
  {
    var n := Next(t, node);
    if n >= 0 && CellsCode(t, n) == -FDT_ERR_NOTFOUND {
      ParentIsNext(t, node, n);
      var rest := SearchVisits(t, n);
      path := [node] + rest;
      assert path[1..] == rest && path[|path| - 1] == rest[|rest| - 1];
    } else {
      path := [node];
      EndsExactly(t, node, Search(t, node));
    }
  }

  lemma {:induction false} VisitsSearch(t: Tree, node: int, path: seq<int>, a: Answer)
    requires Acyclic(t) && Visits(t, node, path) && EndsAt(t, path[|path| - 1], a)
    ensures Search(t, node) == a
    decreases |path|
  {
    if |path| == 1 {
      EndsExactly(t, node, a);
    } else {
      ParentIsNext(t, node, path[1]);
      VisitsSearch(t, path[1], path[1..], a);
    }
  }

  /** The search goes from parent to parent as long as they leave the cells open, and its
      answer is the one at the end of that path. */
  lemma SearchIs(t: Tree, node: int, a: Answer)
    requires Acyclic(t)
    ensures Search(t, node) == a <==> exists path :: Visits(t, node, path) && EndsAt(t, path[|path| - 1], a)
  {
    if Search(t, node) == a {
      var path := SearchVisits(t, node);
    }
    if path :| Visits(t, node, path) && EndsAt(t, path[|path| - 1], a) {
      VisitsSearch(t, node, path, a);
    }
  }

  // ---------------------------------------------------------------- the search with the cache

  predicate Names(t: Tree, node: int, phandle: nat) {
    GetU32(t.interruptParent(node)) == 0 && t.interruptParent(node).word == phandle
  }

  /** An oversized `interrupt-parent`: its first word is taken as the phandle, but the
      search goes on at the positive code of `fdt_get_u32` as if that were a node. */
  predicate Oversized(t: Tree, node: int, phandle: nat) {
    GetU32(t.interruptParent(node)) > 0 && t.interruptParent(node).word == phandle
  }

  /** The local `phandle` after reading a node. */
  function PhandleAt(t: Tree, node: int): nat {
    var p := t.interruptParent(node);
    if GetU32(p) >= 0 then p.word else NO_PHANDLE
  }

  predicate Hit(cache: Option<Entry>, fdt: int, t: Tree, node: int) {
    cache.Some? && cache.value.fdt == fdt && Names(t, node, cache.value.phandle)
  }

  ghost function Cached(cache: Option<Entry>, fdt: int, t: Tree, node: int): (Answer, Option<Entry>)
    requires Acyclic(t)
    decreases t.rank(node)
  {
    if Hit(cache, fdt, t, node) then (Found(cache.value.parent, cache.value.cells), cache)
    else
      var n := Next(t, node);
      if n < 0 then (Failed(n), cache)
      else if CellsCode(t, n) == -FDT_ERR_NOTFOUND then Cached(cache, fdt, t, n)
      else if CellsCode(t, n) < 0 then (Failed(CellsCode(t, n)), cache)
      else if !Usable(t, n) then (Failed(-FDT_ERR_BADNCELLS), cache)
      else
        var c := t.interruptCells(n).word;
        (Found(n, c), if PhandleAt(t, node) != NO_PHANDLE then Some(Entry(fdt, PhandleAt(t, node), n, c)) else cache)
  }

  /** The entry answers as the search would for every node that names its phandle. */
  ghost predicate Sound(e: Entry, trees: int -> Tree)
    requires Acyclic(trees(e.fdt))
  {
    var t := trees(e.fdt);
    forall m :: Names(t, m, e.phandle) ==> Search(t, m) == Found(e.parent, e.cells)
  }

  ghost predicate CacheSound(cache: Option<Entry>, trees: int -> Tree)
    requires forall f :: Acyclic(trees(f))
  {
    cache.Some? ==> Sound(cache.value, trees)
  }

  /** The condition: where an oversized property makes the search enter a usable node at
      the offset 4, no node that names the same phandle properly has another parent. */
  ghost predicate Harmless(t: Tree)
    requires Acyclic(t)
  {
    forall n, m, h :: Oversized(t, n, h) && h != NO_PHANDLE && Usable(t, 4) && Names(t, m, h)
      ==> Search(t, m) == Found(4, t.interruptCells(4).word)
  }

  /** A new entry is sound. */
  lemma NewEntrySound(fdt: int, trees: int -> Tree, node: int)
    requires forall f :: Acyclic(trees(f))
    requires Harmless(trees(fdt))
    requires var t := trees(fdt); Next(t, node) >= 0 && Usable(t, Next(t, node)) && PhandleAt(t, node) != NO_PHANDLE
    ensures var t, n := trees(fdt), Next(trees(fdt), node);
            Sound(Entry(fdt, PhandleAt(t, node), n, t.interruptCells(n).word), trees)
  {
    var t, n, h := trees(fdt), Next(trees(fdt), node), PhandleAt(trees(fdt), node);
    forall m | Names(t, m, h)
      ensures Search(t, m) == Found(n, t.interruptCells(n).word)
    {
      if Oversized(t, node, h) {
        assert n == 4;
      } else {
        assert Next(t, m) == n;
      }
    }
  }

  /** One call: the answer is the search's and the cache stays sound. */
  lemma {:induction false} CallTransparent(cache: Option<Entry>, fdt: int, trees: int -> Tree, node: int)
    requires forall f :: Acyclic(trees(f))
    requires Harmless(trees(fdt)) && CacheSound(cache, trees)
    ensures var (a, c) := Cached(cache, fdt, trees(fdt), node);
            a == Search(trees(fdt), node) && CacheSound(c, trees)
    decreases trees(fdt).rank(node)
  {
    var t := trees(fdt);
    if !Hit(cache, fdt, t, node) {
      var n := Next(t, node);
      if n >= 0 && CellsCode(t, n) == -FDT_ERR_NOTFOUND {
        CallTransparent(cache, fdt, trees, n);
      } else if n >= 0 && Usable(t, n) && PhandleAt(t, node) != NO_PHANDLE {
        NewEntrySound(fdt, trees, node);
      }
    }
  }

  // ---------------------------------------------------------------- runs of calls

  datatype Call = Call(fdt: int, node: int)

  ghost function Answers(cache: Option<Entry>, trees: int -> Tree, calls: seq<Call>): (r: seq<Answer>)
    requires forall f :: Acyclic(trees(f))
    ensures |r| == |calls|
    decreases |calls|
  {
    if calls == [] then []
    else
      var (a, c) := Cached(cache, calls[0].fdt, trees(calls[0].fdt), calls[0].node);
      [a] + Answers(c, trees, calls[1..])
  }

  ghost function Searches(trees: int -> Tree, calls: seq<Call>): (r: seq<Answer>)
    requires forall f :: Acyclic(trees(f))
    ensures |r| == |calls|
  {
    if calls == [] then []
    else [Search(trees(calls[0].fdt), calls[0].node)] + Searches(trees, calls[1..])
  }

  /** The cache cannot be noticed, whatever is called in whatever order. */
  ghost predicate Transparent(trees: int -> Tree)
    requires forall f :: Acyclic(trees(f))
  {
    forall calls :: Answers(None, trees, calls) == Searches(trees, calls)
  }

  lemma {:induction false} RunTransparent(cache: Option<Entry>, trees: int -> Tree, calls: seq<Call>)
    requires forall f :: Acyclic(trees(f))
    requires forall f :: Harmless(trees(f))
    requires CacheSound(cache, trees)
    ensures Answers(cache, trees, calls) == Searches(trees, calls)
    decreases |calls|
  {
    if calls != [] {
      CallTransparent(cache, calls[0].fdt, trees, calls[0].node);
      var (a, c) := Cached(cache, calls[0].fdt, trees(calls[0].fdt), calls[0].node);
      RunTransparent(c, trees, calls[1..]);
    }
  }

  /** Two calls expose a harmful pair of nodes. */
  lemma PairExposed(trees: int -> Tree, fdt: int, n: int, m: int, h: nat)
    requires forall f :: Acyclic(trees(f))
    requires var t := trees(fdt); Oversized(t, n, h) && h != NO_PHANDLE && Usable(t, 4) && Names(t, m, h)
    requires Transparent(trees)
    ensures Search(trees(fdt), m) == Found(4, trees(fdt).interruptCells(4).word)
  {
    var t := trees(fdt);
    var calls := [Call(fdt, n), Call(fdt, m)];
    var c := Some(Entry(fdt, h, 4, t.interruptCells(4).word));
    assert !Hit(None, fdt, t, n) && Next(t, n) == 4 && PhandleAt(t, n) == h;
    assert Cached(None, fdt, t, n).1 == c;
    assert Hit(c, fdt, t, m);
    assert calls[1..] == [Call(fdt, m)];
    assert Answers(None, trees, calls)[1] == Answers(c, trees, calls[1..])[0] == Found(4, t.interruptCells(4).word);
    assert Searches(trees, calls)[1] == Searches(trees, calls[1..])[0] == Search(t, m);
  }

  /** Exactly when the cache is transparent. */
  lemma TransparentExactly(trees: int -> Tree)
    requires forall f :: Acyclic(trees(f))
    ensures Transparent(trees) <==> forall f :: Harmless(trees(f))
  {
    if forall f :: Harmless(trees(f)) {
      forall calls
        ensures Answers(None, trees, calls) == Searches(trees, calls)
      {
        RunTransparent(None, trees, calls);
      }
    }
    if Transparent(trees) {
      forall f
        ensures Harmless(trees(f))
      {
        var t := trees(f);
        forall n, m, h | Oversized(t, n, h) && h != NO_PHANDLE && Usable(t, 4) && Names(t, m, h)
          ensures Search(t, m) == Found(4, t.interruptCells(4).word)
        {
          PairExposed(trees, f, n, m, h);
        }
      }
    }
  }

  /** In a blob whose structure block begins with the root node, the offset 4 lies inside
      the header of that node and every query there fails; then the cache is transparent. */
  lemma FlattenedTransparent(trees: int -> Tree)
    requires forall f :: Acyclic(trees(f))
    requires forall f :: CellsCode(trees(f), 4) < 0
    ensures Transparent(trees)
  {
    TransparentExactly(trees);
  }

  /** What such a blob gives for an oversized property: the error of the query at the
      offset 4, with or without a cache, and the cache is not touched. */
  lemma OversizedFails(cache: Option<Entry>, fdt: int, t: Tree, n: int, h: nat)
    requires Acyclic(t) && Oversized(t, n, h)
    requires CellsCode(t, 4) < 0 && CellsCode(t, 4) != -FDT_ERR_NOTFOUND
    ensures Cached(cache, fdt, t, n) == (Failed(CellsCode(t, 4)), cache)
    ensures Search(t, n) == Failed(CellsCode(t, 4))
  {
  }

  /** A blob that shows the difference.  A leading NOP tag puts the root at the offset 4,
      with `#interrupt-cells`; behind it lie a node at 28 with the oversized property
      <1 0>, a node at 60 with the property <1>, and at 88 the controller with the phandle
      1.  The node 60 belongs to 88, but after a call for 28 the cache says 4. */
  function NopTree(): Tree {
    Tree(n => if n == 28 then Value(8, 1) else if n == 60 then Value(4, 1)
              else if n == 4 || n == 88 then Missing(-FDT_ERR_NOTFOUND) else Missing(-FDT_ERR_BADOFFSET),
         n => if n == 4 || n == 88 then Value(4, 2)
              else if n == 28 || n == 60 then Missing(-FDT_ERR_NOTFOUND) else Missing(-FDT_ERR_BADOFFSET),
         h => if h == 1 then 88 else -FDT_ERR_NOTFOUND,
         n => if n == 28 || n == 60 || n == 88 then 4 else if n == 4 then -FDT_ERR_NOTFOUND else -FDT_ERR_BADOFFSET,
         n => if n == 4 then 0 else 1)
  }

  lemma OversizedPoisons()
    ensures Acyclic(NopTree()) && Search(NopTree(), 60) == Found(88, 2)
    ensures Cached(Cached(None, 0, NopTree(), 28).1, 0, NopTree(), 60).0 == Found(4, 2)
    ensures !Harmless(NopTree())
  {
    var t := NopTree();
    assert Oversized(t, 28, 1) && Names(t, 60, 1) && Usable(t, 4);
  }

  /** The function with its static variables. */
  class Lookup {
    var cache: Option<Entry>

    constructor ()
      ensures cache == None
    {
      cache := None;
    }

    method GetIntrCells(fdt: int, t: Tree, start: int) returns (a: Answer)
      requires Acyclic(t)
      modifies this
      ensures (a, cache) == Cached(old(cache), fdt, t, start)
    {
      var node := start;
      while true
        invariant cache == old(cache)
        invariant Cached(cache, fdt, t, node) == Cached(old(cache), fdt, t, start)
        decreases t.rank(node)
      {
        var phandle := NO_PHANDLE;
        var p := t.interruptParent(node);
        var r := GetU32(p);
        if r >= 0 {
          phandle := p.word;
        }
        if r == 0 {
          if cache.Some? && cache.value.fdt == fdt && phandle == cache.value.phandle {
            return Found(cache.value.parent, cache.value.cells);
          }
          r := t.byPhandle(phandle);
        } else if r == -FDT_ERR_NOTFOUND {
          phandle := NO_PHANDLE;
          r := t.above(node);
        }
        if r < 0 {
          return Failed(r);
        }
        var from := node;
        node := r;
        assert node == Next(t, from);
        var q := t.interruptCells(node);
        r := GetU32(q);
        if r >= 0 {
          if r != 0 || q.word <= 0 || q.word > FDT_MAX_NCELLS {
            return Failed(-FDT_ERR_BADNCELLS);
          }
          if phandle != NO_PHANDLE {
            cache := Some(Entry(fdt, phandle, node, q.word));
          }
          return Found(node, q.word);
        }
        if r != -FDT_ERR_NOTFOUND {
          return Failed(r);
        }
      }
    }
  }
}
