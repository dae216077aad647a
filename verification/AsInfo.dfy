/** The imperative side of the address-space table: the routines of `as_*.c`
    as methods on the growing section, each tied to its value-level meaning. */
module AsInfo {
  import opened AddressSpace
  import RangeList

  /** The entry at which a walk along CONTINUED stops. */
  function ChainLast(es: seq<Entry>, off: nat): (last: nat)
    requires off < |es|
    ensures off <= last < |es|
    decreases |es| - off
  {
    if es[off].attr.continued && off + 1 < |es| then ChainLast(es, off + 1) else off
  }

  lemma {:induction false} ChainLastIs(es: seq<Entry>, off: nat)
    requires off < |es|
    ensures |Chain(es, off)| == ChainLast(es, off) - off + 1
    ensures forall i :: off <= i < ChainLast(es, off) ==> es[i].attr.continued
    decreases |es| - off
  {
    if es[off].attr.continued && off + 1 < |es| {
      ChainLastIs(es, off + 1);
    }
  }

  /** Entries without a match in between leave the list of pieces alone. */
  lemma {:induction false} PiecesSkip(es: seq<Entry>, a: nat, b: nat, start: paddr, end: paddr, container: string)
    requires ValidTable(es) && a <= b <= |es|
    requires forall i :: a <= i < b ==> !Matches(es, i, start, end, container)
    ensures Pieces(es, b, start, end, container) == Pieces(es, a, start, end, container)
  {
    if a < b {
      PiecesSkip(es, a, b - 1, start, end, container);
    }
  }

  /** What the second loop leaves: all new entries are marked as continued. */
  lemma EmittedContinued(es: seq<Entry>, start: paddr, end: paddr, attr: Attr, name: string, container: string)
    requires ValidTable(es)
    ensures var l := Pieces(es, |es|, start, end, container);
            && OwnersBelow(l, |es|)
            && var r := Emitted(es, l, PieceAttr(attr), name);
               && |r| >= |es| && (forall i :: |es| <= i < |r| ==> r[i].attr.continued)
               && Registered(es, start, end, attr, name, container) == Finished(|es|, r, attr, name)
  {
    PiecesOwners(es, |es|, start, end, container);
    EmittedTail(es, |es|, Pieces(es, |es|, start, end, container), PieceAttr(attr), name);
  }

  class AsTable {
    var entries: seq<Entry>

    ghost predicate Valid()
      reads this
    {
      ValidTable(entries)
    }

    constructor ()
      ensures Valid() && entries == []
    {
      entries := [];
    }

    method MatchName(i: nat, name: string) returns (b: bool)
      requires Valid() && i < |entries|
      ensures b <==> Named(entries, i, name)
    {
      var at: nat := i;
      while true
        invariant at < |entries|
        invariant Named(entries, i, name) <==> Named(entries, at, name)
        decreases at
      {
        if entries[at].name == name {
          return true;
        }
        if entries[at].owner == NULL_OFF {
          return false;
        }
        at := entries[at].owner;
      }
    }

    /** The next match after `off` (from the start of the table if it is null). */
    method FindContaining(off: int, start: paddr, end: paddr, container: string) returns (r: int)
      requires Valid() && (off == NULL_OFF || 0 <= off < |entries|)
      ensures r == NULL_OFF || (off < r < |entries| && Matches(entries, r, start, end, container))
      ensures forall i :: off < i < (if r == NULL_OFF then |entries| else r) ==> !Matches(entries, i, start, end, container)
    {
      var at := if off != NULL_OFF then off + 1 else 0;
      while true
        invariant off < at <= |entries| && 0 <= at
        invariant forall i :: off < i < at ==> !Matches(entries, i, start, end, container)
        decreases |entries| - at
      {
        if at >= |entries| {
          return NULL_OFF;
        }
        var named := MatchName(at, container);
        if named && Touches(entries[at], start, end) {
          break;
        }
        at := at + 1;
      }
      return at;
    }

    method Add64(start: paddr, end: paddr, attr: Attr, name: string, owner: int) returns (off: nat)
      requires Valid() && (owner == NULL_OFF || 0 <= owner < |entries|)
      modifies this
      ensures off == |old(entries)| && entries == Added(old(entries), start, end, attr, name, owner)
      ensures Valid()
      decreases attr.overlay
    {
      off := |entries|;
      entries := entries + [Entry(start, end, owner, name, Stored(attr), PRIORITY_DEFAULT)];
      if owner != NULL_OFF {
        entries := entries[owner := WithKids(entries[owner])];
      }
      if attr.overlay {
        var _ := Add64(start, end, attr.(overlay := false), "io", off);
      }
    }

    /** The first loop: the list of pieces of all matching containers. */
    method CollectPieces(start: paddr, end: paddr, container: string) returns (list: RangeList.List)
      requires Valid()
      ensures fresh(list) && list.Valid() && list.Contents() == Pieces(entries, |entries|, start, end, container)
    {
      list := new RangeList.List();
      var owner := NULL_OFF;
      while true
        invariant owner == NULL_OFF || 0 <= owner < |entries|
        invariant fresh(list) && list.Valid() && list.Contents() == Pieces(entries, owner + 1, start, end, container)
        decreases |entries| - owner
      {
        var next := FindContaining(owner, start, end, container);
        if next == NULL_OFF {
          PiecesSkip(entries, owner + 1, |entries|, start, end, container);
          break;
        }
        PiecesSkip(entries, owner + 1, next, start, end, container);
        list.Insert(Clip(entries[next], start, end, next));
        owner := next;
      }
    }

    /** The second loop: along the links, one entry per non-empty piece. */
    method EmitPieces(list: RangeList.List, attr: Attr, name: string) returns (first: int)
      requires Valid() && list.Valid() && OwnersBelow(list.Contents(), |entries|) && !attr.overlay
      modifies this
      ensures Valid() && entries == Emitted(old(entries), old(list.Contents()), attr, name)
      ensures first == if |entries| == |old(entries)| then NULL_OFF else |old(entries)|
    {
      first := NULL_OFF;
      ghost var l := list.Contents();
      ghost var k := 0;
      var curr := list.head;
      while curr != -1
        invariant 0 <= k <= |l| && list.Valid() && list.Contents() == l && curr == RangeList.LinkAt(list.path, k)
        invariant Valid() && |entries| >= |old(entries)|
        invariant OwnersBelow(l[k..], |entries|)
        invariant Emitted(old(entries), l, attr, name) == Emitted(entries, l[k..], attr, name)
        invariant first == if |entries| == |old(entries)| then NULL_OFF else |old(entries)|
        decreases |l| - k
      {
        assert l[k..][0] == l[k] && l[k..][1..] == l[k + 1..];
        assert RangeList.LinkOk(list.nodes, list.path, k);
        var r := list.nodes[curr].range;
        if r.start <= r.end {
          var off := Add64(r.start, r.end, attr, name, r.owner);
          if first == NULL_OFF {
            first := off;
          }
        }
        curr := list.nodes[curr].next;
        k := k + 1;
      }
    }

    /** The third loop: an overlay child for every piece of the chain. */
    method OverlayPieces(first: nat, ghost n: nat, attr: Attr, name: string)
      requires Valid() && n > 0 && first + n == |entries| && !attr.overlay
      requires forall i :: first <= i < |entries| ==> (entries[i].attr.continued <==> i + 1 < |entries|)
      modifies this
      ensures Valid() && entries == Overlaid(old(entries), first, n, attr, name)
    {
      var off := first;
      while true
        invariant first <= off < first + n
        invariant entries == Overlaid(old(entries), first, off - first, attr, name)
        decreases first + n - off
      {
        OverlaidKeeps(old(entries), first, off - first, attr, name);
        var as_ := entries[off];
        assert SameButKids(old(entries)[off], as_);
        var _ := Add64(as_.start, as_.end, attr, name, off);
        if !as_.attr.continued {
          break;
        }
        off := off + 1;
      }
    }

    /** The last steps: the last piece ends the chain, then the overlays. */
    method FinishChain(first: nat, attr: Attr, name: string)
      requires Valid() && first < |entries| && (forall i :: first <= i < |entries| ==> entries[i].attr.continued)
      modifies this
      ensures Valid() && (entries, first) == Finished(first, old(entries), attr, name)
    {
      var last := |entries| - 1;
      entries := entries[last := Uncontinued(entries[last])];
      if attr.overlay {
        OverlayPieces(first, |entries| - first, attr.(overlay := false), name);
      }
    }

    method AddContaining(start: paddr, end: paddr, attr: Attr, name: string, container: string) returns (first: int)
      requires Valid()
      modifies this
      ensures Valid() && (entries, first) == Registered(old(entries), start, end, attr, name, container)
    {
      ghost var was := entries;
      var list := CollectPieces(start, end, container);
      EmittedContinued(was, start, end, attr, name, container);
      first := EmitPieces(list, attr.(overlay := false, continued := true), name);
      if first != NULL_OFF {
        FinishChain(first, attr, name);
      }
    }

    /** Every entry of the chain from `off` gets the priority, and no other entry. */
    method SetPriority(off: nat, priority: int)
      requires off < |entries| && !entries[ChainLast(entries, off)].attr.continued
      modifies this
      ensures |entries| == |old(entries)|
      ensures forall i :: 0 <= i < |entries| ==>
        entries[i] == if off <= i <= ChainLast(old(entries), off) then old(entries)[i].(priority := priority) else old(entries)[i]
    {
      ChainLastIs(entries, off);
      var at := off;
      while true
        invariant off <= at <= ChainLast(old(entries), off) < |entries| == |old(entries)|
        invariant forall i :: 0 <= i < |entries| ==>
          entries[i] == if off <= i < at then old(entries)[i].(priority := priority) else old(entries)[i]
        decreases |entries| - at
      {
        entries := entries[at := entries[at].(priority := priority)];
        if !entries[at].attr.continued {
          break;
        }
        at := at + 1;
      }
    }
  }

  /** What `as_set_priority` reaches from the offset that `as_add_containing` returned:
      the last of the pieces, and the walk stops there. */
  lemma PriorityReachesPieces(es: seq<Entry>, start: paddr, end: paddr, attr: Attr, name: string, container: string)
    requires ValidTable(es) && NonEmpty(Pieces(es, |es|, start, end, container)) != []
    ensures var (r, first) := Registered(es, start, end, attr, name, container);
            && 0 <= first < |r|
            && ChainLast(r, first) == first + |NonEmpty(Pieces(es, |es|, start, end, container))| - 1
            && !r[ChainLast(r, first)].attr.continued
  {
    RegisteredChain(es, start, end, attr, name, container);
    var (r, first) := Registered(es, start, end, attr, name, container);
    ChainLastIs(r, first);
  }
}
