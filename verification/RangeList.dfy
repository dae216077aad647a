/** The linked list of ranges that `as_add_containing` splits in place.

    Nodes live in an arena and link by index, -1 is the null pointer.  A `list_owner`, the
    address of a link, is the index of the node that holds the link, or -1 for the head. */
module RangeList {
  import opened AddressSpace

  datatype Node = Node(range: Range, next: int)

  /** The nodes `path` are linked in this order, from `head` to the null pointer. */
  ghost predicate Linking(nodes: seq<Node>, head: int, path: seq<nat>) {
    && InArena(nodes, path) && Distinct(path) && head == LinkAt(path, 0)
    && (forall i {:trigger LinkOk(nodes, path, i)} :: 0 <= i < |path| ==> LinkOk(nodes, path, i))
  }

  ghost predicate InArena(nodes: seq<Node>, path: seq<nat>) {
    forall i :: 0 <= i < |path| ==> path[i] < |nodes|
  }

  ghost predicate Distinct(path: seq<nat>) {
    forall i, j :: 0 <= i < j < |path| ==> path[i] != path[j]
  }

  ghost predicate LinkOk(nodes: seq<Node>, path: seq<nat>, i: nat)
    requires i < |path|
  {
    path[i] < |nodes| && nodes[path[i]].next == LinkAt(path, i + 1)
  }

  /** The link that leads to position `i`. */
  ghost function LinkAt(path: seq<nat>, i: nat): int {
    if i < |path| then path[i] else -1
  }

  ghost function Ranges(nodes: seq<Node>, path: seq<nat>): (l: seq<Range>)
    requires InArena(nodes, path)
    ensures |l| == |path|
  {
    seq(|path|, i requires 0 <= i < |path| => nodes[path[i]].range)
  }

  /** The owner of the link that leads to position `k`. */
  ghost function OwnerOf(path: seq<nat>, k: nat): int
    requires k <= |path|
  {
    if k == 0 then -1 else path[k - 1]
  }

  function Inserted<T>(s: seq<T>, k: nat, x: T): (r: seq<T>)
    requires k <= |s|
    ensures |r| == |s| + 1
  {
    s[..k] + [x] + s[k..]
  }

  lemma InsertedAt<T>(s: seq<T>, k: nat, x: T, i: nat)
    requires k <= |s| && i <= |s|
    ensures Inserted(s, k, x)[i] == if i < k then s[i] else if i == k then x else s[i - 1]
  {
  }

  /** The node at position `i` after a new node has been linked in at `k`. */
  ghost predicate PlacedAt(nodes: seq<Node>, path: seq<nat>, after: seq<Node>, p: seq<nat>, k: nat, r: Range, i: nat)
    requires k <= |path| && i < |p| == |path| + 1 && InArena(nodes, path)
  {
    && LinkOk(after, p, i)
    && after[p[i]].range == (if i < k then nodes[path[i]].range else if i == k then r else nodes[path[i - 1]].range)
  }

  /** The new node leads on to what its position led to; every other link is as before,
      except the one that now leads to the new node. */
  lemma PlacedLink(nodes: seq<Node>, head: int, path: seq<nat>, k: nat, r: Range, i: nat)
    requires Linking(nodes, head, path) && k <= |path| && i <= |path|
    ensures PlacedAt(nodes, path, Relinked(nodes, OwnerOf(path, k), |nodes|) + [Node(r, LinkAt(path, k))], Inserted(path, k, |nodes|), k, r, i)
  {
    InsertedAt(path, k, |nodes|, i);
    if i < |path| {
      InsertedAt(path, k, |nodes|, i + 1);
      assert LinkOk(nodes, path, i);
    }
    if i > 0 {
      assert LinkOk(nodes, path, i - 1);
    }
    if 0 < k && i != k - 1 && i < k {
      assert path[i] != path[k - 1];
    } else if 0 < k < i {
      assert path[k - 1] != path[i - 1];
    }
  }

  lemma PlacedDistinct(path: seq<nat>, k: nat, n: nat)
    requires k <= |path| && (forall i :: 0 <= i < |path| ==> path[i] < n) && Distinct(path)
    ensures Distinct(Inserted(path, k, n))
  {
    forall i, j | 0 <= i < j < |path| + 1
      ensures Inserted(path, k, n)[i] != Inserted(path, k, n)[j]
    {
      InsertedAt(path, k, n, i);
      InsertedAt(path, k, n, j);
    }
  }

  lemma PlacedAll(nodes: seq<Node>, path: seq<nat>, after: seq<Node>, p: seq<nat>, k: nat, r: Range)
    requires k <= |path| && |p| == |path| + 1 && InArena(nodes, path)
    requires forall i {:trigger PlacedAt(nodes, path, after, p, k, r, i)} :: 0 <= i < |p| ==> PlacedAt(nodes, path, after, p, k, r, i)
    ensures InArena(after, p) && (forall i {:trigger LinkOk(after, p, i)} :: 0 <= i < |p| ==> LinkOk(after, p, i))
    ensures Ranges(after, p) == Inserted(Ranges(nodes, path), k, r)
  {
    var l := Ranges(nodes, path);
    forall i | 0 <= i < |p|
      ensures p[i] < |after| && LinkOk(after, p, i) && after[p[i]].range == Inserted(l, k, r)[i]
    {
      assert PlacedAt(nodes, path, after, p, k, r, i);
      InsertedAt(l, k, r, i);
    }
  }

  /** Linking a new node in front of position `k`. */
  lemma Placed(nodes: seq<Node>, head: int, path: seq<nat>, k: nat, r: Range)
    requires Linking(nodes, head, path) && k <= |path|
    ensures var p := Inserted(path, k, |nodes|);
            var after := Relinked(nodes, OwnerOf(path, k), |nodes|) + [Node(r, LinkAt(path, k))];
            && Linking(after, if k == 0 then |nodes| else head, p)
            && Ranges(after, p) == Inserted(Ranges(nodes, path), k, r)
  {
    var p := Inserted(path, k, |nodes|);
    var after := Relinked(nodes, OwnerOf(path, k), |nodes|) + [Node(r, LinkAt(path, k))];
    forall i | 0 <= i < |p|
      ensures PlacedAt(nodes, path, after, p, k, r, i)
    {
      PlacedLink(nodes, head, path, k, r, i);
    }
    PlacedAll(nodes, path, after, p, k, r);
    PlacedDistinct(path, k, |nodes|);
    InsertedAt(path, k, |nodes|, 0);
  }

  /** The link owned by `owner` set to `to` (the head is kept elsewhere). */
  function Relinked(nodes: seq<Node>, owner: int, to: int): (r: seq<Node>)
    requires owner < |nodes|
  {
    if owner < 0 then nodes else nodes[owner := nodes[owner].(next := to)]
  }

  /** Changing the range of one node changes the list there and nowhere else. */
  lemma Reranged(nodes: seq<Node>, head: int, path: seq<nat>, k: nat, r: Range)
    requires Linking(nodes, head, path) && k < |path|
    ensures var after := nodes[path[k] := nodes[path[k]].(range := r)];
            Linking(after, head, path) && Ranges(after, path) == Ranges(nodes, path)[k := r]
  {
    var after := nodes[path[k] := nodes[path[k]].(range := r)];
    forall i | 0 <= i < |path|
      ensures LinkOk(after, path, i)
    {
      assert LinkOk(nodes, path, i);
    }
    assert Ranges(after, path) == Ranges(nodes, path)[k := r];
  }

  class List {
    var nodes: seq<Node>
    var head: int
    ghost var path: seq<nat>

    ghost predicate Valid()
      reads this
    {
      Linking(nodes, head, path)
    }

    ghost function Contents(): (l: seq<Range>)
      reads this
      requires Valid()
      ensures |l| == |path|
    {
      Ranges(nodes, path)
    }

    constructor ()
      ensures Valid() && Contents() == []
    {
      nodes, head, path := [], -1, [];
    }

    /** `*list_owner = new` for a new node that takes over the old link. */
    method Place(owner: int, r: Range, ghost k: nat)
      requires Valid() && k <= |path| && owner == OwnerOf(path, k)
      modifies this
      ensures Valid() && path == Inserted(old(path), k, |old(nodes)|)
      ensures Contents() == Inserted(old(Contents()), k, r)
    {
      if k > 0 {
        assert LinkOk(nodes, path, k - 1);
      }
      var to := if owner == -1 then head else nodes[owner].next;
      Placed(nodes, head, path, k, r);
      path := Inserted(path, k, |nodes|);
      if owner == -1 {
        head := |nodes|;
      }
      nodes := Relinked(nodes, owner, |nodes|) + [Node(r, to)];
    }

    /** New fields for the node at hand. */
    method Assign(curr: nat, r: Range, ghost k: nat)
      requires Valid() && k < |path| && curr == path[k]
      modifies `nodes
      ensures Valid() && Contents() == old(Contents())[k := r]
    {
      Reranged(nodes, head, path, k, r);
      nodes := nodes[curr := nodes[curr].(range := r)];
    }

    /** A new node behind the one that follows the node at hand. */
    method PlaceSecond(curr: nat, r: Range, ghost k: nat)
      requires Valid() && k + 1 < |path| && curr == path[k]
      modifies this
      ensures Valid() && Contents() == Inserted(old(Contents()), k + 2, r)
    {
      assert LinkOk(nodes, path, k);
      Place(nodes[curr].next, r, k + 2);
    }

    /** The node at hand holds the start of the piece: it is split in place. */
    method SplitNode(owner: int, curr: nat, p: Range, ghost k: nat)
      requires Valid() && k < |path| && curr == path[k] && owner == OwnerOf(path, k) && In(p.start, nodes[curr].range)
      modifies this
      ensures Valid() && Contents() == old(Contents())[..k] + Split(old(Contents())[k], p) + old(Contents())[k + 1..]
    {
      ghost var l := Contents();
      var c := nodes[curr].range;
      SplitSteps(l, k, p);
      if c.start == p.start && c.end == p.end {
        Assign(curr, c.(owner := p.owner), k);
        return;
      }
      if c.start == p.start {
        Assign(curr, c.(start := Next(p.end)), k);
        Place(owner, p, k);
        return;
      }
      Assign(curr, c.(end := p.start - 1), k);
      Place(curr, p, k + 1);
      if c.end != p.end {
        InsertedAt(old(path), k + 1, |old(nodes)|, k);
        PlaceSecond(curr, Range(Next(p.end), c.end, c.owner), k);
      }
    }

    /** The walk along the links to the node that holds the start of the piece, or to the end. */
    method Insert(p: Range)
      requires Valid()
      modifies this
      ensures Valid() && Contents() == AddressSpace.Insert(old(Contents()), p)
    {
      ghost var l := Contents();
      var owner, curr := -1, head;
      ghost var k := 0;
      while curr != -1 && !In(p.start, nodes[curr].range)
        invariant Valid() && Contents() == l && k <= |l| && owner == OwnerOf(path, k) && curr == LinkAt(path, k)
        invariant AddressSpace.Insert(l, p) == l[..k] + AddressSpace.Insert(l[k..], p)
        decreases |l| - k
      {
        InsertPasses(l, p, k);
        assert LinkOk(nodes, path, k);
        owner, curr, k := curr, nodes[curr].next, k + 1;
      }
      InsertHere(l, p, k);
      if curr == -1 {
        Place(owner, p, k);
      } else {
        SplitNode(owner, curr, p, k);
      }
    }
  }

  /** The branches of the split, on values. */
  lemma SplitSteps(l: seq<Range>, k: nat, p: Range)
    requires k < |l| && In(p.start, l[k])
    ensures var c, r := l[k], l[..k] + Split(l[k], p) + l[k + 1..];
            if c.start == p.start && c.end == p.end then r == l[k := c.(owner := p.owner)]
            else if c.start == p.start then r == Inserted(l[k := c.(start := Next(p.end))], k, p)
            else
              var cut := Inserted(l[k := c.(end := p.start - 1)], k + 1, p);
              r == if c.end == p.end then cut else Inserted(cut, k + 2, Range(Next(p.end), c.end, c.owner))
  {
  }

  /** A list taken apart at `k`. */
  lemma Apart(l: seq<Range>, k: nat)
    requires k < |l|
    ensures l[k..][0] == l[k] && l[k..][1..] == l[k + 1..] && l[..k + 1] == l[..k] + [l[k]]
  {
  }

  lemma Assoc(a: seq<Range>, b: seq<Range>, c: seq<Range>)
    ensures (a + b) + c == a + (b + c)
  {
  }

  lemma InsertPasses(l: seq<Range>, p: Range, k: nat)
    requires k < |l| && !In(p.start, l[k]) && AddressSpace.Insert(l, p) == l[..k] + AddressSpace.Insert(l[k..], p)
    ensures AddressSpace.Insert(l, p) == l[..k + 1] + AddressSpace.Insert(l[k + 1..], p)
  {
    Apart(l, k);
    assert AddressSpace.Insert(l[k..], p) == [l[k]] + AddressSpace.Insert(l[k + 1..], p);
    Assoc(l[..k], [l[k]], AddressSpace.Insert(l[k + 1..], p));
  }

  lemma InsertHere(l: seq<Range>, p: Range, k: nat)
    requires k <= |l| && (k < |l| ==> In(p.start, l[k])) && AddressSpace.Insert(l, p) == l[..k] + AddressSpace.Insert(l[k..], p)
    ensures k == |l| ==> AddressSpace.Insert(l, p) == Inserted(l, k, p)
    ensures k < |l| ==> AddressSpace.Insert(l, p) == l[..k] + Split(l[k], p) + l[k + 1..]
  {
    if k < |l| {
      Apart(l, k);
      assert AddressSpace.Insert(l[k..], p) == Split(l[k], p) + l[k + 1..];
      Assoc(l[..k], Split(l[k], p), l[k + 1..]);
    }
  }
}
