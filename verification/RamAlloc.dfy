/** `ram.c`: the RAM list and the avoid list as the routines of the startup library update
    them, and what holds after any sequence of calls. */
module RamAlloc {
  import opened Options
  import opened RamMap
  import opened RamRuns

  /** Entries of the two arrays, terminators included. */
  const MAX_RAM := 192
  const MAX_AVOID := 64

  // ---------------------------------------------------------------- lists, on values

  /** Taking the first block off a list of two or three parts. */
  lemma Two(p: seq<Block>, q: seq<Block>)
    ensures p == [] ==> p + q == q
    ensures p != [] ==> (p + q)[0] == p[0] && (p + q)[1..] == p[1..] + q && p + q == [p[0]] + (p[1..] + q)
  {
  }

  lemma Three(p: seq<Block>, m: seq<Block>, q: seq<Block>)
    ensures p == [] ==> p + m + q == m + q
    ensures p != [] ==>
      && (p + m + q)[0] == p[0] && (p + m + q)[1..] == p[1..] + m + q
      && p + m + q == [p[0]] + (p[1..] + m + q)
  {
    Two(p, m);
    Two(p + m, q);
  }

  lemma {:induction false} PutIs(l: seq<Block>, b: Block, k: nat)
    requires k <= |l| && (forall i :: 0 <= i < k ==> l[i].addr <= b.addr) && (k < |l| ==> l[k].addr > b.addr)
    ensures Put(l, b) == l[..k] + [b] + l[k..]
  {
    if k > 0 {
      PutIs(l[1..], b, k - 1);
      assert l[..k] == [l[0]] + l[1..][..k - 1] && l[k..] == l[1..][k - 1..];
    }
  }

  /** The list once the coalescing loop, which stands at `k`, is through. */
  function JoinedFrom(l: seq<Block>, k: nat): (r: seq<Block>)
    requires 1 <= k <= |l|
  {
    l[..k - 1] + Joined(l[k - 1..])
  }

  function MergedAt(l: seq<Block>, k: nat): (r: seq<Block>)
    requires 1 <= k < |l|
  {
    l[..k - 1] + [Merged(l[k - 1], l[k])] + l[k + 1..]
  }

  lemma JoinMerge(l: seq<Block>, k: nat)
    requires 1 <= k < |l| && Ascending(l[k - 1..]) && l[k].addr <= End(l[k - 1])
    ensures JoinedFrom(MergedAt(l, k), k) == JoinedFrom(l, k) && Ascending(MergedAt(l, k)[k - 1..])
  {
    var t, m := l[k - 1..], MergedAt(l, k);
    assert t[0] == l[k - 1] && t[1] == l[k] && t[2..] == l[k + 1..];
    assert m[k - 1..] == MergedHead(t) && m[..k - 1] == l[..k - 1];
  }

  lemma JoinPass(l: seq<Block>, k: nat)
    requires 1 <= k < |l| && Ascending(l[k - 1..]) && l[k].addr > End(l[k - 1])
    ensures JoinedFrom(l, k + 1) == JoinedFrom(l, k) && Ascending(l[k..])
  {
    var t := l[k - 1..];
    assert t[0] == l[k - 1] && t[1] == l[k] && t[1..] == l[k..];
    JoinedHead(t);
    var p, h, r := l[..k - 1], [t[0]], Joined(l[k..]);
    assert l[..k] == p + h;
    assert p + h + r == p + (h + r);
  }

  lemma JoinedHead(t: seq<Block>)
    requires |t| >= 2 && Ascending(t) && t[1].addr > End(t[0])
    ensures Joined(t) == [t[0]] + Joined(t[1..]) && Ascending(t[1..])
  {
  }

  lemma JoinEnds(l: seq<Block>)
    requires l != []
    ensures JoinedFrom(l, 1) == Joined(l) && JoinedFrom(l, |l|) == l
  {
    assert l[0..] == l;
  }

  lemma {:induction false} SeparatedSize(l: seq<Block>, k: nat)
    requires Separated(l) && k < |l|
    ensures l[k].size > 0
  {
    if k > 0 {
      SeparatedSize(l[1..], k - 1);
    }
  }

  predicate UpTo(l: seq<Block>, x: nat) {
    l == [] || (l[0].addr <= x && UpTo(l[1..], x))
  }

  lemma {:induction false} PutBehind(p: seq<Block>, q: seq<Block>, b: Block)
    requires UpTo(p, b.addr) && From(q, b.addr + 1)
    ensures Put(p + q, b) == p + [b] + q
  {
    Two(p, q);
    Three(p, [b], q);
    if p != [] {
      PutBehind(p[1..], q, b);
    }
  }

  lemma {:induction false} FrontUpTo(p: seq<Block>, b: Block, q: seq<Block>, x: nat)
    requires Separated(p + [b] + q) && b.addr <= x
    ensures UpTo(p, x) && From(q, End(b) + 1)
  {
    Three(p, [b], q);
    if p == [] {
      Two([b], q);
      assert [b][1..] == [];
      assert ([b] + q)[1..] == q;
    } else {
      FrontUpTo(p[1..], b, q, x);
      Three(p[1..], [b], q);
      Two([b], q);
    }
  }

  lemma {:induction false} UpToAppend(p: seq<Block>, b: Block, x: nat)
    requires UpTo(p, x) && b.addr <= x
    ensures UpTo(p + [b], x)
  {
    if p == [] {
      assert p + [b] == [b] && [b][1..] == [];
    } else {
      assert (p + [b])[0] == p[0] && (p + [b])[1..] == p[1..] + [b];
      UpToAppend(p[1..], b, x);
    }
  }

  /** The two parts of a block in its place: where the insertion puts the second. */
  lemma PutSecond(p: seq<Block>, b: Block, q: seq<Block>, low: Block, high: Block)
    requires Separated(p + [b] + q) && low.addr == b.addr && low.addr <= high.addr < End(b)
    ensures Put(p + [low] + q, high) == p + [low, high] + q
  {
    FrontUpTo(p, b, q, high.addr);
    UpToAppend(p, low, high.addr);
    PutBehind(p + [low], q, high);
    assert p + [low] + [high] == p + [low, high];
  }

  /** Two parts that touch are merged back. */
  lemma {:induction false} JoinedBack(p: seq<Block>, b: Block, q: seq<Block>, low: Block, high: Block)
    requires Separated(p + [b] + q) && low.size > 0 && high.size > 0
    requires low.addr == b.addr && End(low) == high.addr && End(high) == End(b)
    ensures Joined(p + [low, high] + q) == p + [b] + q
    decreases |p|
  {
    Three(p, [b], q);
    Three(p, [low, high], q);
    if p == [] {
      var m := [low, high] + q;
      assert m[0] == low && m[1] == high && m[2..] == q && Merged(low, high) == b;
      JoinedSame([b] + q);
    } else {
      JoinedBack(p[1..], b, q, low, high);
      Three(p[1..], [b], q);
      Three(p[1..], [low, high], q);
      Two([b], q);
      Two([low, high], q);
    }
  }

  /** Cutting one block in place. */
  function CutAt(l: seq<Block>, k: nat, a: nat, e: nat): (r: seq<Block>)
    requires k < |l|
  {
    l[..k] + CutOne(l[k], a, e) + l[k + 1..]
  }

  lemma {:induction false} CutMiddle(p: seq<Block>, b: Block, q: seq<Block>, a: nat, e: nat, lo: nat)
    requires Separated(p + [b] + q) && From(p + [b] + q, lo)
    ensures Separated(p + CutOne(b, a, e) + q) && From(p + CutOne(b, a, e) + q, lo)
    decreases |p|
  {
    Three(p, [b], q);
    Three(p, CutOne(b, a, e), q);
    if p == [] {
      Two([b], q);
      assert [b][1..] == [] && [] + q == q;
      CutOneSeparated(b, a, e);
      SeparatedAppend(CutOne(b, a, e), q, End(b));
      Two(CutOne(b, a, e), q);
    } else {
      CutMiddle(p[1..], b, q, a, e, End(p[0]) + 1);
    }
  }

  lemma CutAtSeparated(l: seq<Block>, k: nat, a: nat, e: nat, lo: nat)
    requires Separated(l) && k < |l| && From(l, lo)
    ensures Separated(CutAt(l, k, a, e)) && From(CutAt(l, k, a, e), lo)
  {
    assert l == l[..k] + [l[k]] + l[k + 1..];
    CutMiddle(l[..k], l[k], l[k + 1..], a, e, lo);
  }

  /** The pieces of a cut are not cut again. */
  lemma CutOneStable(b: Block, a: nat, e: nat)
    ensures Cut(CutOne(b, a, e), a, e) == CutOne(b, a, e)
    ensures CutOne(b, a, e) != [] ==> Cut([CutOne(b, a, e)[0]], a, e) == [CutOne(b, a, e)[0]]
  {
    var r := CutOne(b, a, e);
    forall i | 0 <= i < |r|
      ensures CutOne(r[i], a, e) == [r[i]]
    {
    }
    if |r| == 2 {
      assert r == [r[0]] + [r[1]] && [r[0]][1..] == [] && [r[1]][1..] == [];
      CutAppend([r[0]], [r[1]], a, e);
    } else if |r| == 1 {
      assert r == [r[0]] && r[1..] == [];
    }
  }

  lemma CutInPlace(p: seq<Block>, b: Block, q: seq<Block>, a: nat, e: nat)
    ensures Cut(p + CutOne(b, a, e) + q, a, e) == Cut(p + [b] + q, a, e)
  {
    CutThree(p, [b], q, a, e);
    CutThree(p, CutOne(b, a, e), q, a, e);
    CutOneStable(b, a, e);
    assert Cut([b], a, e) == CutOne(b, a, e) by {
      assert [b][1..] == [];
    }
  }

  lemma CutThree(p: seq<Block>, m: seq<Block>, q: seq<Block>, a: nat, e: nat)
    ensures Cut(p + m + q, a, e) == Cut(p, a, e) + Cut(m, a, e) + Cut(q, a, e)
  {
    CutAppend(p + m, q, a, e);
    CutAppend(p, m, a, e);
  }

  lemma CutAtSame(l: seq<Block>, k: nat, a: nat, e: nat)
    requires k < |l|
    ensures Cut(CutAt(l, k, a, e), a, e) == Cut(l, a, e)
  {
    assert l == l[..k] + [l[k]] + l[k + 1..];
    CutInPlace(l[..k], l[k], l[k + 1..], a, e);
  }

  /** How many blocks are still to be cut. */
  function ToCut(l: seq<Block>, a: nat, e: nat): nat {
    if l == [] then 0 else (if Overlaps(l[0], a, e) then 1 else 0) + ToCut(l[1..], a, e)
  }

  /** The range lies strictly inside the block, so that two parts are left. */
  predicate Splits(b: Block, a: nat, e: nat) {
    b.addr < a && e < End(b)
  }

  /** Shrinking a block in place and adding the part behind the range is the cut. */
  lemma AddSecond(p: seq<Block>, b: Block, q: seq<Block>, a: nat, e: nat)
    requires Separated(p + [b] + q) && Splits(b, a, e) && a <= e
    ensures var low, high := Block(b.addr, a - b.addr), Block(e, End(b) - e);
            Separated(p + [low] + q) && Added(p + [low] + q, high) == p + CutOne(b, a, e) + q
  {
    var low, high := Block(b.addr, a - b.addr), Block(e, End(b) - e);
    CutMiddle(p, b, q, a, End(b), 0);
    assert CutOne(b, a, End(b)) == [low];
    PutSecond(p, b, q, low, high);
    if a < e {
      assert CutOne(b, a, e) == [low, high];
      CutMiddle(p, b, q, a, e, 0);
      JoinedSame(p + [low, high] + q);
    } else {
      assert CutOne(b, a, e) == [b];
      JoinedBack(p, b, q, low, high);
    }
  }

  /** A turn that shrinks or removes the block is the cut, too. */
  lemma ShrinkIs(l: seq<Block>, k: nat, r: seq<Block>)
    requires k < |l|
    ensures r == [] ==> l[..k] + r + l[k + 1..] == l[..k] + l[k + 1..]
    ensures |r| == 1 ==> l[..k] + r + l[k + 1..] == l[k := r[0]]
  {
  }

  lemma ToCutPieces(b: Block, a: nat, e: nat, q: seq<Block>)
    ensures var r := CutOne(b, a, e);
            ToCut(if r == [] then q else r[1..] + q, a, e) == ToCut(q, a, e)
  {
    var r := CutOne(b, a, e);
    if |r| == 2 {
      assert (r[1..] + q)[0] == r[1] && (r[1..] + q)[1..] == q;
    } else if |r| == 1 {
      assert r[1..] + q == q;
    }
  }

  /** Where the loop stands after a turn. */
  function NextTurn(l: seq<Block>, k: nat, a: nat, e: nat): nat
    requires k < |l|
  {
    if CutOne(l[k], a, e) == [] then k else k + 1
  }

  lemma TurnSplit(l: seq<Block>, k: nat, a: nat, e: nat)
    requires k < |l|
    ensures var c, r, n := CutOne(l[k], a, e), CutAt(l, k, a, e), NextTurn(l, k, a, e);
            && n <= |r| && r[..n] == l[..k] + (if c == [] then [] else [c[0]])
            && r[n..] == (if c == [] then l[k + 1..] else c[1..] + l[k + 1..])
  {
  }

  lemma TurnStable(l: seq<Block>, k: nat, a: nat, e: nat)
    requires k < |l| && Cut(l[..k], a, e) == l[..k]
    ensures var r, n := CutAt(l, k, a, e), NextTurn(l, k, a, e);
            n <= |r| && Cut(r[..n], a, e) == r[..n]
  {
    TurnSplit(l, k, a, e);
    CutOneStable(l[k], a, e);
    var c := CutOne(l[k], a, e);
    CutAppend(l[..k], if c == [] then [] else [c[0]], a, e);
  }

  lemma TurnMeasure(l: seq<Block>, k: nat, a: nat, e: nat)
    requires k < |l|
    ensures var r, n := CutAt(l, k, a, e), NextTurn(l, k, a, e);
            n <= |r| && 2 * ToCut(r[n..], a, e) + |r| - n < 2 * ToCut(l[k..], a, e) + |l| - k
  {
    TurnSplit(l, k, a, e);
    ToCutPieces(l[k], a, e, l[k + 1..]);
    assert l[k..][0] == l[k] && l[k..][1..] == l[k + 1..];
  }

  /** No block is to be split in two. */
  predicate NoSplit(l: seq<Block>, a: nat, e: nat) {
    l == [] || (!Splits(l[0], a, e) && NoSplit(l[1..], a, e))
  }

  lemma {:induction false} NoSplitBehind(l: seq<Block>, lo: nat, a: nat, e: nat)
    requires Separated(l) && From(l, lo) && a <= lo
    ensures NoSplit(l, a, e)
  {
    if l != [] {
      NoSplitBehind(l[1..], End(l[0]) + 1, a, e);
    }
  }

  lemma {:induction false} SeparatedTail(l: seq<Block>, k: nat)
    requires Separated(l) && k < |l|
    ensures Separated(l[k + 1..]) && From(l[k + 1..], End(l[k]) + 1)
  {
    if k > 0 {
      SeparatedTail(l[1..], k - 1);
      assert l[1..][k..] == l[k + 1..];
    }
  }

  /** Once a block has been split, no other will be. */
  lemma TurnRoom(l: seq<Block>, k: nat, a: nat, e: nat)
    requires Separated(l) && k < |l| && a <= e
    ensures var r, n := CutAt(l, k, a, e), NextTurn(l, k, a, e);
            && n <= |r| && (|r| > |l| ==> Splits(l[k], a, e))
            && (Splits(l[k], a, e) || NoSplit(l[k..], a, e) ==> NoSplit(r[n..], a, e))
  {
    var c, r, n, q := CutOne(l[k], a, e), CutAt(l, k, a, e), NextTurn(l, k, a, e), l[k + 1..];
    TurnSplit(l, k, a, e);
    assert l[k..][0] == l[k] && l[k..][1..] == q;
    if Splits(l[k], a, e) {
      SeparatedTail(l, k);
      NoSplitBehind(q, End(l[k]) + 1, a, e);
    }
    if |c| == 2 {
      assert r[n..] == [c[1]] + q && ([c[1]] + q)[1..] == q;
    } else if |c| == 1 {
      assert r[n..] == q;
    }
  }

  // ---------------------------------------------------------------- the routines

  class Ram {
    var list: seq<Block>
    var avoids: seq<Range>
    ghost var log: seq<Op>

    /** The list is separated and holds exactly what was added and not taken since. */
    ghost predicate Valid()
      reads this
    {
      Separated(list) && Ranged(avoids) && forall x :: Free(list, x) <==> FreeBy(log, x)
    }

    /** `ws_init`: no RAM yet; the avoid list avoids its own memory. */
    constructor (early: Range)
      requires early.start <= early.end
      ensures Valid() && list == [] && log == [] && avoids == [early]
    {
      list, avoids, log := [], [early], [];
    }

    /** The insertion of `add_mem`; false is the crash of a full array. */
    method PutBlock(b: Block) returns (ok: bool)
      requires b.size > 0
      modifies `list
      ensures ok <==> |old(list)| + 1 < MAX_RAM
      ensures list == if ok then Put(old(list), b) else old(list)
    {
      var k := 0;
      while k < |list| && list[k].addr <= b.addr
        invariant 0 <= k <= |list| && forall i :: 0 <= i < k ==> list[i].addr <= b.addr
      {
        k := k + 1;
      }
      if |list| + 1 >= MAX_RAM {
        return false;
      }
      PutIs(list, b, k);
      list := list[..k] + [b] + list[k..];
      ok := true;
    }

    /** The coalescing loop of `add_mem`. */
    method Coalesce()
      requires list != [] && Ascending(list)
      modifies `list
      ensures list == Joined(old(list))
    {
      var k := 1;
      JoinEnds(list);
      assert list[0..] == list;
      while k < |list|
        invariant 1 <= k <= |list| && Ascending(list[k - 1..])
        invariant JoinedFrom(list, k) == Joined(old(list))
        decreases |list| - k
      {
        if list[k].addr <= End(list[k - 1]) {
          JoinMerge(list, k);
          list := list[..k - 1] + [Merged(list[k - 1], list[k])] + list[k + 1..];
        } else {
          JoinPass(list, k);
          k := k + 1;
        }
      }
      JoinEnds(list);
    }

    /** `add_mem`. */
    method AddMem(b: Block) returns (ok: bool)
      requires Separated(list)
      modifies `list
      ensures ok <==> b.size == 0 || |old(list)| + 1 < MAX_RAM
      ensures list == if ok then Added(old(list), b) else old(list)
    {
      if b.size == 0 {
        return true;
      }
      SeparatedAscending(list);
      PutAscending(list, b);
      ok := PutBlock(b);
      if ok {
        Coalesce();
      }
    }

    /** One turn of the loop of `alloc_ram` on the block at `k`. */
    method CutBlock(k: nat, a: nat, e: nat) returns (next: nat, ok: bool)
      requires Separated(list) && k < |list| && a <= e
      modifies `list
      ensures ok <==> !Splits(old(list)[k], a, e) || |old(list)| + 1 < MAX_RAM
      ensures ok ==> list == CutAt(old(list), k, a, e) && next == NextTurn(old(list), k, a, e)
    {
      var b := list[k];
      ghost var l := list;
      SeparatedSize(list, k);
      next, ok := k + 1, true;
      var s, last := b.addr, End(b);
      ShrinkIs(l, k, CutOne(b, a, e));
      if (a <= s && e > s) || (a >= s && a < last) || (e >= s && e < last) {
        if e > last {
          last := e;
        }
        if a < s {
          s := a;
        }
        if a == s && e == last {
          list := list[..k] + list[k + 1..];
          next := k;
        } else if a == s {
          list := list[k := Block(e, last - e)];
        } else {
          list := list[k := Block(b.addr, a - s)];
          assert list == l[..k] + [list[k]] + l[k + 1..];
          if last != e {
            assert l == l[..k] + [b] + l[k + 1..];
            AddSecond(l[..k], b, l[k + 1..], a, e);
            ok := AddMem(Block(e, last - e));
          }
        }
      }
    }

    /** The loop of `alloc_ram`. */
    method TakeOut(a: nat, e: nat) returns (ok: bool)
      requires Separated(list) && a <= e
      modifies `list
      ensures |old(list)| + 1 < MAX_RAM ==> ok
      ensures ok ==> list == Cut(old(list), a, e)
    {
      ghost var was := list;
      var k := 0;
      while k < |list|
        invariant 0 <= k <= |list| && Separated(list)
        invariant Cut(list, a, e) == Cut(was, a, e) && Cut(list[..k], a, e) == list[..k]
        invariant |list| <= |was| || NoSplit(list[k..], a, e)
        decreases 2 * ToCut(list[k..], a, e) + |list| - k
      {
        TurnStable(list, k, a, e);
        TurnMeasure(list, k, a, e);
        TurnRoom(list, k, a, e);
        assert list[k..][0] == list[k];
        CutAtSeparated(list, k, a, e, 0);
        CutAtSame(list, k, a, e);
        k, ok := CutBlock(k, a, e);
        if !ok {
          return;
        }
      }
      assert list[..k] == list;
      ok := true;
    }

    /** The inner loop of the search: a candidate beside the avoided ranges, up to the
        terminator. */
    method FixAll(c: Range) returns (r: Option<Range>)
      ensures r == FixedAll(c, Visible(avoids))
    {
      var cand := c;
      var k := 0;
      assert avoids[0..] == avoids;
      while k < |avoids| && avoids[k].end != 0
        invariant 0 <= k <= |avoids|
        invariant FixedAll(cand, Visible(avoids[k..])) == FixedAll(c, Visible(avoids))
      {
        assert avoids[k..][0] == avoids[k] && avoids[k..][1..] == avoids[k + 1..];
        assert Visible(avoids[k..])[1..] == Visible(avoids[k + 1..]);
        var f := Fixed(cand, avoids[k]);
        if f == None {
          return None;
        }
        cand, k := f.value, k + 1;
      }
      return Some(cand);
    }

    /** `find_ram`: the first block with room. */
    method FindRam(size: nat, align: nat) returns (r: Option<nat>)
      requires align >= 1
      ensures r == Find(list, Visible(avoids), size, align)
    {
      var k := 0;
      assert list[0..] == list;
      while k < |list|
        invariant 0 <= k <= |list|
        invariant Find(list, Visible(avoids), size, align) == Find(list[k..], Visible(avoids), size, align)
      {
        assert list[k..][0] == list[k] && list[k..][1..] == list[k + 1..];
        var c := FixAll(Range(list[k].addr, End(list[k])));
        if c != None {
          var addr := RoundUp(c.value.start, align);
          if addr < c.value.end && size <= c.value.end - addr {
            return Some(addr);
          }
        }
        k := k + 1;
      }
      return None;
    }

    ghost function Now(): (s: State)
      reads this
    {
      State(list, avoids)
    }

    /** `alloc_ram` at a given address: exactly this range is no longer free. */
    method AllocAt(b: Block) returns (ok: bool)
      requires Valid()
      modifies `list, `log
      ensures |old(list)| + 1 < MAX_RAM ==> ok
      ensures ok ==> Valid() && log == old(log) + [Take(b)] && list == Cut(old(list), b.addr, End(b))
    {
      TakeHolds(list, b, log);
      ok := TakeOut(b.addr, End(b));
      log := log + [Take(b)];
    }

    /** `alloc_ram` with a search: what it hands out was free, is aligned and is not avoided. */
    method AllocRam(size: nat, align: nat) returns (r: Option<nat>, ok: bool)
      requires Valid() && align >= 1
      modifies `list, `log
      ensures |old(list)| + 1 < MAX_RAM ==> ok
      ensures ok ==> Valid()
      ensures r == Find(old(list), Visible(avoids), size, align)
      ensures r == None ==> ok && list == old(list) && log == old(log)
      ensures ok && r.Some? ==> list == Cut(old(list), r.value, r.value + size)
      ensures ok && r.Some? ==> log == old(log) + [Take(Block(r.value, size))] && r.value % align == 0
      ensures r.Some? ==> forall x :: In(Block(r.value, size), x) ==> FreeBy(old(log), x) && !Avoided(Visible(avoids), x)
    {
      ok := true;
      r := FindRam(size, align);
      if r != None {
        RangedVisible(avoids);
        FoundIs(list, Visible(avoids), size, align);
        ok := AllocAt(Block(r.value, size));
      }
    }

    /** `add_ram`: the range becomes free, except for the image. */
    method AddRam(b: Block, image: Block) returns (ok: bool)
      requires Valid()
      modifies `list, `log
      ensures ok ==> Valid() && log == old(log) + [Gain(b), Take(image)]
      ensures ok ==> list == Cut(Added(old(list), b), image.addr, End(image))
      ensures |old(list)| + 2 < MAX_RAM ==> ok
    {
      GainHolds(list, b, log);
      AddedLength(list, b);
      ok := AddMem(b);
      log := log + [Gain(b)];
      if ok {
        ghost var l := log;
        ok := AllocAt(image);
        assert l + [Take(image)] == old(log) + [Gain(b), Take(image)];
      }
    }

    /** `avoid_ram`; false is the crash of a full array. */
    method AvoidRam(start: nat, size: nat) returns (ok: bool)
      requires Valid()
      modifies `avoids
      ensures Valid() && avoids == AfterAvoid(old(avoids), start, size)
      ensures ok <==> |avoids| + 1 <= MAX_AVOID
    {
      AvoidRanged(avoids, start, size);
      var n := |avoids| - 1;
      if n >= 0 && avoids[n].end == start {
        avoids := avoids[..n] + [avoids[n].(end := start + size)];
      } else {
        avoids := avoids + [Range(start, start + size)];
      }
      ok := |avoids| + 1 <= MAX_AVOID;
    }

    /** One request. */
    method Serve(q: Request, image: Block) returns (a: Option<nat>, ok: bool)
      requires Valid()
      modifies `list, `avoids, `log
      ensures |old(list)| + 2 < MAX_RAM && |old(avoids)| + 2 <= MAX_AVOID ==> ok
      ensures a == Answer(old(Now()), q)
      ensures ok ==> Valid() && Now() == After(old(Now()), q, image) && log == old(log) + Ops(q, a, image)
    {
      a, ok := None, true;
      match q {
        case Add(b) => ok := AddRam(b, image);
        case AllocHere(b) => ok := AllocAt(b);
        case Avoid(start, size) =>
          AvoidLength(avoids, start, size);
          ok := AvoidRam(start, size);
        case Any(size, align) =>
          if align >= 1 {
            a, ok := AllocRam(size, align);
          }
      }
    }

    /** Every sequence of calls, up to a crash: the answers, the lists and the history are those
        of the run on values.  There is no crash as long as the arrays are large enough. */
    method Run(requests: seq<Request>, image: Block) returns (answers: seq<Option<nat>>, ok: bool)
      requires Valid()
      modifies this
      ensures |old(list)| + 2 * |requests| < MAX_RAM && |old(avoids)| + |requests| < MAX_AVOID ==> ok
      ensures ok ==> Valid() && Now() == Replay(old(Now()), requests, image)
      ensures ok ==> answers == Answers(old(Now()), requests, image)
      ensures ok ==> |answers| == |requests| && log == old(log) + Logged(requests, answers, image)
    {
      answers, ok := [], true;
      ghost var start, was := Now(), log;
      assert was == was + Logged([], [], image);
      var i := 0;
      while i < |requests|
        invariant 0 <= i <= |requests| && |answers| == i && Valid()
        invariant Now() == Replay(start, requests[..i], image) && answers == Answers(start, requests[..i], image)
        invariant log == was + Logged(requests[..i], answers, image)
        invariant |list| <= |start.list| + 2 * i && |avoids| <= |start.avoids| + i
      {
        AfterLength(Now(), requests[i], image);
        RunNext(start, was, requests, i, answers, image);
        var a;
        a, ok := Serve(requests[i], image);
        if !ok {
          return;
        }
        answers := answers + [a];
        i := i + 1;
      }
      assert requests[..i] == requests;
    }
  }

  /** One more request of a run. */
  lemma RunNext(s: State, was: seq<Op>, qs: seq<Request>, i: nat, answers: seq<Option<nat>>, image: Block)
    requires i < |qs| && |answers| == i
    ensures var front, next, q := qs[..i], qs[..i + 1], qs[i];
            var a, ops := Answer(Replay(s, front, image), q), Ops(q, Answer(Replay(s, front, image), q), image);
            && Replay(s, next, image) == After(Replay(s, front, image), q, image)
            && Answers(s, next, image) == Answers(s, front, image) + [a]
            && was + Logged(next, answers + [a], image) == was + Logged(front, answers, image) + ops
  {
    var front, next, a := qs[..i], qs[..i + 1], Answer(Replay(s, qs[..i], image), qs[i]);
    assert next[..|next| - 1] == front && next[|next| - 1] == qs[i] && (answers + [a])[..i] == answers;
  }

  // ---------------------------------------------------------------- how long the lists grow

  lemma AvoidLength(l: seq<Range>, start: nat, size: nat)
    ensures |AfterAvoid(l, start, size)| <= |l| + 1
  {
  }

  lemma {:induction false} CutShort(l: seq<Block>, a: nat, e: nat)
    requires NoSplit(l, a, e)
    ensures |Cut(l, a, e)| <= |l|
  {
    if l != [] {
      CutShort(l[1..], a, e);
    }
  }

  /** Taking a range out adds at most one block. */
  lemma {:induction false} CutLength(l: seq<Block>, a: nat, e: nat)
    requires Separated(l) && a <= e
    ensures |Cut(l, a, e)| <= |l| + 1
  {
    if l != [] {
      if Splits(l[0], a, e) {
        NoSplitBehind(l[1..], End(l[0]) + 1, a, e);
        CutShort(l[1..], a, e);
      } else {
        CutLength(l[1..], a, e);
      }
    }
  }

  lemma AfterLength(s: State, q: Request, image: Block)
    requires ValidState(s)
    ensures |After(s, q, image).list| <= |s.list| + 2 && |After(s, q, image).avoids| <= |s.avoids| + 1
  {
    match q
    case Add(b) =>
      AddedLength(s.list, b);
      AddedIs(s.list, b);
      CutLength(Added(s.list, b), image.addr, End(image));
    case AllocHere(b) => CutLength(s.list, b.addr, End(b));
    case Any(size, _) =>
      var a := Answer(s, q);
      if a.Some? {
        CutLength(s.list, a.value, a.value + size);
      }
    case Avoid(start, size) => AvoidLength(s.avoids, start, size);
  }

  lemma {:induction false} JoinedLength(l: seq<Block>)
    ensures |Joined(l)| <= |l|
    decreases |l|
  {
    if |l| >= 2 {
      if l[1].addr <= End(l[0]) {
        JoinedLength([Merged(l[0], l[1])] + l[2..]);
      } else {
        JoinedLength(l[1..]);
      }
    }
  }

  lemma AddedLength(l: seq<Block>, b: Block)
    ensures |Added(l, b)| <= |l| + 1
  {
    JoinedLength(Put(l, b));
  }
}
