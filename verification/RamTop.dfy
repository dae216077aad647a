/** `find_top_ram_aligned_limit`: the highest place for a request below a limit, and when
    the answer is sound and aligned. */
module RamTop {
  import opened Options
  import opened RamMap
  import Arith
  import RamAlloc

  const U64: nat := 0x1_0000_0000_0000_0000

  /** The subtraction of two unsigned 64-bit values. */
  function Minus(a: nat, b: nat): (r: nat) { if b <= a then a - b else if b <= U64 + a then U64 + a - b else 0 }

  function Trunc(x: nat, align: nat): (r: nat)
    ensures r <= x
  {
    if align == 0 then x
    else
      TruncBelow(x, align);
      x / align * align
  }

  lemma TruncBelow(x: nat, align: nat)
    requires align >= 1
    ensures x / align * align <= x < x / align * align + align && (x / align * align) % align == 0
  {
    assert x == align * (x / align) + x % align;
    MultipleRemainder(x / align, align);
  }

  /** The end of a candidate, as far up as alignment lets the request go. */
  function TopFit(c: Range, size: nat, align: nat): (r: Option<nat>) {
    if c.start + size > c.end then None
    else
      var chk := Trunc(c.end - size, align);
      if chk >= c.start then Some(chk) else None
  }

  /** The loop over the blocks; `size` is rounded already.  The first candidate that reaches
      the limit ends it. */
  function Search(l: seq<Block>, avoids: seq<Range>, size: nat, align: nat, limit: nat, top: nat): (r: nat)
    decreases |l|
  {
    if l == [] then top
    else
      var c := FixedAll(Range(l[0].addr, End(l[0])), avoids);
      var chk := if c == None then None else TopFit(c.value, size, align);
      if chk == None || chk.value <= top then Search(l[1..], avoids, size, align, limit, top)
      else if chk.value + size < limit then Search(l[1..], avoids, size, align, limit, chk.value)
      else if Minus(limit, size) < c.value.start then top
      else Minus(limit, size)
  }

  function FindTop(l: seq<Block>, avoids: seq<Range>, asked: nat, align: nat, pagesize: nat, limit: nat): (r: Option<nat>)
    requires pagesize >= 1
  {
    if limit < asked then None
    else
      var top := Search(l, avoids, RoundUp(asked, pagesize), align, limit, 0);
      if top == 0 then None else Some(top)
  }

  // ---------------------------------------------------------------- soundness

  /** The request fits there: free, not avoided, and not beyond the limit. */
  ghost predicate Sound(l: seq<Block>, avoids: seq<Range>, size: nat, limit: nat, t: nat) {
    t + size <= limit && forall x :: t <= x < t + size ==> Free(l, x) && !Avoided(avoids, x)
  }

  /** A place between the start of a candidate and where it fits at the top. */
  lemma CandidateSound(l: seq<Block>, avoids: seq<Range>, size: nat, align: nat, limit: nat, t: nat)
    requires l != [] && Ranged(avoids) && FixedAll(Range(l[0].addr, End(l[0])), avoids).Some?
    requires var c := FixedAll(Range(l[0].addr, End(l[0])), avoids).value;
             c.start <= t && t + size <= c.end && t + size <= limit
    ensures Sound(l, avoids, size, limit, t)
  {
    FixedAllIs(Range(l[0].addr, End(l[0])), avoids);
    var c := FixedAll(Range(l[0].addr, End(l[0])), avoids).value;
    forall x | t <= x < t + size
      ensures Free(l, x) && !Avoided(avoids, x)
    {
      assert Within(c, x) && In(l[0], x);
    }
  }

  lemma SoundTail(l: seq<Block>, avoids: seq<Range>, size: nat, limit: nat, t: nat)
    requires l != [] && Sound(l[1..], avoids, size, limit, t)
    ensures Sound(l, avoids, size, limit, t)
  {
  }

  /** With a size that fits the limit, what the loop finds is sound, and aligned unless it is
      the limit itself less the size. */
  lemma {:induction false} SearchSound(l: seq<Block>, avoids: seq<Range>, size: nat, align: nat, limit: nat, top: nat)
    requires Ranged(avoids) && size <= limit && (top == 0 || top + size < limit)
    ensures var t := Search(l, avoids, size, align, limit, top);
            && t >= top && (t == top || Sound(l, avoids, size, limit, t))
            && (t == top || t == limit - size || align == 0 || t % align == 0)
    decreases |l|
  {
    if l != [] {
      var f := FixedAll(Range(l[0].addr, End(l[0])), avoids);
      var chk := if f == None then None else TopFit(f.value, size, align);
      var t := Search(l, avoids, size, align, limit, top);
      if chk == None || chk.value <= top {
        SearchSound(l[1..], avoids, size, align, limit, top);
        if t != top {
          SoundTail(l, avoids, size, limit, t);
        }
      } else if chk.value + size < limit {
        SearchSound(l[1..], avoids, size, align, limit, chk.value);
        CandidateSound(l, avoids, size, align, limit, chk.value);
        if align >= 1 {
          TruncBelow(f.value.end - size, align);
        }
        if t != chk.value {
          SoundTail(l, avoids, size, limit, t);
        }
      } else if limit - size >= f.value.start {
        CandidateSound(l, avoids, size, align, limit, limit - size);
      }
    }
  }

  /** The rounded size. */
  function Size(asked: nat, pagesize: nat): (size: nat)
    requires pagesize >= 1
    ensures size >= asked
  {
    RoundedUp(asked, pagesize);
    RoundUp(asked, pagesize)
  }

  /** Every block ends in the address space. */
  predicate Inside(l: seq<Block>, space: nat) {
    l == [] || (End(l[0]) <= space && Inside(l[1..], space))
  }

  /** What is answered can be used. */
  ghost predicate Usable(l: seq<Block>, avoids: seq<Range>, asked: nat, align: nat, pagesize: nat, limit: nat)
    requires pagesize >= 1
  {
    var r := FindTop(l, avoids, asked, align, pagesize, limit);
    r.Some? ==> r.value > 0 && Sound(l, avoids, Size(asked, pagesize), limit, r.value)
  }

  lemma FitsUsable(l: seq<Block>, avoids: seq<Range>, asked: nat, align: nat, pagesize: nat, limit: nat)
    requires pagesize >= 1 && Ranged(avoids) && Size(asked, pagesize) <= limit
    ensures Usable(l, avoids, asked, align, pagesize, limit)
  {
    SearchSound(l, avoids, Size(asked, pagesize), align, limit, 0);
  }

  /** A list with one block, of which exactly the last place is left. */
  function LastPlace(size: nat, align: nat): (l: seq<Block>) {
    [Block(Max(align, 1), size)]
  }

  lemma MaxTrunc(align: nat)
    ensures Trunc(Max(align, 1), align) == Max(align, 1)
  {
    if align >= 1 {
      TruncMultiple(align, align);
    }
  }

  lemma TruncMultiple(x: nat, align: nat)
    requires align >= 1 && x % align == 0
    ensures Trunc(x, align) == x
  {
    TruncBelow(x, align);
    assert x == align * (x / align) + x % align;
  }

  /** The limit is compared before the size is rounded: if only the rounded size is beyond
      it, the difference wraps. */
  lemma RoundedBeyond(asked: nat, align: nat, pagesize: nat, limit: nat)
    requires pagesize >= 1 && asked <= limit < Size(asked, pagesize) && Size(asked, pagesize) + Max(align, 1) <= U64
    ensures FindTop(LastPlace(Size(asked, pagesize), align), [], asked, align, pagesize, limit)
         == Some(U64 + limit - Size(asked, pagesize))
    ensures !Usable(LastPlace(Size(asked, pagesize), align), [], asked, align, pagesize, limit)
  {
    MaxTrunc(align);
  }

  /** All answers can be used exactly if the rounded size fits the limit. */
  lemma UsableExactly(asked: nat, align: nat, pagesize: nat, limit: nat)
    requires pagesize >= 1 && asked <= limit && Size(asked, pagesize) + Max(align, 1) <= U64
    ensures (forall l, avoids :: Separated(l) && Inside(l, U64) && Ranged(avoids) ==>
              Usable(l, avoids, asked, align, pagesize, limit))
       <==> Size(asked, pagesize) <= limit
  {
    var size := Size(asked, pagesize);
    if size <= limit {
      forall l, avoids | Separated(l) && Ranged(avoids)
        ensures Usable(l, avoids, asked, align, pagesize, limit)
      {
        FitsUsable(l, avoids, asked, align, pagesize, limit);
      }
    } else {
      RoundedBeyond(asked, align, pagesize, limit);
      var l := LastPlace(size, align);
      assert l[1..] == [] && Separated(l) && Inside(l, U64) && Ranged([]);
    }
  }

  // ---------------------------------------------------------------- alignment

  /** Some block of the address space reaches beyond the limit, and the limit less the size
      is not aligned. */
  predicate CutsUnaligned(size: nat, align: nat, limit: nat, space: nat)
    requires align >= 1 && size <= limit
  {
    (limit - size) % align != 0 && size <= space && limit - size < Trunc(space - size, align)
  }

  lemma QuotientGrows(x: nat, y: nat, m: nat)
    requires m >= 1 && x <= y
    ensures x / m <= y / m
  {
    assert y == m * (y / m) + y % m && m * (y / m + 1) == m * (y / m) + m;
    Arith.QuotientBelow(x, m, y / m + 1);
  }

  lemma TruncGrows(x: nat, y: nat, align: nat)
    requires x <= y
    ensures Trunc(x, align) <= Trunc(y, align)
  {
    if align >= 1 {
      QuotientGrows(x, y, align);
      Arith.ProductGrows(align, x / align, y / align);
    }
  }

  /** The loop keeps the answer aligned unless it may stop at an unaligned limit. */
  lemma {:induction false} SearchAligned(l: seq<Block>, avoids: seq<Range>, size: nat, align: nat, limit: nat, top: nat,
                                         space: nat)
    requires Ranged(avoids) && Inside(l, space) && align >= 1 && size <= limit && top % align == 0
    requires !CutsUnaligned(size, align, limit, space)
    ensures Search(l, avoids, size, align, limit, top) % align == 0
    decreases |l|
  {
    if l != [] {
      var f := FixedAll(Range(l[0].addr, End(l[0])), avoids);
      var chk := if f == None then None else TopFit(f.value, size, align);
      if chk.Some? {
        FixedAllIs(Range(l[0].addr, End(l[0])), avoids);
        TruncBelow(f.value.end - size, align);
        TruncGrows(f.value.end - size, space - size, align);
      }
      if chk == None || chk.value <= top {
        SearchAligned(l[1..], avoids, size, align, limit, top, space);
      } else if chk.value + size < limit {
        SearchAligned(l[1..], avoids, size, align, limit, chk.value, space);
      }
    }
  }

  ghost predicate Aligned(l: seq<Block>, avoids: seq<Range>, asked: nat, align: nat, pagesize: nat, limit: nat)
    requires pagesize >= 1 && align >= 1
  {
    var r := FindTop(l, avoids, asked, align, pagesize, limit);
    r.Some? ==> r.value % align == 0
  }

  /** The whole address space as one block. */
  lemma CutUnaligned(asked: nat, align: nat, pagesize: nat, limit: nat, space: nat)
    requires pagesize >= 1 && align >= 1 && Size(asked, pagesize) <= limit
    requires CutsUnaligned(Size(asked, pagesize), align, limit, space)
    ensures FindTop([Block(0, space)], [], asked, align, pagesize, limit) == Some(limit - Size(asked, pagesize))
  {
    var size := Size(asked, pagesize);
    TruncBelow(space - size, align);
    assert TopFit(Range(0, space), size, align) == Some(Trunc(space - size, align));
    Arith.QuotientIs(0, align, 0, 0);
  }

  /** Every answer is aligned exactly if the limit less the size is, or no aligned place of
      the address space lies beyond it. */
  lemma AlignedExactly(asked: nat, align: nat, pagesize: nat, limit: nat, space: nat)
    requires pagesize >= 1 && align >= 1 && Size(asked, pagesize) <= limit
    ensures (forall l, avoids :: Separated(l) && Inside(l, space) && Ranged(avoids) ==>
              Aligned(l, avoids, asked, align, pagesize, limit))
       <==> !CutsUnaligned(Size(asked, pagesize), align, limit, space)
  {
    var size := Size(asked, pagesize);
    if CutsUnaligned(size, align, limit, space) {
      CutUnaligned(asked, align, pagesize, limit, space);
      var l := [Block(0, space)];
      assert l[1..] == [] && Separated(l) && Inside(l, space) && Ranged([]);
      assert !Aligned(l, [], asked, align, pagesize, limit);
    } else {
      Arith.QuotientIs(0, align, 0, 0);
      forall l, avoids | Separated(l) && Inside(l, space) && Ranged(avoids)
        ensures Aligned(l, avoids, asked, align, pagesize, limit)
      {
        SearchAligned(l, avoids, size, align, limit, 0, space);
      }
    }
  }

  /** `find_top_ram_aligned`, whose limit is the end of the address space, aligns. */
  lemma UnlimitedAligned(l: seq<Block>, avoids: seq<Range>, asked: nat, align: nat, pagesize: nat)
    requires pagesize >= 1 && align >= 1 && Size(asked, pagesize) < U64
    requires Separated(l) && Inside(l, U64 - 1) && Ranged(avoids)
    ensures Aligned(l, avoids, asked, align, pagesize, U64 - 1)
  {
    AlignedExactly(asked, align, pagesize, U64 - 1, U64 - 1);
  }

  // ---------------------------------------------------------------- the highest place

  lemma {:induction false} BehindNotFree(l: seq<Block>, x: int)
    requires Separated(l) && l != [] && x < l[0].addr
    ensures !Free(l, x)
  {
    if |l| > 1 {
      BehindNotFree(l[1..], x);
    }
  }

  /** A free stretch lies in one block. */
  lemma OneBlock(l: seq<Block>, avoids: seq<Range>, size: nat, limit: nat, t: nat)
    requires Separated(l) && l != [] && size > 0 && Sound(l, avoids, size, limit, t)
    ensures (l[0].addr <= t && t + size <= End(l[0])) || (End(l[0]) < t && Sound(l[1..], avoids, size, limit, t))
  {
    assert Free(l, t);
    if In(l[0], t) {
      if t + size > End(l[0]) {
        assert Free(l, End(l[0])) && Free(l[1..], End(l[0]));
        BehindNotFree(l[1..], End(l[0]));
      }
    } else {
      assert Free(l[1..], t);
      if t <= End(l[0]) {
        BehindNotFree(l[1..], t);
      }
      forall x | t <= x < t + size
        ensures Free(l[1..], x)
      {
        assert Free(l, x);
      }
    }
  }

  lemma TopFits(c: Range, size: nat, align: nat, t: nat)
    requires c.start <= t && t + size <= c.end && (align == 0 || t % align == 0)
    ensures TopFit(c, size, align).Some? && t <= TopFit(c, size, align).value
  {
    TruncGrows(t, c.end - size, align);
    if align >= 1 {
      TruncMultiple(t, align);
    }
  }

  /** An aligned place in the first block lies in its candidate. */
  lemma PlaceInCandidate(b: Block, avoids: seq<Range>, size: nat, t: nat)
    requires size > 0 && b.size > 0 && Ranged(avoids) && Edges(Range(b.addr, End(b)), avoids)
    requires b.addr <= t && t + size <= End(b) && forall x :: t <= x < t + size ==> !Avoided(avoids, x)
    ensures var f := FixedAll(Range(b.addr, End(b)), avoids);
            f.Some? && f.value.start <= t && t + size <= f.value.end
  {
    var c := Range(b.addr, End(b));
    FixedAllExact(c, avoids);
    var last := t + size - 1;
    assert Within(c, t) && Within(c, last) && !Avoided(avoids, t) && !Avoided(avoids, last);
    assert Within(FixedAll(c, avoids).value, t) && Within(FixedAll(c, avoids).value, last);
  }

  /** No aligned place lies above what the loop finds, as long as no avoided range lies
      strictly inside a free block. */
  lemma {:induction false} SearchHighest(l: seq<Block>, avoids: seq<Range>, size: nat, align: nat, limit: nat, top: nat, t: nat)
    requires Separated(l) && Ranged(avoids) && AllEdges(l, avoids) && 0 < size <= limit && (top == 0 || top + size < limit)
    requires Sound(l, avoids, size, limit, t) && (align == 0 || t % align == 0)
    ensures t <= Search(l, avoids, size, align, limit, top)
    decreases |l|
  {
    assert Free(l, t);
    if l != [] {
      OneBlock(l, avoids, size, limit, t);
      var f := FixedAll(Range(l[0].addr, End(l[0])), avoids);
      if f.Some? {
        FixedAllIs(Range(l[0].addr, End(l[0])), avoids);
      }
      if t + size <= End(l[0]) {
        PlaceInCandidate(l[0], avoids, size, t);
        TopFits(f.value, size, align, t);
      }
      var chk := if f == None then None else TopFit(f.value, size, align);
      if chk == None || chk.value <= top {
        SearchSound(l[1..], avoids, size, align, limit, top);
        if t + size > End(l[0]) {
          SearchHighest(l[1..], avoids, size, align, limit, top, t);
        }
      } else if chk.value + size < limit {
        SearchSound(l[1..], avoids, size, align, limit, chk.value);
        if t + size > End(l[0]) {
          SearchHighest(l[1..], avoids, size, align, limit, chk.value, t);
        }
      }
    }
  }

  /** The answer is a sound place, no aligned sound place lies above it, and None means that
      there is none but address zero. */
  lemma TopIsHighest(l: seq<Block>, avoids: seq<Range>, asked: nat, align: nat, pagesize: nat, limit: nat)
    requires pagesize >= 1 && 0 < Size(asked, pagesize) <= limit
    requires Separated(l) && Ranged(avoids) && AllEdges(l, avoids)
    ensures Usable(l, avoids, asked, align, pagesize, limit)
    ensures var r := FindTop(l, avoids, asked, align, pagesize, limit);
            forall t: nat :: Sound(l, avoids, Size(asked, pagesize), limit, t) && (align == 0 || t % align == 0) ==>
              t <= if r == None then 0 else r.value
  {
    FitsUsable(l, avoids, asked, align, pagesize, limit);
    var size := Size(asked, pagesize);
    forall t: nat | Sound(l, avoids, size, limit, t) && (align == 0 || t % align == 0)
      ensures t <= Search(l, avoids, size, align, limit, 0)
    {
      SearchHighest(l, avoids, size, align, limit, 0, t);
    }
  }

  // ---------------------------------------------------------------- the loop

  /** The loop over the blocks of the RAM list. */
  method FindTopRam(ram: RamAlloc.Ram, asked: nat, align: nat, pagesize: nat, limit: nat) returns (r: Option<nat>)
    requires pagesize >= 1
    ensures r == FindTop(ram.list, Visible(ram.avoids), asked, align, pagesize, limit)
  {
    if limit < asked {
      return None;
    }
    var size := RoundUp(asked, pagesize);
    var top: nat, k: nat, done := 0, 0, false;
    ghost var avoids := Visible(ram.avoids);
    assert ram.list[0..] == ram.list;
    while k < |ram.list| && !done
      invariant 0 <= k <= |ram.list|
      invariant Search(ram.list, avoids, size, align, limit, 0)
             == if done then top else Search(ram.list[k..], avoids, size, align, limit, top)
      decreases |ram.list| - k, !done
    {
      var b := ram.list[k];
      assert ram.list[k..][0] == b && ram.list[k..][1..] == ram.list[k + 1..];
      var c := ram.FixAll(Range(b.addr, End(b)));
      if c.Some? && c.value.start + size <= c.value.end {
        var chk := Trunc(c.value.end - size, align);
        if chk >= c.value.start && chk > top {
          if chk + size >= limit {
            if Minus(limit, size) >= c.value.start {
              top := Minus(limit, size);
            }
            done := true;
          } else {
            top := chk;
          }
        }
      }
      k := k + 1;
    }
    r := if top == 0 then None else Some(top);
  }
}
