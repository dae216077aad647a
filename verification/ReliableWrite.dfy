/** The legacy reliable write of the SD/MMC driver: a scatter/gather list is cut into
    single writes of 512 bytes or of the supported reliable write size, each of which
    must start at a multiple of its own length (Reliable Write in JEDEC JESD84-B51). */
module ReliableWrite {
  import opened Arith

  datatype Sge = Sge(addr: nat, count: nat)

  /** One write command: memory address, length in bytes, first block of the device. */
  datatype Chunk = Chunk(addr: nat, count: nat, lba: nat)

  /** A block of memory and the block of the device it is written to. */
  datatype Block = Block(addr: nat, lba: nat)

  // ---------------------------------------------------------------- the alignment test

  /** Bitwise and. */
  function And(a: nat, b: nat): (r: nat)
    ensures r <= b
  {
    if a == 0 || b == 0 then 0 else (if a % 2 == 1 && b % 2 == 1 then 1 else 0) + 2 * And(a / 2, b / 2)
  }

  function Pow(k: nat): (r: nat)
    ensures r >= 1
  {
    if k == 0 then 1 else 2 * Pow(k - 1)
  }

  ghost predicate PowerOfTwo(n: nat) {
    exists k: nat :: n == Pow(k)
  }

  /** The macro `SDMMC_ADDR_ALIGNED`; an alignment of zero makes a mask of all ones. */
  predicate AddrAligned(addr: nat, align: nat) {
    if align == 0 then addr == 0 else And(addr, align - 1) == 0
  }

  /** The mask of a power of two takes a number apart. */
  lemma {:induction false} MaskSplits(a: nat, k: nat) returns (q: nat)
    ensures a == Pow(k) * q + And(a, Pow(k) - 1) && And(a, Pow(k) - 1) < Pow(k)
  {
    if a == 0 || k == 0 {
      q := a;
    } else {
      q := MaskSplits(a / 2, k - 1);
      AndOdd(a, Pow(k - 1));
      MaskDoubles(a, Pow(k - 1), q, And(a / 2, Pow(k - 1) - 1));
    }
  }

  lemma MaskDoubles(a: nat, p: nat, q: nat, r: nat)
    requires a / 2 == p * q + r && r < p
    ensures a == (2 * p) * q + (a % 2 + 2 * r) && a % 2 + 2 * r < 2 * p
  {
    assert (2 * p) * q == 2 * (p * q);
  }

  lemma AndOdd(a: nat, p: nat)
    requires a != 0 && p >= 1
    ensures And(a, 2 * p - 1) == a % 2 + 2 * And(a / 2, p - 1)
  {
    assert (2 * p - 1) / 2 == p - 1 && (2 * p - 1) % 2 == 1;
  }

  lemma MaskIsRemainder(a: nat, k: nat)
    ensures And(a, Pow(k) - 1) == a % Pow(k)
  {
    var q := MaskSplits(a, k);
    QuotientIs(a, Pow(k), q, And(a, Pow(k) - 1));
  }

  lemma {:induction false} MaskBelow(k: nat, b: nat)
    requires b < Pow(k)
    ensures And(Pow(k), b) == 0
  {
    if k != 0 && b != 0 {
      MaskBelow(k - 1, b / 2);
    }
  }

  /** The least power of two that reaches `n`. */
  lemma {:induction false} PowerAbove(n: nat) returns (k: nat)
    requires n >= 1
    ensures n <= Pow(k) < 2 * n
  {
    if n == 1 {
      k := 0;
    } else {
      var j := PowerAbove((n + 1) / 2);
      k := j + 1;
      if Pow(k) >= 2 * n {
        assert Pow(j) >= n;
        k := j;
      }
    }
  }

  /** A block address that passes the mask test for `rel` without being a multiple of it. */
  lemma Misjudged(rel: nat) returns (lba: nat)
    requires rel >= 1 && !PowerOfTwo(rel)
    ensures AddrAligned(lba, rel) && lba % rel != 0
  {
    var k := PowerAbove(rel);
    lba := Pow(k);
    MaskBelow(k, rel - 1);
    QuotientIs(lba, rel, 1, lba - rel);
  }

  // ---------------------------------------------------------------- the chunks, on values

  function ChunkCount(count: nat, lba: nat, rel: nat): (c: nat) {
    var c := if AddrAligned(lba, rel) then count else 512;
    if c > rel * 512 then rel * 512 else 512
  }

  /** Progress: the length of a chunk is positive exactly if the supported size is. */
  lemma ChunkProgress(count: nat, lba: nat, rel: nat)
    requires count > 0
    ensures ChunkCount(count, lba, rel) > 0 <==> rel >= 1
  {
  }

  /** The supported size is used exactly for more than one such piece, at an address that
      passes the test; a rest of exactly that size goes out in single sectors. */
  lemma ChunkLongExactly(count: nat, lba: nat, rel: nat)
    requires rel >= 1 && count % 512 == 0 && count > 0
    ensures var c := ChunkCount(count, lba, rel);
            && (rel > 1 ==> (c == rel * 512 <==> AddrAligned(lba, rel) && count > rel * 512))
            && (c != rel * 512 ==> c == 512)
  {
  }

  lemma ChunkCountIs(count: nat, lba: nat, rel: nat)
    requires rel >= 1 && count > 0 && count % 512 == 0
    ensures var c := ChunkCount(count, lba, rel);
            && (c == 512 || (c == rel * 512 && AddrAligned(lba, rel)))
            && 0 < c <= count && c % 512 == 0 && c / 512 >= 1 && (count - c) % 512 == 0
            && c / 512 + (count - c) / 512 == count / 512
  {
    TakenOff(count, if ChunkCount(count, lba, rel) == 512 then 1 else rel);
  }

  /** Whole sectors taken off whole sectors. */
  lemma TakenOff(count: nat, n: nat)
    requires count % 512 == 0 && n * 512 <= count
    ensures (n * 512) % 512 == 0 && n * 512 / 512 == n
    ensures (count - n * 512) % 512 == 0 && (count - n * 512) / 512 == count / 512 - n
  {
    var q := count / 512;
    QuotientIs(n * 512, 512, n, 0);
    QuotientIs(count - n * 512, 512, q - n, 0);
  }

  ghost predicate Blocky(sgs: seq<Sge>) {
    forall s :: s in sgs ==> s.count % 512 == 0
  }

  function PlanOne(addr: nat, count: nat, lba: nat, rel: nat): (p: seq<Chunk>)
    requires rel >= 1 && count % 512 == 0
    decreases count
  {
    if count == 0 then []
    else
      var c := ChunkCount(count, lba, rel);
      ChunkCountIs(count, lba, rel);
      [Chunk(addr, c, lba)] + PlanOne(addr + c, count - c, lba + c / 512, rel)
  }

  function Plan(sgs: seq<Sge>, lba: nat, rel: nat): (p: seq<Chunk>)
    requires rel >= 1 && Blocky(sgs)
  {
    if sgs == [] then []
    else PlanOne(sgs[0].addr, sgs[0].count, lba, rel) + Plan(sgs[1..], lba + sgs[0].count / 512, rel)
  }

  // ---------------------------------------------------------------- what is written where

  /** `n` blocks of memory from `addr` on, written from `lba` on. */
  function Blocks(addr: nat, n: nat, lba: nat): seq<Block>
    decreases n
  {
    if n == 0 then [] else [Block(addr, lba)] + Blocks(addr + 512, n - 1, lba + 1)
  }

  /** What the request means: the blocks of the list in order, at consecutive addresses. */
  function Wanted(sgs: seq<Sge>, lba: nat): seq<Block> {
    if sgs == [] then []
    else Blocks(sgs[0].addr, sgs[0].count / 512, lba) + Wanted(sgs[1..], lba + sgs[0].count / 512)
  }

  /** What a sequence of write commands does. */
  function Written(p: seq<Chunk>): seq<Block> {
    if p == [] then [] else Blocks(p[0].addr, p[0].count / 512, p[0].lba) + Written(p[1..])
  }

  lemma {:induction false} BlocksSplit(addr: nat, a: nat, b: nat, lba: nat)
    ensures Blocks(addr, a + b, lba) == Blocks(addr, a, lba) + Blocks(addr + 512 * a, b, lba + a)
    decreases a
  {
    if a != 0 {
      BlocksSplit(addr + 512, a - 1, b, lba + 1);
    }
  }

  lemma BlocksCut(addr: nat, count: nat, c: nat, lba: nat)
    requires c % 512 == 0 && count % 512 == 0 && c <= count
    ensures Blocks(addr, count / 512, lba) == Blocks(addr, c / 512, lba) + Blocks(addr + c, (count - c) / 512, lba + c / 512)
  {
    BlocksSplit(addr, c / 512, (count - c) / 512, lba);
  }

  lemma WrittenCons(c: Chunk, rest: seq<Chunk>)
    ensures Written([c] + rest) == Blocks(c.addr, c.count / 512, c.lba) + Written(rest)
  {
    assert ([c] + rest)[1..] == rest;
  }

  lemma {:induction false} WrittenAppend(p: seq<Chunk>, q: seq<Chunk>)
    ensures Written(p + q) == Written(p) + Written(q)
  {
    if p == [] {
      assert p + q == q;
    } else {
      assert (p + q)[1..] == p[1..] + q && (p + q)[0] == p[0];
      WrittenAppend(p[1..], q);
    }
  }

  /** A chunk that the device accepts as a reliable write, given the alignment of its address. */
  ghost predicate Shaped(c: Chunk, rel: nat) {
    (c.count == 512 || (c.count == rel * 512 && AddrAligned(c.lba, rel))) && c.count % 512 == 0
  }

  lemma {:induction false} PlanOneShaped(addr: nat, count: nat, lba: nat, rel: nat)
    requires rel >= 1 && count % 512 == 0
    ensures forall c :: c in PlanOne(addr, count, lba, rel) ==> Shaped(c, rel)
    decreases count
  {
    if count != 0 {
      var c := ChunkCount(count, lba, rel);
      ChunkCountIs(count, lba, rel);
      PlanOneShaped(addr + c, count - c, lba + c / 512, rel);
    }
  }

  lemma {:induction false} PlanOneTiles(addr: nat, count: nat, lba: nat, rel: nat)
    requires rel >= 1 && count % 512 == 0
    ensures Written(PlanOne(addr, count, lba, rel)) == Blocks(addr, count / 512, lba)
    decreases count
  {
    if count != 0 {
      var c, rest := PlanOneStep(addr, count, lba, rel);
      PlanOneTiles(addr + c, count - c, lba + c / 512, rel);
      FirstChunk(addr, count, lba, c, rest);
    }
  }

  /** The first chunk of an element and the plan for what is left. */
  lemma PlanOneStep(addr: nat, count: nat, lba: nat, rel: nat) returns (c: nat, rest: seq<Chunk>)
    requires rel >= 1 && count > 0 && count % 512 == 0
    ensures 0 < c <= count && c % 512 == 0 && (count - c) % 512 == 0
    ensures rest == PlanOne(addr + c, count - c, lba + c / 512, rel)
    ensures PlanOne(addr, count, lba, rel) == [Chunk(addr, c, lba)] + rest && c == ChunkCount(count, lba, rel)
  {
    c := ChunkCount(count, lba, rel);
    ChunkCountIs(count, lba, rel);
    rest := PlanOne(addr + c, count - c, lba + c / 512, rel);
  }

  lemma FirstChunk(addr: nat, count: nat, lba: nat, c: nat, rest: seq<Chunk>)
    requires c % 512 == 0 && count % 512 == 0 && c <= count
    requires Written(rest) == Blocks(addr + c, (count - c) / 512, lba + c / 512)
    ensures Written([Chunk(addr, c, lba)] + rest) == Blocks(addr, count / 512, lba)
  {
    WrittenCons(Chunk(addr, c, lba), rest);
    BlocksCut(addr, count, c, lba);
  }

  /** The chunks write exactly what was asked for, in order, at consecutive block addresses. */
  lemma {:induction false} PlanTiles(sgs: seq<Sge>, lba: nat, rel: nat)
    requires rel >= 1 && Blocky(sgs)
    ensures forall c :: c in Plan(sgs, lba, rel) ==> Shaped(c, rel)
    ensures Written(Plan(sgs, lba, rel)) == Wanted(sgs, lba)
  {
    if sgs != [] {
      PlanOneShaped(sgs[0].addr, sgs[0].count, lba, rel);
      PlanOneTiles(sgs[0].addr, sgs[0].count, lba, rel);
      PlanTiles(sgs[1..], lba + sgs[0].count / 512, rel);
      WrittenAppend(PlanOne(sgs[0].addr, sgs[0].count, lba, rel), Plan(sgs[1..], lba + sgs[0].count / 512, rel));
    }
  }

  /** The rule of the standard: 512 bytes or the supported size, at a multiple of the length. */
  ghost predicate Reliable(c: Chunk, rel: nat) {
    c.count > 0 && (c.count == 512 || c.count == rel * 512) && c.lba * 512 % c.count == 0
  }

  ghost predicate AlwaysReliable(rel: nat)
    requires rel >= 1
  {
    forall sgs, lba: nat, c :: Blocky(sgs) && c in Plan(sgs, lba, rel) ==> Reliable(c, rel)
  }

  lemma ScaledAligned(lba: nat, n: nat)
    requires n >= 1
    ensures lba * 512 % (n * 512) == 0 <==> lba % n == 0
  {
    var q, r := lba / n, lba % n;
    assert lba == n * q + r;
    assert lba * 512 == (n * 512) * q + r * 512 by { assert (n * q) * 512 == (n * 512) * q; }
    QuotientIs(lba * 512, n * 512, q, r * 512);
  }

  lemma PowerReliable(rel: nat, k: nat, c: Chunk)
    requires rel == Pow(k) && Shaped(c, rel)
    ensures Reliable(c, rel)
  {
    if c.count == rel * 512 {
      MaskIsRemainder(c.lba, k);
      ScaledAligned(c.lba, rel);
    } else {
      ScaledAligned(c.lba, 1);
    }
  }

  lemma PowerAlwaysReliable(rel: nat, k: nat)
    requires rel == Pow(k)
    ensures AlwaysReliable(rel)
  {
    forall sgs, lba: nat, c | Blocky(sgs) && c in Plan(sgs, lba, rel)
      ensures Reliable(c, rel)
    {
      PlanTiles(sgs, lba, rel);
      PowerReliable(rel, k, c);
    }
  }

  /** For any other size, a request that is cut into a misaligned write. */
  lemma MisalignedWrite(rel: nat) returns (sgs: seq<Sge>, lba: nat, c: Chunk)
    requires rel >= 1 && !PowerOfTwo(rel)
    ensures Blocky(sgs) && c in Plan(sgs, lba, rel) && !Reliable(c, rel)
  {
    lba := Misjudged(rel);
    var count := rel * 512 + 512;
    sgs := [Sge(0, count)];
    assert ChunkCount(count, lba, rel) == rel * 512;
    var n, rest := PlanOneStep(0, count, lba, rel);
    c := Chunk(0, rel * 512, lba);
    assert Plan(sgs, lba, rel)[0] == c;
    ScaledAligned(lba, rel);
    assert rel != 1 by {
      assert 1 == Pow(0);
    }
  }

  /** Every request is cut into writes the standard allows, exactly for powers of two. */
  lemma ReliableExactly(rel: nat)
    requires rel >= 1
    ensures AlwaysReliable(rel) <==> PowerOfTwo(rel)
  {
    if PowerOfTwo(rel) {
      var k: nat :| rel == Pow(k);
      PowerAlwaysReliable(rel, k);
    } else {
      var sgs, lba, c := MisalignedWrite(rel);
      assert !AlwaysReliable(rel);
    }
  }

  // ---------------------------------------------------------------- the loop

  method ChooseCount(left: nat, lba: nat, rel: nat) returns (count: nat)
    requires rel >= 1 && left > 0 && left % 512 == 0 && rel * 512 < 0x1_0000_0000
    ensures count == ChunkCount(left, lba, rel)
    ensures 0 < count <= left && count % 512 == 0 && (left - count) % 512 == 0
    ensures count == 512 || (count == rel * 512 && AddrAligned(lba, rel))
    ensures count / 512 + (left - count) / 512 == left / 512
  {
    var relCount := rel * 512 % 0x1_0000_0000;
    count := left;
    if !AddrAligned(lba, rel) {
      count := 512;
    }
    if count > relCount {
      count := relCount;
    } else if count <= relCount {
      count := 512;
    }
    assert count == ChunkCount(left, lba, rel);
    ChunkCountIs(left, lba, rel);
  }

  /** The loop over one element; `accepted` is the number of write commands that succeed. */
  method SplitOne(sge: Sge, lba0: nat, rel: nat, accepted: nat) returns (issued: seq<Chunk>, lba: nat, ok: bool)
    requires rel >= 1 && sge.count % 512 == 0 && rel * 512 < 0x1_0000_0000
    ensures ok <==> |PlanOne(sge.addr, sge.count, lba0, rel)| <= accepted
    ensures ok ==> issued == PlanOne(sge.addr, sge.count, lba0, rel) && lba == lba0 + sge.count / 512
    ensures !ok ==> issued == PlanOne(sge.addr, sge.count, lba0, rel)[..accepted + 1]
  {
    ghost var plan := PlanOne(sge.addr, sge.count, lba0, rel);
    var addr: nat, left: nat := sge.addr, sge.count;
    issued, lba := [], lba0;
    while left != 0
      invariant left % 512 == 0 && lba + left / 512 == lba0 + sge.count / 512 && |issued| <= accepted
      invariant issued + PlanOne(addr, left, lba, rel) == plan
      decreases left
    {
      var count := ChooseCount(left, lba, rel);
      PlanStep(issued, addr, left, lba, rel);
      issued := issued + [Chunk(addr, count, lba)];
      if |issued| > accepted {
        return issued, lba, false;
      }
      left, addr, lba := left - count, addr + count, lba + count / 512;
    }
    ok := true;
  }

  /** The whole request: what is issued is the plan, or its front up to the first command that fails. */
  method Splitter(sgs: seq<Sge>, lba0: nat, rel: nat, accepted: nat) returns (issued: seq<Chunk>, ok: bool)
    requires rel >= 1 && Blocky(sgs) && rel * 512 < 0x1_0000_0000
    ensures ok <==> |Plan(sgs, lba0, rel)| <= accepted
    ensures issued == if ok then Plan(sgs, lba0, rel) else Plan(sgs, lba0, rel)[..accepted + 1]
    ensures ok ==> Written(issued) == Wanted(sgs, lba0)
  {
    ghost var plan := Plan(sgs, lba0, rel);
    issued := [];
    var lba: nat := lba0;
    var sgi: nat := 0;
    while sgi < |sgs|
      invariant 0 <= sgi <= |sgs| && |issued| <= accepted
      invariant issued + Plan(sgs[sgi..], lba, rel) == plan
    {
      PlanNext(issued, sgs, sgi, lba, rel, accepted);
      var more, next, fine := SplitOne(sgs[sgi], lba, rel, accepted - |issued|);
      issued := issued + more;
      if !fine {
        return issued, false;
      }
      lba, sgi := next, sgi + 1;
    }
    PlanTiles(sgs, lba0, rel);
    ok := true;
  }

  lemma PlanNext(done: seq<Chunk>, sgs: seq<Sge>, i: nat, lba: nat, rel: nat, accepted: nat)
    requires |done| <= accepted && i < |sgs| && rel >= 1 && Blocky(sgs)
    ensures var one := PlanOne(sgs[i].addr, sgs[i].count, lba, rel);
            && done + Plan(sgs[i..], lba, rel) == done + one + Plan(sgs[i + 1..], lba + sgs[i].count / 512, rel)
            && (|done| + |one| > accepted ==>
                  done + one[..accepted - |done| + 1] == (done + Plan(sgs[i..], lba, rel))[..accepted + 1])
  {
    assert sgs[i..][0] == sgs[i] && sgs[i..][1..] == sgs[i + 1..];
    var one, after := PlanOne(sgs[i].addr, sgs[i].count, lba, rel), Plan(sgs[i + 1..], lba + sgs[i].count / 512, rel);
    assert done + (one + after) == done + one + after;
  }

  lemma PlanStep(done: seq<Chunk>, addr: nat, left: nat, lba: nat, rel: nat)
    requires rel >= 1 && left > 0 && left % 512 == 0
    ensures var c := ChunkCount(left, lba, rel);
            && 0 < c <= left && (left - c) % 512 == 0
            && done + PlanOne(addr, left, lba, rel)
               == done + [Chunk(addr, c, lba)] + PlanOne(addr + c, left - c, lba + c / 512, rel)
  {
    ChunkCountIs(left, lba, rel);
  }
}
