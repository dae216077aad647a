/** The allocator serves the loader: memory that the search of `ram.c` finds page by page is
    what `load_elf64mmu` relies on. */
module RamElf {
  import opened Options
  import opened Pages
  import ElfLoader
  import RamMap

  /** Everything in use has been taken out of the RAM list or is avoided. */
  ghost predicate Guarded(m: ElfLoader.Machine, list: seq<RamMap.Block>, avoids: seq<RamMap.Range>) {
    forall x :: ElfLoader.Live(m, x) ==> !RamMap.Free(list, x) || RamMap.Avoided(avoids, x)
  }

  ghost predicate Unused(list: seq<RamMap.Block>, avoids: seq<RamMap.Range>, d: nat, size: nat) {
    forall x :: d <= x < d + size ==> RamMap.Free(list, x) && !RamMap.Avoided(avoids, x)
  }

  /** The answers to the requests of the loader, one segment after the other. */
  ghost predicate Served(list: seq<RamMap.Block>, avoids: seq<RamMap.Range>, phs: seq<ElfLoader.Phdr>, ds: seq<nat>)
    requires |ds| == |phs| && ElfLoader.AllWellFormed(phs)
    decreases |phs|
  {
    if phs == [] then true
    else
      var size := ElfLoader.RamSize(phs[0]);
      if !phs[0].load || size == 0 then Served(list, avoids, phs[1..], ds[1..])
      else
        && RamMap.Find(list, avoids, size, PAGE) == Some(ds[0])
        && Served(RamMap.Cut(list, ds[0], ds[0] + size), avoids, phs[1..], ds[1..])
  }

  /** Two ranges without a common address. */
  lemma BesideIf(s: ElfLoader.Span, d: nat, size: nat)
    requires forall x :: ElfLoader.InSpan(s, x) ==> !(d <= x < d + size)
    ensures ElfLoader.Beside(s, d, size)
  {
    var x := if d <= s.start then s.start else d;
    assert ElfLoader.InSpan(s, x) ==> !(d <= x < d + size);
  }

  lemma {:induction false} AllBesideIf(l: seq<ElfLoader.Span>, d: nat, size: nat)
    requires forall x :: ElfLoader.InSpans(l, x) ==> !(d <= x < d + size)
    ensures ElfLoader.AllBeside(l, d, size)
  {
    if l != [] {
      assert forall x :: ElfLoader.InSpan(l[0], x) ==> ElfLoader.InSpans(l, x);
      assert forall x :: ElfLoader.InSpans(l[1..], x) ==> ElfLoader.InSpans(l, x);
      BesideIf(l[0], d, size);
      AllBesideIf(l[1..], d, size);
    }
  }

  /** A range without an address in use is fresh. */
  lemma {:induction false} FreshIf(m: ElfLoader.Machine, d: nat, size: nat)
    requires forall x :: ElfLoader.Live(m, x) ==> !(d <= x < d + size)
    ensures ElfLoader.Fresh(m, d, size)
  {
    match m
    case Boot(_, _, used) =>
      assert forall x :: ElfLoader.InSpans(used, x) ==> ElfLoader.Live(m, x);
      AllBesideIf(used, d, size);
    case Calloced(was, d', size') =>
      assert forall x :: ElfLoader.Live(was, x) ==> ElfLoader.Live(m, x);
      assert forall x :: ElfLoader.InSpan(ElfLoader.Span(d', size'), x) ==> ElfLoader.Live(m, x);
      BesideIf(ElfLoader.Span(d', size'), d, size);
      FreshIf(was, d, size);
    case MovedTo(was, _, _, _) =>
      assert forall x :: ElfLoader.Live(was, x) ==> ElfLoader.Live(m, x);
      FreshIf(was, d, size);
    case Mapped(was, _, _, _) =>
      assert forall x :: ElfLoader.Live(was, x) ==> ElfLoader.Live(m, x);
      FreshIf(was, d, size);
  }

  lemma FreshFound(m: ElfLoader.Machine, list: seq<RamMap.Block>, avoids: seq<RamMap.Range>, d: nat, size: nat)
    requires Guarded(m, list, avoids) && Unused(list, avoids, d, size)
    ensures ElfLoader.Fresh(m, d, size)
  {
    FreshIf(m, d, size);
  }

  /** What a segment puts in use: at most the memory it asked for. */
  lemma SegmentLive(m: ElfLoader.Machine, addr: nat, ph: ElfLoader.Phdr, d: nat, x: int)
    requires ElfLoader.WellFormed(ph) && ElfLoader.Live(ElfLoader.LoadSegment(m, addr, ph, d), x)
    ensures ElfLoader.Live(m, x) || (ph.load && d <= x < d + ElfLoader.RamSize(ph))
  {
    if ph.load && ph.paddr != 0 {
      var va, pa, whole, rest, tail := ElfLoader.InPlaceParts(m, ph, d);
      ElfLoader.MappedReads(m, va, pa, whole, x);
      ElfLoader.FetchedUnfolds(ElfLoader.Mapped(m, va, pa, whole), va + whole, pa + whole, tail, rest, d, x);
    } else if ph.load {
      ElfLoader.FetchedUnfolds(m, TruncPg(ph.vaddr), addr + ph.offset - ElfLoader.InPage(ph), ElfLoader.FileLen(ph),
                               RoundPg(ElfLoader.MemLen(ph)), d, x);
    }
  }

  lemma GuardedStep(m: ElfLoader.Machine, addr: nat, ph: ElfLoader.Phdr, d: nat, list: seq<RamMap.Block>, avoids: seq<RamMap.Range>)
    requires ElfLoader.WellFormed(ph) && Guarded(m, list, avoids)
    ensures ph.load ==>
              Guarded(ElfLoader.LoadSegment(m, addr, ph, d), RamMap.Cut(list, d, d + ElfLoader.RamSize(ph)), avoids)
    ensures !ph.load || ElfLoader.RamSize(ph) == 0 ==> Guarded(ElfLoader.LoadSegment(m, addr, ph, d), list, avoids)
  {
    var size := ElfLoader.RamSize(ph);
    forall x | ElfLoader.Live(ElfLoader.LoadSegment(m, addr, ph, d), x)
      ensures !RamMap.Free(RamMap.Cut(list, d, d + size), x) || RamMap.Avoided(avoids, x)
      ensures !ph.load || size == 0 ==> !RamMap.Free(list, x) || RamMap.Avoided(avoids, x)
    {
      SegmentLive(m, addr, ph, d, x);
      RamMap.CutFree(list, d, d + size, x);
    }
  }

  /** Answers of the allocator are answers the loader can rely on. */
  lemma {:induction false} ServedAllocates(m: ElfLoader.Machine, addr: nat, phs: seq<ElfLoader.Phdr>, ds: seq<nat>,
                                           list: seq<RamMap.Block>, avoids: seq<RamMap.Range>)
    requires |ds| == |phs| && ElfLoader.AllWellFormed(phs) && RamMap.Ranged(avoids)
    requires Guarded(m, list, avoids) && Served(list, avoids, phs, ds)
    ensures ElfLoader.Allocates(m, addr, phs, ds)
    decreases |phs|
  {
    if phs != [] {
      var size := ElfLoader.RamSize(phs[0]);
      var r := ElfLoader.LoadSegment(m, addr, phs[0], ds[0]);
      GuardedStep(m, addr, phs[0], ds[0], list, avoids);
      if !phs[0].load || size == 0 {
        if phs[0].load {
          FreshIf(m, ds[0], size);
        }
        ServedAllocates(r, addr, phs[1..], ds[1..], list, avoids);
      } else {
        RamMap.FoundIs(list, avoids, size, PAGE);
        FreshFound(m, list, avoids, ds[0], size);
        ServedAllocates(r, addr, phs[1..], ds[1..], RamMap.Cut(list, ds[0], ds[0] + size), avoids);
      }
    }
  }

  /** PT_LOAD semantics with the real allocator: every segment of a page-disjoint executable
      reads as its file bytes followed by zeros. */
  lemma LoadedFromRam(m: ElfLoader.Machine, addr: nat, phs: seq<ElfLoader.Phdr>, ds: seq<nat>, files: seq<seq<bv8>>,
                      list: seq<RamMap.Block>, avoids: seq<RamMap.Range>, j: nat)
    requires |ds| == |phs| && ElfLoader.AllWellFormed(phs) && RamMap.Ranged(avoids)
    requires Guarded(m, list, avoids) && Served(list, avoids, phs, ds)
    requires ElfLoader.PageDisjoint(phs) && ElfLoader.Image(m, addr, phs, files) && j < |phs| && phs[j].load
    ensures |files[j]| == phs[j].filesz && ElfLoader.Loaded(ElfLoader.LoadAll(m, addr, phs, ds), phs[j], files[j])
  {
    ServedAllocates(m, addr, phs, ds, list, avoids);
    ElfLoader.AllLoaded(m, addr, phs, ds, files, j);
  }
}
