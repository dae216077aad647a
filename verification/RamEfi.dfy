/** The UEFI memory map in the RAM list: the calls of `init_raminfo_efi`, made on the
    allocator of `ram.c`, leave exactly the conventional memory outside the image free. */
module RamEfi {
  import opened Options
  import opened RamMap
  import opened RamRuns
  import EfiMap
  import EfiWalk
  import RamAlloc

  function BlockOf(r: EfiWalk.Ram): Block { Block(r.start, r.size) }

  function RequestOf(c: EfiWalk.Call): (q: Request) {
    match c
    case AvoidRam(r) => Avoid(r.start, r.size)
    case AddRam(r) => Add(BlockOf(r))
    case AllocRam(r) => AllocHere(BlockOf(r))
  }

  function Requests(log: seq<EfiWalk.Call>): (qs: seq<Request>)
    ensures |qs| == |log|
  {
    if log == [] then [] else Requests(log[..|log| - 1]) + [RequestOf(log[|log| - 1])]
  }

  /** What a call does to an address that was, or was not, free. */
  predicate Leaves(before: bool, c: EfiWalk.Call, image: Block, x: int) {
    match c
    case AvoidRam(_) => before
    case AddRam(r) => (before || EfiWalk.Holds(r, x)) && !In(image, x)
    case AllocRam(r) => before && !EfiWalk.Holds(r, x)
  }

  /** Whether an address is free after the calls, if it was, or was not, before. */
  predicate FreeAfter(before: bool, log: seq<EfiWalk.Call>, image: Block, x: int) {
    if log == [] then before
    else Leaves(FreeAfter(before, log[..|log| - 1], image, x), log[|log| - 1], image, x)
  }

  lemma FreeNext(before: bool, log: seq<EfiWalk.Call>, c: EfiWalk.Call, image: Block, x: int)
    ensures FreeAfter(before, log + [c], image, x)
       <==> Leaves(FreeAfter(before, log, image, x), c, image, x)
  {
    assert (log + [c])[..|log|] == log;
  }

  lemma {:induction false} FreeAppend(before: bool, a: seq<EfiWalk.Call>, b: seq<EfiWalk.Call>, image: Block, x: int)
    ensures FreeAfter(before, a + b, image, x) <==> FreeAfter(FreeAfter(before, a, image, x), b, image, x)
    decreases |b|
  {
    if b == [] {
      assert a + b == a;
    } else {
      var n := |b| - 1;
      assert a + b == (a + b[..n]) + [b[n]] && b == b[..n] + [b[n]];
      FreeAppend(before, a, b[..n], image, x);
      FreeNext(before, a + b[..n], b[n], image, x);
      FreeNext(FreeAfter(before, a, image, x), b[..n], b[n], image, x);
    }
  }

  /** One call on the lists. */
  lemma CallFree(s: State, c: EfiWalk.Call, image: Block, x: int)
    requires ValidState(s)
    ensures Free(After(s, RequestOf(c), image).list, x) <==> Leaves(Free(s.list, x), c, image, x)
  {
    match c
    case AvoidRam(_) =>
    case AddRam(r) =>
      AddedIs(s.list, BlockOf(r));
      CutFree(Added(s.list, BlockOf(r)), image.addr, End(image), x);
    case AllocRam(r) => CutFree(s.list, r.start, End(BlockOf(r)), x);
  }

  /** The lists after the calls. */
  lemma {:induction false} ReplayFree(s: State, log: seq<EfiWalk.Call>, image: Block, x: int)
    requires ValidState(s)
    ensures Free(Replay(s, Requests(log), image).list, x) <==> FreeAfter(Free(s.list, x), log, image, x)
    decreases |log|
  {
    if log != [] {
      var n := |log| - 1;
      var qs := Requests(log[..n]);
      ReplayFree(s, log[..n], image, x);
      ReplayValid(s, qs, image);
      assert (qs + [RequestOf(log[n])])[..n] == qs;
      CallFree(Replay(s, qs, image), log[n], image, x);
    }
  }

  /** Avoiding leaves the RAM list alone. */
  lemma {:induction false} AvoidsKeep(before: bool, ds: seq<EfiMap.Desc>, k: nat, image: Block, x: int)
    requires k <= |ds|
    ensures FreeAfter(before, EfiWalk.Avoids(ds, k), image, x) <==> before
  {
    if k > 0 {
      AvoidsKeep(before, ds, k - 1, image, x);
      if ds[k - 1].kind != EfiMap.Conventional {
        FreeNext(before, EfiWalk.Avoids(ds, k - 1), EfiWalk.AvoidRam(EfiWalk.RangeOf(ds[k - 1])), image, x);
      } else {
        assert EfiWalk.Avoids(ds, k) == EfiWalk.Avoids(ds, k - 1);
      }
    }
  }

  lemma RangesNext(m: seq<EfiWalk.Ram>, r: EfiWalk.Ram, x: int)
    ensures EfiWalk.InRanges(m + [r], x) <==> EfiWalk.InRanges(m, x) || EfiWalk.Holds(r, x)
  {
    var l := m + [r];
    assert l[|m|] == r && forall j :: 0 <= j < |m| ==> l[j] == m[j];
  }

  /** The additions free their ranges, outside the image. */
  lemma {:induction false} AddsFree(m: seq<EfiWalk.Ram>, image: Block, x: int)
    ensures FreeAfter(false, EfiWalk.Adds(m), image, x) <==> EfiWalk.InRanges(m, x) && !In(image, x)
  {
    if m != [] {
      var n := |m| - 1;
      AddsFree(m[..n], image, x);
      FreeNext(false, EfiWalk.Adds(m[..n]), EfiWalk.AddRam(m[n]), image, x);
      RangesNext(m[..n], m[n], x);
      assert m == m[..n] + [m[n]];
    }
  }

  ghost predicate ClaimedBelow(ds: seq<EfiMap.Desc>, k: nat, x: int)
    requires k <= |ds|
  {
    exists i :: 0 <= i < k && EfiWalk.Claimed(ds[i].kind) && EfiWalk.Covers(ds[i], x)
  }

  lemma ClaimedNext(ds: seq<EfiMap.Desc>, k: nat, x: int)
    requires k < |ds|
    ensures ClaimedBelow(ds, k + 1, x) <==> ClaimedBelow(ds, k, x) || (EfiWalk.Claimed(ds[k].kind) && EfiWalk.Covers(ds[k], x))
  {
  }

  /** The last pass takes out what the claimed descriptors cover. */
  lemma {:induction false} AllocsFree(before: bool, ds: seq<EfiMap.Desc>, k: nat, image: Block, x: int)
    requires EfiWalk.Ordered(ds) && k <= |ds|
    ensures FreeAfter(before, EfiWalk.Allocs(ds, k), image, x) <==> before && !ClaimedBelow(ds, k, x)
  {
    if k > 0 {
      AllocsFree(before, ds, k - 1, image, x);
      ClaimedNext(ds, k - 1, x);
      if EfiWalk.Claimed(ds[k - 1].kind) {
        FreeNext(before, EfiWalk.Allocs(ds, k - 1), EfiWalk.AllocRam(EfiWalk.RangeOf(ds[k - 1])), image, x);
        EfiWalk.RangeHolds(ds[k - 1], x);
      } else {
        assert EfiWalk.Allocs(ds, k) == EfiWalk.Allocs(ds, k - 1);
      }
    }
  }

  /** The address belongs to conventional memory. */
  ghost predicate Conventional(ds: seq<EfiMap.Desc>, x: int) {
    exists i :: 0 <= i < |ds| && ds[i].kind == EfiMap.Conventional && EfiWalk.Covers(ds[i], x)
  }

  /** Starting without RAM, the calls for a sorted map without overlaps leave exactly the
      conventional memory outside the image free. */
  lemma FreeAfterMap(s: State, ds: seq<EfiMap.Desc>, image: Block, x: int)
    requires ValidState(s) && s.list == []
    requires EfiMap.SortedFrom(ds, 0) && EfiWalk.NoOverlap(multiset(ds))
    ensures Free(Replay(s, Requests(EfiWalk.CallsFor(ds)), image).list, x) <==> Conventional(ds, x) && !In(image, x)
  {
    EfiWalk.SortedOrdered(ds);
    var a, b, c := EfiWalk.Avoids(ds, |ds|), EfiWalk.Adds(EfiWalk.Registered(ds)), EfiWalk.Allocs(ds, |ds|);
    ReplayFree(s, a + b + c, image, x);
    FreeAppend(false, a + b, c, image, x);
    FreeAppend(false, a, b, image, x);
    AvoidsKeep(false, ds, |ds|, image, x);
    AddsFree(EfiWalk.Registered(ds), image, x);
    EfiWalk.RegisteredIs(ds, x);
    AllocsFree(FreeAfter(false, a + b, image, x), ds, |ds|, image, x);
    EfiWalk.KindsAt(ds, x);
  }

  /** What a search hands out afterwards is conventional memory outside the image. */
  lemma FoundAfterMap(s: State, ds: seq<EfiMap.Desc>, image: Block, size: nat, align: nat, x: int)
    requires ValidState(s) && s.list == [] && align >= 1
    requires EfiMap.SortedFrom(ds, 0) && EfiWalk.NoOverlap(multiset(ds))
    requires var a := Answer(Replay(s, Requests(EfiWalk.CallsFor(ds)), image), Any(size, align));
             a.Some? && a.value <= x < a.value + size
    ensures Conventional(ds, x) && !In(image, x)
  {
    var r := Replay(s, Requests(EfiWalk.CallsFor(ds)), image);
    ReplayValid(s, Requests(EfiWalk.CallsFor(ds)), image);
    RangedVisible(r.avoids);
    FoundIs(r.list, Visible(r.avoids), size, align);
    FreeAfterMap(s, ds, image, x);
  }

  /** `init_raminfo_efi` with the calls carried out: from the unsorted map to the RAM list. */
  method InitRaminfo(efi: EfiWalk.Map, ram: RamAlloc.Ram, image: Block) returns (ok: bool)
    requires efi.Valid() && efi.calls == [] && EfiWalk.NoOverlap(multiset(efi.descs[..]))
    requires ram.Valid() && ram.list == []
    modifies efi, efi.descs, ram
    ensures 4 * efi.descs.Length < RamAlloc.MAX_AVOID - |old(ram.avoids)| ==> ok
    ensures ok ==> ram.Valid() && forall x :: Free(ram.list, x) <==> Conventional(old(efi.descs[..]), x) && !In(image, x)
  {
    ghost var s := ram.Now();
    ghost var was := efi.descs[..];
    efi.InitRaminfo();
    ghost var ds := efi.descs[..];
    CallsLength(ds);
    var _, fine := ram.Run(Requests(efi.calls), image);
    ok := fine;
    if ok {
      forall x
        ensures Free(ram.list, x) <==> Conventional(was, x) && !In(image, x)
      {
        FreeAfterMap(s, ds, image, x);
        SameMemory(was, ds, x);
      }
    }
  }

  /** The order of the descriptors does not matter. */
  lemma SameMemory(a: seq<EfiMap.Desc>, b: seq<EfiMap.Desc>, x: int)
    requires multiset(a) == multiset(b)
    ensures Conventional(a, x) <==> Conventional(b, x)
  {
    ConventionalMoves(a, b, x);
    ConventionalMoves(b, a, x);
  }

  lemma ConventionalMoves(a: seq<EfiMap.Desc>, b: seq<EfiMap.Desc>, x: int)
    requires multiset(a) == multiset(b)
    ensures Conventional(a, x) ==> Conventional(b, x)
  {
    if Conventional(a, x) {
      var i :| 0 <= i < |a| && a[i].kind == EfiMap.Conventional && EfiWalk.Covers(a[i], x);
      assert a[i] in multiset(b);
      var j :| 0 <= j < |b| && b[j] == a[i];
    }
  }

  // ---------------------------------------------------------------- how many calls there are

  lemma {:induction false} MergedLength(ds: seq<EfiMap.Desc>, k: nat)
    requires k <= |ds|
    ensures |EfiWalk.Merged(ds, k)| <= k + 1
  {
    if k > 0 {
      MergedLength(ds, k - 1);
    }
  }

  lemma {:induction false} AddsLength(m: seq<EfiWalk.Ram>)
    ensures |EfiWalk.Adds(m)| == |m|
  {
    if m != [] {
      AddsLength(m[..|m| - 1]);
    }
  }

  lemma {:induction false} OthersLength(ds: seq<EfiMap.Desc>, k: nat)
    requires k <= |ds|
    ensures |EfiWalk.Avoids(ds, k)| <= k && |EfiWalk.Allocs(ds, k)| <= k
  {
    if k > 0 {
      OthersLength(ds, k - 1);
    }
  }

  lemma CallsLength(ds: seq<EfiMap.Desc>)
    ensures |EfiWalk.CallsFor(ds)| <= 3 * |ds| + 1
  {
    MergedLength(ds, |ds|);
    AddsLength(EfiWalk.Registered(ds));
    OthersLength(ds, |ds|);
  }
}
