/** The three passes of `init_raminfo_efi` over the sorted memory map. */
module EfiWalk {
  import opened EfiMap
  import opened Pages

  datatype Ram = Ram(start: nat, size: nat)

  datatype Call = AvoidRam(r: Ram) | AddRam(r: Ram) | AllocRam(r: Ram)

  /** In use by firmware or by the loader, but ordinary memory later. */
  predicate Claimed(k: MemType) {
    k in {LoaderCode, LoaderData, BootServicesCode, BootServicesData, RuntimeServicesCode, RuntimeServicesData, AcpiReclaim}
  }

  /** What is never ordinary memory. */
  predicate NotMemory(k: MemType) {
    k.Other? || k in {Reserved, Unusable, AcpiNvs, MemoryMappedIo, MemoryMappedIoPortSpace}
  }

  lemma ClaimedIs(k: MemType)
    ensures Claimed(k) <==> k != Conventional && !NotMemory(k)
  {
  }

  predicate UsableRam(d: Desc) {
    Claimed(d.kind) || d.kind == Conventional
  }

  function SizeOf(d: Desc): (n: nat) {
    PAGE * d.pages % U64
  }

  function RangeOf(d: Desc): (r: Ram) {
    Ram(d.start, SizeOf(d))
  }

  /** The initial pending range: empty, at an address where no page starts. */
  const NOTHING := Ram(U64 - 1, 0)

  /** The ranges collected from the first `k` descriptors, the pending one last. */
  function Merged(ds: seq<Desc>, k: nat): (m: seq<Ram>)
    requires k <= |ds|
    ensures m != []
  {
    if k == 0 then [NOTHING]
    else
      var m := Merged(ds, k - 1);
      if UsableRam(ds[k - 1]) then Extended(m, ds[k - 1]) else m
  }

  function Extended(m: seq<Ram>, d: Desc): (r: seq<Ram>)
    requires m != []
    ensures r != []
  {
    var cur := m[|m| - 1];
    if d.start == (cur.start + cur.size) % U64 then m[|m| - 1 := Ram(cur.start, (cur.size + SizeOf(d)) % U64)]
    else m + [RangeOf(d)]
  }

  // ---------------------------------------------------------------- what the ranges are

  function End(d: Desc): (e: nat) {
    d.start + PAGE * d.pages
  }

  /** Not empty, and below the top of the address space. */
  predicate Proper(d: Desc) {
    d.pages > 0 && End(d) < U64
  }

  ghost predicate Ordered(ds: seq<Desc>) {
    && (forall i :: 0 <= i < |ds| ==> Proper(ds[i]))
    && forall i, j :: 0 <= i < j < |ds| ==> End(ds[i]) <= ds[j].start
  }

  predicate Holds(r: Ram, x: int) {
    r.start <= x < r.start + r.size
  }

  ghost predicate InRanges(m: seq<Ram>, x: int) {
    exists j :: 0 <= j < |m| && Holds(m[j], x)
  }

  predicate InDesc(d: Desc, x: int) {
    UsableRam(d) && d.start <= x < End(d)
  }

  ghost predicate InUsable(ds: seq<Desc>, k: nat, x: int)
    requires k <= |ds|
  {
    exists i :: 0 <= i < k && InDesc(ds[i], x)
  }

  /** After the empty first one, the ranges are non-empty, increasing, and no two touch. */
  ghost predicate Separated(m: seq<Ram>) {
    && m != [] && m[0] == NOTHING
    && (forall j :: 1 <= j < |m| ==> 0 < m[j].size && m[j].start + m[j].size < U64)
    && forall i, j :: 1 <= i < j < |m| ==> m[i].start + m[i].size < m[j].start
  }

  ghost predicate Behind(m: seq<Ram>, a: nat) {
    |m| > 1 ==> m[|m| - 1].start + m[|m| - 1].size <= a
  }

  lemma ExtendedSeparated(m: seq<Ram>, d: Desc)
    requires Separated(m) && Proper(d) && Behind(m, d.start)
    ensures Separated(Extended(m, d)) && Behind(Extended(m, d), End(d)) && |Extended(m, d)| > 1
  {
    ExtendedIs(m, d);
    var cur := m[|m| - 1];
    if d.start == cur.start + cur.size {
      LastGrown(m, Ram(cur.start, cur.size + (End(d) - d.start)));
    } else {
      LastAdded(m, Ram(d.start, End(d) - d.start));
    }
  }

  lemma Below64(x: nat)
    requires x < U64
    ensures x % U64 == x
  {
  }

  /** The 64-bit sums of the walk do not wrap. */
  lemma ExtendedIs(m: seq<Ram>, d: Desc)
    requires Separated(m) && Proper(d) && Behind(m, d.start)
    ensures var cur := m[|m| - 1];
            && SizeOf(d) == End(d) - d.start > 0
            && (d.start == cur.start + cur.size ==> |m| > 1)
            && Extended(m, d)
               == if d.start == cur.start + cur.size then m[|m| - 1 := Ram(cur.start, cur.size + (End(d) - d.start))]
                  else m + [Ram(d.start, End(d) - d.start)]
  {
    var cur := m[|m| - 1];
    Below64(PAGE * d.pages);
    Below64(cur.start + cur.size);
    if d.start == cur.start + cur.size {
      Below64(cur.size + SizeOf(d));
    }
  }

  lemma LastGrown(m: seq<Ram>, r: Ram)
    requires Separated(m) && |m| > 1 && r.start == m[|m| - 1].start && r.size >= m[|m| - 1].size && r.start + r.size < U64
    ensures Separated(m[|m| - 1 := r])
  {
  }

  lemma LastAdded(m: seq<Ram>, r: Ram)
    requires Separated(m) && 0 < r.size && r.start + r.size < U64
    requires |m| > 1 ==> m[|m| - 1].start + m[|m| - 1].size < r.start
    ensures Separated(m + [r])
  {
  }

  lemma ExtendedHolds(m: seq<Ram>, d: Desc, x: int)
    requires Separated(m) && Proper(d) && UsableRam(d) && Behind(m, d.start)
    ensures InRanges(Extended(m, d), x) <==> InRanges(m, x) || InDesc(d, x)
  {
    assert SizeOf(d) == PAGE * d.pages;
    var r := Extended(m, d);
    var last := |m| - 1;
    if |r| == |m| {
      assert r[last].start == m[last].start && r[last].size == m[last].size + SizeOf(d);
      assert Holds(r[last], x) <==> Holds(m[last], x) || InDesc(d, x);
      assert forall j :: 0 <= j < last ==> r[j] == m[j];
    } else {
      assert r[|m|] == RangeOf(d) && (Holds(r[|m|], x) <==> InDesc(d, x));
      assert forall j :: 0 <= j < |m| ==> r[j] == m[j];
    }
  }

  lemma {:induction false} MergedSeparated(ds: seq<Desc>, k: nat)
    requires Ordered(ds) && k <= |ds|
    ensures Separated(Merged(ds, k))
    ensures forall i :: k <= i < |ds| ==> Behind(Merged(ds, k), ds[i].start)
  {
    if k > 0 {
      MergedSeparated(ds, k - 1);
      if UsableRam(ds[k - 1]) {
        ExtendedSeparated(Merged(ds, k - 1), ds[k - 1]);
      }
    }
  }

  /** The union of the ranges is exactly the usable memory. */
  lemma {:induction false} MergedHolds(ds: seq<Desc>, k: nat, x: int)
    requires Ordered(ds) && k <= |ds|
    ensures InRanges(Merged(ds, k), x) <==> InUsable(ds, k, x)
  {
    if k > 0 {
      MergedSeparated(ds, k - 1);
      MergedHolds(ds, k - 1, x);
      var d := ds[k - 1];
      if UsableRam(d) {
        ExtendedHolds(Merged(ds, k - 1), d, x);
      }
      assert InUsable(ds, k, x) <==> InUsable(ds, k - 1, x) || InDesc(d, x);
    }
  }

  // ---------------------------------------------------------------- from the unsorted map

  predicate Apart(d: Desc, e: Desc) {
    End(d) <= e.start || End(e) <= d.start
  }

  /** No two descriptors overlap, however they are arranged. */
  ghost predicate NoOverlap(b: multiset<Desc>) {
    && (forall d :: d in b ==> Proper(d) && b[d] == 1)
    && forall d, e :: d in b && e in b && d != e ==> Apart(d, e)
  }

  lemma Twice(s: seq<Desc>, i: nat, j: nat)
    requires i < j < |s| && s[i] == s[j]
    ensures multiset(s)[s[i]] >= 2
  {
    assert s == s[..j] + [s[j]] + s[j + 1..];
    assert s[..j][i] == s[j];
    assert s[j] in multiset(s[..j]);
  }

  /** Sorting by start is enough to put disjoint descriptors in address order. */
  lemma SortedOrdered(s: seq<Desc>)
    requires SortedFrom(s, 0) && NoOverlap(multiset(s))
    ensures Ordered(s)
  {
    forall i | 0 <= i < |s|
      ensures Proper(s[i])
    {
      assert s[i] in multiset(s);
    }
    forall i, j | 0 <= i < j < |s|
      ensures End(s[i]) <= s[j].start
    {
      assert s[i] in multiset(s) && s[j] in multiset(s);
      if s[i] == s[j] {
        Twice(s, i, j);
        assert false;
      }
      assert Apart(s[i], s[j]);
    }
  }

  // ---------------------------------------------------------------- the calls

  function Avoids(ds: seq<Desc>, k: nat): (c: seq<Call>)
    requires k <= |ds|
  {
    if k == 0 then []
    else Avoids(ds, k - 1) + if ds[k - 1].kind == Conventional then [] else [AvoidRam(RangeOf(ds[k - 1]))]
  }

  function Allocs(ds: seq<Desc>, k: nat): (c: seq<Call>)
    requires k <= |ds|
  {
    if k == 0 then []
    else Allocs(ds, k - 1) + if Claimed(ds[k - 1].kind) then [AllocRam(RangeOf(ds[k - 1]))] else []
  }

  function Adds(m: seq<Ram>): (c: seq<Call>) {
    if m == [] then [] else Adds(m[..|m| - 1]) + [AddRam(m[|m| - 1])]
  }

  /** What pass 1 hands to `add_ram`: the pending range too, unless it is empty. */
  function Registered(ds: seq<Desc>): (m: seq<Ram>) {
    var m := Merged(ds, |ds|);
    if m[|m| - 1].size == 0 then m[..|m| - 1] else m
  }

  /** Pass 1 in full, for every map without overlaps: an empty range first (which the
      RAM list ignores), then non-empty, increasing, non-touching ranges whose union
      is the usable memory; no call at all if there is none. */
  lemma RegisteredIs(ds: seq<Desc>, x: int)
    requires SortedFrom(ds, 0) && NoOverlap(multiset(ds))
    ensures Registered(ds) == [] || (Separated(Registered(ds)) && |Registered(ds)| > 1)
    ensures InRanges(Registered(ds), x) <==> InUsable(ds, |ds|, x)
  {
    SortedOrdered(ds);
    MergedSeparated(ds, |ds|);
    MergedHolds(ds, |ds|, x);
    var m := Merged(ds, |ds|);
    if |m| == 1 {
      assert Registered(ds) == [];
    }
  }

  // ---------------------------------------------------------------- what the calls leave

  ghost predicate Avoided(log: seq<Call>, x: int) {
    exists c :: c in log && c.AvoidRam? && Holds(c.r, x)
  }

  ghost predicate Added(log: seq<Call>, x: int) {
    exists c :: c in log && c.AddRam? && Holds(c.r, x)
  }

  ghost predicate Allocated(log: seq<Call>, x: int) {
    exists c :: c in log && c.AllocRam? && Holds(c.r, x)
  }

  /** The calls of all three passes. */
  function CallsFor(ds: seq<Desc>): (log: seq<Call>) {
    Avoids(ds, |ds|) + Adds(Registered(ds)) + Allocs(ds, |ds|)
  }

  predicate Covers(d: Desc, x: int) {
    d.start <= x < End(d)
  }

  lemma {:induction false} AddsAre(m: seq<Ram>, c: Call)
    ensures c in Adds(m) <==> c.AddRam? && c.r in m
  {
    if m != [] {
      AddsAre(m[..|m| - 1], c);
      assert m == m[..|m| - 1] + [m[|m| - 1]];
    }
  }

  lemma {:induction false} AvoidsAre(ds: seq<Desc>, k: nat, c: Call)
    requires k <= |ds|
    ensures c in Avoids(ds, k) <==> c.AvoidRam? && exists i :: 0 <= i < k && ds[i].kind != Conventional && c.r == RangeOf(ds[i])
  {
    if k > 0 {
      AvoidsAre(ds, k - 1, c);
    }
  }

  lemma {:induction false} AllocsAre(ds: seq<Desc>, k: nat, c: Call)
    requires k <= |ds|
    ensures c in Allocs(ds, k) <==> c.AllocRam? && exists i :: 0 <= i < k && Claimed(ds[i].kind) && c.r == RangeOf(ds[i])
  {
    if k > 0 {
      AllocsAre(ds, k - 1, c);
    }
  }

  /** The calls of the three passes, sorted by kind. */
  lemma CallsAre(ds: seq<Desc>, c: Call)
    ensures c.AvoidRam? ==> (c in CallsFor(ds) <==> c in Avoids(ds, |ds|))
    ensures c.AddRam? ==> (c in CallsFor(ds) <==> c.r in Registered(ds))
    ensures c.AllocRam? ==> (c in CallsFor(ds) <==> c in Allocs(ds, |ds|))
  {
    AvoidsAre(ds, |ds|, c);
    AddsAre(Registered(ds), c);
    AllocsAre(ds, |ds|, c);
  }

  lemma RangeHolds(d: Desc, x: int)
    requires Proper(d)
    ensures Holds(RangeOf(d), x) <==> Covers(d, x)
  {
  }

  lemma AvoidedIs(ds: seq<Desc>, x: int)
    requires Ordered(ds)
    ensures Avoided(CallsFor(ds), x) <==> exists i :: 0 <= i < |ds| && ds[i].kind != Conventional && Covers(ds[i], x)
  {
    if Avoided(CallsFor(ds), x) {
      var c :| c in CallsFor(ds) && c.AvoidRam? && Holds(c.r, x);
      CallsAre(ds, c);
      AvoidsAre(ds, |ds|, c);
      var i :| 0 <= i < |ds| && ds[i].kind != Conventional && c.r == RangeOf(ds[i]);
      RangeHolds(ds[i], x);
    }
    if exists i :: 0 <= i < |ds| && ds[i].kind != Conventional && Covers(ds[i], x) {
      var i :| 0 <= i < |ds| && ds[i].kind != Conventional && Covers(ds[i], x);
      var c := AvoidRam(RangeOf(ds[i]));
      CallsAre(ds, c);
      AvoidsAre(ds, |ds|, c);
      RangeHolds(ds[i], x);
    }
  }

  lemma AllocatedIs(ds: seq<Desc>, x: int)
    requires Ordered(ds)
    ensures Allocated(CallsFor(ds), x) <==> exists i :: 0 <= i < |ds| && Claimed(ds[i].kind) && Covers(ds[i], x)
  {
    if Allocated(CallsFor(ds), x) {
      var c :| c in CallsFor(ds) && c.AllocRam? && Holds(c.r, x);
      CallsAre(ds, c);
      AllocsAre(ds, |ds|, c);
      var i :| 0 <= i < |ds| && Claimed(ds[i].kind) && c.r == RangeOf(ds[i]);
      RangeHolds(ds[i], x);
    }
    if exists i :: 0 <= i < |ds| && Claimed(ds[i].kind) && Covers(ds[i], x) {
      var i :| 0 <= i < |ds| && Claimed(ds[i].kind) && Covers(ds[i], x);
      var c := AllocRam(RangeOf(ds[i]));
      CallsAre(ds, c);
      AllocsAre(ds, |ds|, c);
      RangeHolds(ds[i], x);
    }
  }

  lemma AddedIs(ds: seq<Desc>, x: int)
    requires SortedFrom(ds, 0) && NoOverlap(multiset(ds))
    ensures Added(CallsFor(ds), x) <==> InUsable(ds, |ds|, x)
  {
    RegisteredIs(ds, x);
    var m := Registered(ds);
    if Added(CallsFor(ds), x) {
      var c :| c in CallsFor(ds) && c.AddRam? && Holds(c.r, x);
      CallsAre(ds, c);
      var j :| 0 <= j < |m| && m[j] == c.r;
      assert InRanges(m, x);
    }
    if InRanges(m, x) {
      var j :| 0 <= j < |m| && Holds(m[j], x);
      CallsAre(ds, AddRam(m[j]));
      assert AddRam(m[j]) in CallsFor(ds);
    }
  }

  lemma SameDesc(ds: seq<Desc>, i: nat, j: nat, x: int)
    requires Ordered(ds) && i < |ds| && j < |ds| && Covers(ds[i], x) && Covers(ds[j], x)
    ensures i == j
  {
  }

  /** Avoiding up to `n`, adding up to `k`, allocating from there on. */
  predicate PassesAt(log: seq<Call>, n: int, k: int) {
    && 0 <= n <= k <= |log|
    && (forall i :: 0 <= i < n ==> log[i].AvoidRam?) && (forall i :: n <= i < k ==> log[i].AddRam?)
    && (forall i :: k <= i < |log| ==> log[i].AllocRam?)
  }

  lemma PassesInOrder(ds: seq<Desc>)
    ensures exists n, k :: 0 <= n <= k <= |CallsFor(ds)| && PassesAt(CallsFor(ds), n, k)
  {
    var a, b, c := Avoids(ds, |ds|), Adds(Registered(ds)), Allocs(ds, |ds|);
    forall x
      ensures (x in a ==> x.AvoidRam?) && (x in b ==> x.AddRam?) && (x in c ==> x.AllocRam?)
    {
      AvoidsAre(ds, |ds|, x);
      AddsAre(Registered(ds), x);
      AllocsAre(ds, |ds|, x);
    }
    assert CallsFor(ds) == a + b + c;
    assert PassesAt(CallsFor(ds), |a|, |a| + |b|);
  }

  /** What the three passes amount to: all memory is registered, and all of it but the
      conventional memory is taken back; exactly the conventional memory is not avoided. */
  lemma FreeIsConventional(ds: seq<Desc>, x: int)
    requires SortedFrom(ds, 0) && NoOverlap(multiset(ds))
    ensures Added(CallsFor(ds), x) && !Allocated(CallsFor(ds), x)
       <==> exists i :: 0 <= i < |ds| && ds[i].kind == Conventional && Covers(ds[i], x)
    ensures Avoided(CallsFor(ds), x) <==> exists i :: 0 <= i < |ds| && ds[i].kind != Conventional && Covers(ds[i], x)
    ensures Allocated(CallsFor(ds), x) ==> Added(CallsFor(ds), x)
    ensures Added(CallsFor(ds), x) <==> exists i :: 0 <= i < |ds| && !NotMemory(ds[i].kind) && Covers(ds[i], x)
    ensures Allocated(CallsFor(ds), x)
       <==> exists i :: 0 <= i < |ds| && ds[i].kind != Conventional && !NotMemory(ds[i].kind) && Covers(ds[i], x)
  {
    forall k
      ensures Claimed(k) <==> k != Conventional && !NotMemory(k)
    {
      ClaimedIs(k);
    }
    SortedOrdered(ds);
    UsableIs(ds, x);
    AvoidedIs(ds, x);
    AllocatedIs(ds, x);
    AddedIs(ds, x);
    KindsAt(ds, x);
  }

  lemma UsableIs(ds: seq<Desc>, x: int)
    ensures InUsable(ds, |ds|, x) <==> exists i :: 0 <= i < |ds| && !NotMemory(ds[i].kind) && Covers(ds[i], x)
  {
    forall i | 0 <= i < |ds|
      ensures InDesc(ds[i], x) <==> !NotMemory(ds[i].kind) && Covers(ds[i], x)
    {
      ClaimedIs(ds[i].kind);
    }
  }

  /** An address is covered once, so what covers it tells what it is used for. */
  lemma KindsAt(ds: seq<Desc>, x: int)
    requires Ordered(ds)
    ensures (exists i :: 0 <= i < |ds| && ds[i].kind == Conventional && Covers(ds[i], x))
       <==> InUsable(ds, |ds|, x) && !(exists i :: 0 <= i < |ds| && Claimed(ds[i].kind) && Covers(ds[i], x))
    ensures (exists i :: 0 <= i < |ds| && Claimed(ds[i].kind) && Covers(ds[i], x)) ==> InUsable(ds, |ds|, x)
  {
    if i :| 0 <= i < |ds| && Covers(ds[i], x) {
      forall j | 0 <= j < |ds| && Covers(ds[j], x)
        ensures j == i
      {
        SameDesc(ds, i, j, x);
      }
      assert InUsable(ds, |ds|, x) <==> InDesc(ds[i], x);
    }
  }

  /** Pass 1 makes a call exactly if there is usable memory. */
  lemma RegistersExactly(ds: seq<Desc>)
    requires SortedFrom(ds, 0) && NoOverlap(multiset(ds))
    ensures Registered(ds) != [] <==> exists x :: InUsable(ds, |ds|, x)
  {
    var m := Registered(ds);
    if m != [] {
      RegisteredIs(ds, 0);
      RegisteredIs(ds, m[1].start);
      assert Holds(m[1], m[1].start);
    }
    if x :| InUsable(ds, |ds|, x) {
      RegisteredIs(ds, x);
    }
  }

  class Map {
    const descs: array<Desc>
    var sorted: bool
    var calls: seq<Call>

    ghost predicate Valid()
      reads this, descs
    {
      descs.Length > 0 && (sorted ==> SortedFrom(descs[..], 0))
    }

    /** `efi_walk_map(NULL)`: sort once, then start at the first descriptor. */
    method First() returns (desc: int)
      requires Valid()
      modifies `sorted, descs
      ensures Valid() && sorted && multiset(descs[..]) == multiset(old(descs[..]))
      ensures old(sorted) ==> descs[..] == old(descs[..])
      ensures desc == 0
    {
      if !sorted {
        SortMap(descs);
        sorted := true;
      }
      return 0;
    }

    /** `efi_walk_map(previous)`; -1 is the null descriptor. */
    method Next(previous: nat) returns (desc: int)
      requires previous < descs.Length
      ensures desc == if previous + 1 < descs.Length then previous + 1 else -1
    {
      if previous + 1 >= descs.Length {
        return -1;
      }
      return previous + 1;
    }

    /** Pass 0: keep allocations away from everything but conventional memory. */
    method AvoidCalls() returns (log: seq<Call>)
      requires descs.Length > 0
      ensures log == Avoids(descs[..], descs.Length)
    {
      log := [];
      var desc := 0;
      while desc != -1
        invariant -1 <= desc < descs.Length
        invariant log == Avoids(descs[..], if desc == -1 then descs.Length else desc)
        decreases if desc == -1 then 0 else descs.Length - desc
      {
        var d := descs[desc];
        if Claimed(d.kind) || d.kind != Conventional {
          log := log + [AvoidRam(RangeOf(d))];
        }
        desc := Next(desc);
      }
    }

    /** Pass 1: merge adjacent usable descriptors and register the result. */
    method AddCalls() returns (log: seq<Call>)
      requires descs.Length > 0
      ensures log == Adds(Registered(descs[..]))
    {
      var curStart, curSize := U64 - 1, 0;
      log := [];
      var desc := 0;
      while desc != -1
        invariant -1 <= desc < descs.Length && 0 <= curStart && 0 <= curSize
        invariant Pending(Merged(descs[..], if desc == -1 then descs.Length else desc), curStart, curSize, log)
        decreases if desc == -1 then 0 else descs.Length - desc
      {
        var d := descs[desc];
        if UsableRam(d) {
          PendingStep(Merged(descs[..], desc), d, curStart, curSize, log);
          if d.start == (curStart + curSize) % U64 {
            curSize := (curSize + SizeOf(d)) % U64;
          } else {
            log := log + [AddRam(Ram(curStart, curSize))];
            curStart, curSize := d.start, SizeOf(d);
          }
        }
        desc := Next(desc);
      }
      if curSize != 0 {
        log := log + [AddRam(Ram(curStart, curSize))];
      }
    }

    /** Pass 2: take the claimed ranges back out of the registered memory. */
    method AllocCalls() returns (log: seq<Call>)
      requires descs.Length > 0
      ensures log == Allocs(descs[..], descs.Length)
    {
      log := [];
      var desc := 0;
      while desc != -1
        invariant -1 <= desc < descs.Length
        invariant log == Allocs(descs[..], if desc == -1 then descs.Length else desc)
        decreases if desc == -1 then 0 else descs.Length - desc
      {
        var d := descs[desc];
        if Claimed(d.kind) {
          log := log + [AllocRam(RangeOf(d))];
        }
        desc := Next(desc);
      }
    }

    /** All three passes: every `avoid_ram` comes before any `add_ram`, and every
        `add_ram` before any `alloc_ram`; only the first pass has to sort. */
    method InitRaminfo()
      requires Valid() && calls == []
      modifies this, descs
      ensures SortedFrom(descs[..], 0) && multiset(descs[..]) == multiset(old(descs[..]))
      ensures calls == CallsFor(descs[..])
      ensures exists n, k :: 0 <= n <= k <= |calls| && PassesAt(calls, n, k)
    {
      var _ := First();
      ghost var ds := descs[..];
      var avoided := AvoidCalls();
      var _ := First();
      assert descs[..] == ds;
      var added := AddCalls();
      var _ := First();
      assert descs[..] == ds;
      var allocated_ := AllocCalls();
      calls := avoided + added + allocated_;
      PassesInOrder(ds);
    }
  }

  /** The state of pass 1: all ranges but the last have been registered. */
  ghost predicate Pending(m: seq<Ram>, curStart: nat, curSize: nat, log: seq<Call>) {
    m != [] && m[|m| - 1] == Ram(curStart, curSize) && log == Adds(m[..|m| - 1])
  }

  lemma PendingStep(m: seq<Ram>, d: Desc, curStart: nat, curSize: nat, log: seq<Call>)
    requires Pending(m, curStart, curSize, log)
    ensures if d.start == (curStart + curSize) % U64
            then Pending(Extended(m, d), curStart, (curSize + SizeOf(d)) % U64, log)
            else Pending(Extended(m, d), d.start, SizeOf(d), log + [AddRam(Ram(curStart, curSize))])
  {
    if d.start == (curStart + curSize) % U64 {
      assert Extended(m, d)[..|m| - 1] == m[..|m| - 1];
    } else {
      assert Extended(m, d)[..|m|] == m;
    }
  }
}
