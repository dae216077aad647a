/** The UEFI memory map: the in-place heap sort of `efi_sort_map` and the three
    coalescing passes of `init_raminfo_efi` over the sorted descriptors. */
module EfiMap {
  const U64 := 0x1_0000_0000_0000_0000

  datatype MemType =
    | Reserved | LoaderCode | LoaderData | BootServicesCode | BootServicesData
    | RuntimeServicesCode | RuntimeServicesData | Conventional | Unusable
    | AcpiReclaim | AcpiNvs | MemoryMappedIo | MemoryMappedIoPortSpace | Other(code: nat)

  datatype Desc = Desc(kind: MemType, start: nat, pages: nat)

  // ---------------------------------------------------------------- permutations

  /** `b` is `a` with its first `n` elements in some order. */
  ghost predicate Shuffled(a: seq<Desc>, b: seq<Desc>, n: nat) {
    |a| == |b| && n <= |a| && multiset(a[..n]) == multiset(b[..n]) && a[n..] == b[n..]
  }

  lemma ShuffledTrans(a: seq<Desc>, b: seq<Desc>, c: seq<Desc>, n: nat)
    requires Shuffled(a, b, n) && Shuffled(b, c, n)
    ensures Shuffled(a, c, n)
  {
  }

  lemma ShuffledWider(a: seq<Desc>, b: seq<Desc>, n: nat, k: nat)
    requires Shuffled(a, b, n) && n <= k <= |a|
    ensures Shuffled(a, b, k)
  {
    assert a[..k] == a[..n] + a[n..][..k - n] && b[..k] == b[..n] + b[n..][..k - n];
    assert a[k..] == a[n..][k - n..] && b[k..] == b[n..][k - n..];
  }

  function Exchanged(s: seq<Desc>, i: nat, j: nat): (r: seq<Desc>)
    requires i < |s| && j < |s|
  {
    s[i := s[j]][j := s[i]]
  }

  lemma ExchangedShuffled(s: seq<Desc>, i: nat, j: nat, n: nat)
    requires i < j < n <= |s|
    ensures Shuffled(s, Exchanged(s, i, j), n)
  {
    var t := s[..n];
    var u := Exchanged(t, i, j);
    assert Exchanged(s, i, j)[..n] == u;
    assert multiset(u) == multiset(t);
  }

  /** What holds of every one of the first `n` elements survives a shuffle. */
  lemma ShuffledBelow(a: seq<Desc>, b: seq<Desc>, n: nat, bound: nat)
    requires Shuffled(a, b, n) && forall i :: 0 <= i < n ==> a[i].start <= bound
    ensures forall i :: 0 <= i < n ==> b[i].start <= bound
  {
    forall i | 0 <= i < n
      ensures b[i].start <= bound
    {
      assert b[i] in multiset(b[..n]);
      assert b[i] in a[..n];
    }
  }

  // ---------------------------------------------------------------- heaps

  function Parent(i: nat): (p: nat)
    requires i > 0
    ensures p < i
  {
    (i - 1) / 2
  }

  /** A max-heap on the first `n` elements, except perhaps at `hole`, whose children
      are still below its parent. */
  ghost predicate HeapBut(s: seq<Desc>, n: nat, hole: nat) {
    && n <= |s|
    && (forall i {:trigger Parent(i)} :: 0 < i < n && i != hole ==> s[Parent(i)].start >= s[i].start)
    && (forall i {:trigger Parent(i)} :: 0 < i < n && hole > 0 && Parent(i) == hole ==> s[Parent(hole)].start >= s[i].start)
  }

  ghost predicate Heap(s: seq<Desc>, n: nat) {
    n <= |s| && forall i {:trigger Parent(i)} :: 0 < i < n ==> s[Parent(i)].start >= s[i].start
  }

  lemma {:induction false} HeapRoot(s: seq<Desc>, n: nat, i: nat)
    requires Heap(s, n) && i < n
    ensures s[0].start >= s[i].start
  {
    if i > 0 {
      HeapRoot(s, n, Parent(i));
    }
  }

  /** Exchanging the hole with its smaller parent moves the hole up. */
  lemma HoleMovesUp(s: seq<Desc>, n: nat, hole: nat)
    requires HeapBut(s, n, hole) && 0 < hole < n && s[Parent(hole)].start < s[hole].start
    ensures HeapBut(Exchanged(s, Parent(hole), hole), n, Parent(hole))
  {
    var p := Parent(hole);
    var r := Exchanged(s, p, hole);
    forall i | 0 < i < n && i != p
      ensures r[Parent(i)].start >= r[i].start
    {
      if i != hole && Parent(i) == p {
        assert s[p].start >= s[i].start;
      }
    }
    if p > 0 {
      assert s[Parent(p)].start >= s[p].start;
      forall i | 0 < i < n && Parent(i) == p
        ensures r[Parent(p)].start >= r[i].start
      {
        if i != hole {
          assert s[p].start >= s[i].start;
        }
      }
    }
  }

  lemma HoleOpened(s: seq<Desc>, n: nat)
    requires n < |s| && Heap(s, n)
    ensures HeapBut(s, n + 1, n)
  {
  }

  lemma HoleClosed(s: seq<Desc>, n: nat, hole: nat)
    requires HeapBut(s, n, hole) && hole < n && (hole == 0 || s[Parent(hole)].start >= s[hole].start)
    ensures Heap(s, n)
  {
  }

  method Exchange(a: array<Desc>, i: nat, j: nat)
    requires i < a.Length && j < a.Length && i != j
    modifies a
    ensures a[..] == Exchanged(old(a[..]), i, j)
  {
    var desc := a[i];
    a[i] := a[j];
    a[j] := desc;
  }

  /** One turn of the inner loop of `heapify`: exchange with the parent. */
  method LiftChild(a: array<Desc>, n: nat, child: nat)
    requires 0 < child < n <= a.Length && HeapBut(a[..], n, child) && a[Parent(child)].start < a[child].start
    modifies a
    ensures HeapBut(a[..], n, Parent(child)) && Shuffled(old(a[..]), a[..], n)
  {
    HoleMovesUp(a[..], n, child);
    ExchangedShuffled(a[..], Parent(child), child, n);
    Exchange(a, Parent(child), child);
  }

  method SiftUp(a: array<Desc>, end: nat)
    requires end < a.Length && Heap(a[..], end)
    modifies a
    ensures Heap(a[..], end + 1) && Shuffled(old(a[..]), a[..], end + 1)
  {
    var child: nat := end;
    HoleOpened(a[..], end);
    while child > 0 && a[Parent(child)].start < a[child].start
      invariant child <= end
      invariant HeapBut(a[..], end + 1, child) && Shuffled(old(a[..]), a[..], end + 1)
    {
      ghost var s := a[..];
      LiftChild(a, end + 1, child);
      ShuffledTrans(old(a[..]), s, a[..], end + 1);
      child := Parent(child);
    }
    HoleClosed(a[..], end + 1, child);
  }

  method Heapify(a: array<Desc>, count: nat)
    requires count <= a.Length
    modifies a
    ensures Heap(a[..], count) && Shuffled(old(a[..]), a[..], count)
  {
    var end := 1;
    while end < count
      invariant 1 <= end && (end <= count || count == 0)
      invariant Heap(a[..], if end <= count then end else 0) && Shuffled(old(a[..]), a[..], count)
    {
      ghost var s := a[..];
      SiftUp(a, end);
      ShuffledWider(s, a[..], end + 1, count);
      ShuffledTrans(old(a[..]), s, a[..], count);
      end := end + 1;
    }
  }

  ghost predicate SortedFrom(s: seq<Desc>, n: nat) {
    n <= |s| && forall i, j :: n <= i < j < |s| ==> s[i].start <= s[j].start
  }

  ghost predicate BelowTail(s: seq<Desc>, n: nat) {
    n <= |s| && forall i, j :: 0 <= i < n <= j < |s| ==> s[i].start <= s[j].start
  }

  lemma BelowTailShuffled(a: seq<Desc>, b: seq<Desc>, n: nat)
    requires Shuffled(a, b, n) && BelowTail(a, n)
    ensures BelowTail(b, n)
  {
    forall i, j | 0 <= i < n <= j < |b|
      ensures b[i].start <= b[j].start
    {
      assert a[n..][j - n] == b[n..][j - n];
      ShuffledBelow(a, b, n, a[j].start);
    }
  }

  lemma SortedFromKept(a: seq<Desc>, b: seq<Desc>, n: nat)
    requires Shuffled(a, b, n) && SortedFrom(a, n)
    ensures SortedFrom(b, n)
  {
    forall i | n <= i < |b|
      ensures a[i] == b[i]
    {
      assert a[n..][i - n] == b[n..][i - n];
    }
  }

  /** Moving the root of the heap behind it. */
  lemma RootMoved(s: seq<Desc>, end: nat)
    requires 0 < end < |s| && Heap(s, end + 1) && SortedFrom(s, end + 1) && BelowTail(s, end + 1)
    ensures SortedFrom(Exchanged(s, 0, end), end) && BelowTail(Exchanged(s, 0, end), end)
  {
    forall i | 0 <= i <= end
      ensures s[0].start >= s[i].start
    {
      HeapRoot(s, end + 1, i);
    }
  }

  /** `efi_sort_map`: a sorted permutation of the descriptors. */
  method SortMap(a: array<Desc>)
    requires a.Length > 0
    modifies a
    ensures SortedFrom(a[..], 0) && multiset(a[..]) == multiset(old(a[..]))
  {
    Heapify(a, a.Length);
    var end := a.Length - 1;
    while end > 0
      invariant 0 <= end < a.Length
      invariant Heap(a[..], end + 1) && SortedFrom(a[..], end + 1) && BelowTail(a[..], end + 1)
      invariant Shuffled(old(a[..]), a[..], a.Length)
    {
      ghost var s := a[..];
      RootMoved(s, end);
      ExchangedShuffled(s, 0, end, a.Length);
      Exchange(a, 0, end);
      ghost var t := a[..];
      Heapify(a, end);
      SortedFromKept(t, a[..], end);
      BelowTailShuffled(t, a[..], end);
      ShuffledWider(t, a[..], end, a.Length);
      ShuffledTrans(old(a[..]), s, t, a.Length);
      ShuffledTrans(old(a[..]), t, a[..], a.Length);
      end := end - 1;
    }
    assert a[..a.Length] == a[..] && old(a[..])[..a.Length] == old(a[..]);
  }
}
