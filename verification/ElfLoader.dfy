/** `load_elf64mmu`: the page arithmetic that gives every PT_LOAD segment its
    memory, for bootstrap executables that run behind an MMU.

    Addresses are unbounded naturals.  A machine is what it was at the start and what
    was done to it since; `Phys` reads its memory and `Virt` its page tables.  In use are
    the spans that hold the image and all that has been handed out; `calloc_ram` answers
    with zeroed RAM outside of them. */
module ElfLoader {
  import opened Options
  import opened Pages

  datatype Span = Span(start: nat, size: nat)

  datatype Machine =
    | Boot(memory: int -> bv8, tables: int -> Option<int>, used: seq<Span>)
    | Calloced(was: Machine, d: nat, size: nat)
    | MovedTo(was: Machine, dst: nat, src: int, n: nat)
    | Mapped(was: Machine, v: nat, p: nat, bytes: nat)

  /** A program header; `load` says that the type is PT_LOAD. */
  datatype Phdr = Phdr(load: bool, writable: bool, vaddr: nat, paddr: nat, offset: nat, filesz: nat, memsz: nat)

  // ---------------------------------------------------------------- the machine

  predicate InSpan(s: Span, x: int) {
    s.start <= x < s.start + s.size
  }

  /** The byte at a physical address. */
  function Phys(m: Machine, x: int): bv8 {
    match m
    case Boot(memory, _, _) => memory(x)
    case Calloced(was, d, size) => if d <= x < d + size then 0 else Phys(was, x)
    case MovedTo(was, dst, src, n) => if dst <= x < dst + n then Phys(was, src + (x - dst)) else Phys(was, x)
    case Mapped(was, _, _, _) => Phys(was, x)
  }

  /** Where a virtual address is mapped. */
  function Virt(m: Machine, x: int): Option<int> {
    match m
    case Boot(_, tables, _) => tables(x)
    case Calloced(was, _, _) => Virt(was, x)
    case MovedTo(was, _, _, _) => Virt(was, x)
    case Mapped(was, v, p, bytes) => if v <= x < v + bytes then Some(p + (x - v)) else Virt(was, x)
  }

  predicate InSpans(l: seq<Span>, x: int) {
    l != [] && (InSpan(l[0], x) || InSpans(l[1..], x))
  }

  /** The physical address is in use. */
  predicate Live(m: Machine, x: int) {
    match m
    case Boot(_, _, used) => InSpans(used, x)
    case Calloced(was, d, size) => d <= x < d + size || Live(was, x)
    case MovedTo(was, _, _, _) => Live(was, x)
    case Mapped(was, _, _, _) => Live(was, x)
  }

  /** The two ranges share no address. */
  predicate Beside(s: Span, d: nat, size: nat) {
    s.size == 0 || size == 0 || s.start + s.size <= d || d + size <= s.start
  }

  predicate AllBeside(l: seq<Span>, d: nat, size: nat) {
    l == [] || (Beside(l[0], d, size) && AllBeside(l[1..], d, size))
  }

  /** The range shares no address with anything in use. */
  predicate Fresh(m: Machine, d: nat, size: nat) {
    match m
    case Boot(_, _, used) => AllBeside(used, d, size)
    case Calloced(was, d', size') => Beside(Span(d', size'), d, size) && Fresh(was, d, size)
    case MovedTo(was, _, _, _) => Fresh(was, d, size)
    case Mapped(was, _, _, _) => Fresh(was, d, size)
  }

  function Calloc(m: Machine, d: nat, size: nat): (r: Machine) {
    Calloced(m, d, size)
  }

  function CopyMemory(m: Machine, dst: nat, src: int, n: nat): (r: Machine) {
    MovedTo(m, dst, src, n)
  }

  function MapBytes(m: Machine, v: nat, p: nat, size: nat): (r: Machine) {
    Mapped(m, v, p, size)
  }

  /** `elf_map` works on whole pages. */
  function ElfMap(m: Machine, v: nat, p: nat, size: nat): (r: Machine) {
    MapBytes(m, v, p, RoundPg(size))
  }

  // ---------------------------------------------------------------- one segment

  function InPage(ph: Phdr): (o: nat) {
    ph.vaddr % PAGE
  }

  /** A read-only segment without bss is widened to whole pages, and so is one that
      stays in place and has no bss. */
  predicate Widened(ph: Phdr) {
    ph.memsz == ph.filesz && (!ph.writable || ph.paddr != 0)
  }

  function FileLen(ph: Phdr): (n: nat) {
    if Widened(ph) then RoundPg(ph.filesz + InPage(ph)) else ph.filesz + InPage(ph)
  }

  function MemLen(ph: Phdr): (n: nat) {
    if Widened(ph) then RoundPg(ph.memsz + InPage(ph)) else ph.memsz + InPage(ph)
  }

  /** How much RAM the segment asks for; nothing if it can stay where it is. */
  function RamSize(ph: Phdr): (n: nat)
    requires ph.filesz <= ph.memsz
  {
    if ph.paddr != 0 then RoundPg(MemLen(ph) - TruncPg(FileLen(ph))) else RoundPg(MemLen(ph))
  }

  /** In place: whole file pages are mapped where the image has them, the last,
      partial page and the bss get RAM. */
  function LoadInPlace(m: Machine, ph: Phdr, d: nat): (r: Machine)
    requires ph.filesz <= ph.memsz && ph.paddr != 0
  {
    var va, pa := TruncPg(ph.vaddr), TruncPg(ph.paddr);
    var whole := TruncPg(FileLen(ph));
    var mapped := ElfMap(m, va, pa, whole);
    var rest := RoundPg(MemLen(ph) - whole);
    if rest == 0 then mapped
    else ElfMap(CopyMemory(Calloc(mapped, d, rest), d, pa + whole, FileLen(ph) % PAGE), va + whole, d, rest)
  }

  /** `size` bytes of new memory mapped at `va` that begin with a copy of `n` bytes. */
  function Fetched(m: Machine, va: nat, src: int, n: nat, size: nat, d: nat): (r: Machine) {
    MapBytes(CopyMemory(Calloc(m, d, size), d, src, n), va, d, size)
  }

  /** Otherwise the whole segment is copied to new memory. */
  function LoadCopied(m: Machine, addr: nat, ph: Phdr, d: nat): (r: Machine) {
    Fetched(m, TruncPg(ph.vaddr), addr + ph.offset - InPage(ph), FileLen(ph), RoundPg(MemLen(ph)), d)
  }

  function LoadSegment(m: Machine, addr: nat, ph: Phdr, d: nat): (r: Machine)
    requires ph.filesz <= ph.memsz
  {
    if !ph.load then m
    else if ph.paddr != 0 then LoadInPlace(m, ph, d)
    else LoadCopied(m, addr, ph, d)
  }

  /** Where the image keeps the file bytes of the segment. */
  function Source(addr: nat, ph: Phdr): (a: nat) {
    if ph.paddr != 0 then ph.paddr else addr + ph.offset
  }

  predicate WellFormed(ph: Phdr) {
    ph.filesz <= ph.memsz && (ph.paddr != 0 ==> ph.paddr % PAGE == ph.vaddr % PAGE)
  }

  /** The image is in place and protected from allocation. */
  predicate ImageHolds(m: Machine, addr: nat, ph: Phdr, file: seq<bv8>) {
    && |file| == ph.filesz
    && forall i {:trigger file[i]} :: 0 <= i < ph.filesz ==>
         Phys(m, Source(addr, ph) + i) == file[i] && Live(m, Source(addr, ph) + i)
  }

  predicate ReadsAs(m: Machine, v: int, b: bv8) {
    Virt(m, v).Some? && Live(m, Virt(m, v).value) && Phys(m, Virt(m, v).value) == b
  }

  /** The System V meaning of a PT_LOAD segment: the file bytes, then zeros. */
  predicate Loaded(m: Machine, ph: Phdr, file: seq<bv8>)
    requires |file| == ph.filesz
  {
    forall i :: 0 <= i < ph.memsz ==> ByteLoaded(m, ph, file, i)
  }

  predicate ByteLoaded(m: Machine, ph: Phdr, file: seq<bv8>, i: nat)
    requires |file| == ph.filesz
  {
    ReadsAs(m, ph.vaddr + i, if i < ph.filesz then file[i] else 0)
  }

  lemma {:induction false} BesideAll(l: seq<Span>, d: nat, size: nat, x: int)
    requires AllBeside(l, d, size) && InSpans(l, x)
    ensures !(d <= x < d + size)
  {
    if !InSpan(l[0], x) {
      BesideAll(l[1..], d, size, x);
    }
  }

  lemma {:induction false} FreshNotLive(m: Machine, d: nat, size: nat, x: int)
    requires Fresh(m, d, size) && Live(m, x)
    ensures !(d <= x < d + size)
  {
    match m
    case Boot(_, _, used) => BesideAll(used, d, size, x);
    case Calloced(was, d', size') =>
      if !(d' <= x < d' + size') {
        FreshNotLive(was, d, size, x);
      }
    case MovedTo(was, _, _, _) => FreshNotLive(was, d, size, x);
    case Mapped(was, _, _, _) => FreshNotLive(was, d, size, x);
  }

  lemma PageSplit(x: nat)
    ensures TruncPg(x) + x % PAGE == x && TruncPg(x) % PAGE == 0
  {
  }

  // ---------------------------------------------------------------- one segment is right

  /** What later segments rely on: live bytes keep their value and their protection,
      and only the pages of this segment are remapped. */
  ghost predicate KeepsLive(m: Machine, r: Machine) {
    forall x :: Live(m, x) ==> Phys(r, x) == Phys(m, x) && Live(r, x)
  }

  predicate InPages(ph: Phdr, x: int) {
    TruncPg(ph.vaddr) <= x < TruncPg(ph.vaddr) + RoundPg(ph.memsz + InPage(ph))
  }

  ghost predicate MapsWithin(m: Machine, r: Machine, va: nat, n: nat) {
    forall x :: !(va <= x < va + n) ==> Virt(r, x) == Virt(m, x)
  }

  ghost predicate MapsOnly(m: Machine, r: Machine, ph: Phdr) {
    MapsWithin(m, r, TruncPg(ph.vaddr), RoundPg(ph.memsz + InPage(ph)))
  }

  lemma RoundMultiple(x: nat)
    requires x % PAGE == 0
    ensures RoundPg(x) == x && TruncPg(x) == x
  {
  }

  lemma RoundSplit(x: nat, whole: nat)
    requires whole % PAGE == 0 && whole <= x
    ensures whole + RoundPg(x - whole) == RoundPg(x)
  {
    assert (x + PAGE - 1) % PAGE == (x - whole + PAGE - 1) % PAGE;
  }

  /** The page arithmetic of the in-place path. */
  lemma InPlaceLengths(ph: Phdr)
    requires WellFormed(ph) && ph.paddr != 0
    ensures var whole := TruncPg(FileLen(ph));
            && TruncPg(ph.paddr) + InPage(ph) == ph.paddr && TruncPg(ph.vaddr) + InPage(ph) == ph.vaddr
            && whole <= FileLen(ph) <= MemLen(ph) && whole + FileLen(ph) % PAGE == FileLen(ph)
            && RoundPg(whole) == whole
            && whole + RoundPg(MemLen(ph) - whole) == RoundPg(ph.memsz + InPage(ph))
            && FileLen(ph) % PAGE <= RoundPg(MemLen(ph) - whole)
            && RoundPg(RoundPg(MemLen(ph) - whole)) == RoundPg(MemLen(ph) - whole)
            && (RoundPg(MemLen(ph) - whole) == 0 ==> whole == MemLen(ph))
            && (ph.filesz < ph.memsz ==> FileLen(ph) == ph.filesz + InPage(ph))
            && ph.filesz + InPage(ph) <= FileLen(ph)
  {
    var whole := TruncPg(FileLen(ph));
    PageSplit(MemLen(ph) - whole + PAGE - 1);
    RoundMultiple(RoundPg(MemLen(ph) - whole));
    PageSplit(FileLen(ph));
    RoundMultiple(whole);
    RoundSplit(MemLen(ph), whole);
    PageSplit(ph.memsz + InPage(ph) + PAGE - 1);
    RoundMultiple(RoundPg(ph.memsz + InPage(ph)));
  }

  lemma FetchedVirt(m: Machine, va: nat, src: int, n: nat, size: nat, d: nat, v: int, q: int)
    requires va <= v < va + size && q == d + (v - va)
    ensures Virt(Fetched(m, va, src, n, size, d), v) == Some(q)
  {
    FetchedUnfolds(m, va, src, n, size, d, v);
  }

  lemma FetchedLive(m: Machine, va: nat, src: int, n: nat, size: nat, d: nat, q: int)
    requires d <= q < d + size
    ensures Live(Fetched(m, va, src, n, size, d), q)
  {
    FetchedUnfolds(m, va, src, n, size, d, q);
  }

  /** Reading the machine step by step. */
  lemma FetchedUnfolds(m: Machine, va: nat, src: int, n: nat, size: nat, d: nat, q: int)
    ensures var c := Calloced(m, d, size);
            && (Live(Fetched(m, va, src, n, size, d), q) <==> d <= q < d + size || Live(m, q))
            && Phys(Fetched(m, va, src, n, size, d), q) == (if d <= q < d + n then Phys(c, src + (q - d)) else Phys(c, q))
            && Virt(Fetched(m, va, src, n, size, d), q) == (if va <= q < va + size then Some(d + (q - va)) else Virt(m, q))
  {
    var c := Calloced(m, d, size);
    var t := MovedTo(c, d, src, n);
    assert Fetched(m, va, src, n, size, d) == Mapped(t, va, d, size);
    assert Live(t, q) == Live(c, q) && Virt(t, q) == Virt(c, q) == Virt(m, q);
  }

  lemma FetchedFile(m: Machine, va: nat, src: int, n: nat, size: nat, d: nat, q: int, p: int)
    requires d <= q < d + n && n <= size && p == src + (q - d) && !(d <= p < d + size)
    ensures Phys(Fetched(m, va, src, n, size, d), q) == Phys(m, p)
  {
    FetchedUnfolds(m, va, src, n, size, d, q);
  }

  lemma FetchedZero(m: Machine, va: nat, src: int, n: nat, size: nat, d: nat, q: int)
    requires d + n <= q < d + size
    ensures Phys(Fetched(m, va, src, n, size, d), q) == 0
  {
    FetchedUnfolds(m, va, src, n, size, d, q);
  }

  lemma Reads(r: Machine, v: int, q: int, b: bv8)
    requires Virt(r, v) == Some(q) && Live(r, q) && Phys(r, q) == b
    ensures ReadsAs(r, v, b)
  {
  }

  /** The byte mapped at `v` comes from `p`, outside the new memory, or is zero. */
  lemma FetchedByte(m: Machine, va: nat, src: int, n: nat, size: nat, d: nat, v: int, q: int, p: int, b: bv8)
    requires va <= v < va + size && n <= size && q == d + (v - va) && p == src + (v - va)
    requires q < d + n ==> !(d <= p < d + size) && b == Phys(m, p)
    requires q >= d + n ==> b == 0
    ensures ReadsAs(Fetched(m, va, src, n, size, d), v, b)
  {
    FetchedVirt(m, va, src, n, size, d, v, q);
    FetchedLive(m, va, src, n, size, d, q);
    if q < d + n {
      FetchedFile(m, va, src, n, size, d, q, p);
    } else {
      FetchedZero(m, va, src, n, size, d, q);
    }
    Reads(Fetched(m, va, src, n, size, d), v, q, b);
  }

  /** A byte of new memory when everything in use lies elsewhere. */
  lemma NewByte(m: Machine, va: nat, src: int, n: nat, size: nat, d: nat, x: nat, v: int, p: int, b: bv8)
    requires x < size && n <= size && v == va + x && p == src + x && Fresh(m, d, size)
    requires x < n ==> Live(m, p) && b == Phys(m, p)
    requires x >= n ==> b == 0
    ensures ReadsAs(Fetched(m, va, src, n, size, d), v, b)
  {
    if x < n {
      FreshNotLive(m, d, size, p);
    }
    FetchedByte(m, va, src, n, size, d, v, d + x, p, b);
  }

  lemma FetchedKeeps(m: Machine, va: nat, src: int, n: nat, size: nat, d: nat)
    requires n <= size && Fresh(m, d, size)
    ensures var r := Fetched(m, va, src, n, size, d); KeepsLive(m, r) && MapsWithin(m, r, va, size)
  {
    var r := Fetched(m, va, src, n, size, d);
    forall x
      ensures Live(m, x) ==> Phys(r, x) == Phys(m, x) && Live(r, x)
      ensures !(va <= x < va + size) ==> Virt(r, x) == Virt(m, x)
    {
      FetchedUnfolds(m, va, src, n, size, d, x);
      if Live(m, x) {
        FreshNotLive(m, d, size, x);
      }
    }
  }

  /** The in-place path without its rounding: `whole` bytes stay, `rest` bytes are new. */
  function Placed(m: Machine, va: nat, pa: nat, whole: nat, rest: nat, tail: nat, d: nat): (r: Machine) {
    var mapped := MapBytes(m, va, pa, whole);
    if rest == 0 then mapped else Fetched(mapped, va + whole, pa + whole, tail, rest, d)
  }

  lemma InPlaceIsPlaced(m: Machine, ph: Phdr, d: nat)
    requires WellFormed(ph) && ph.paddr != 0
    ensures LoadInPlace(m, ph, d)
         == Placed(m, TruncPg(ph.vaddr), TruncPg(ph.paddr), TruncPg(FileLen(ph)),
                   RoundPg(MemLen(ph) - TruncPg(FileLen(ph))), FileLen(ph) % PAGE, d)
  {
    InPlaceLengths(ph);
  }

  /** Mapping changes neither the memory nor what is in use. */
  lemma MappedReads(m: Machine, va: nat, pa: nat, whole: nat, x: int)
    ensures var r := Mapped(m, va, pa, whole);
            && Phys(r, x) == Phys(m, x) && (Live(r, x) <==> Live(m, x))
            && Virt(r, x) == (if va <= x < va + whole then Some(pa + (x - va)) else Virt(m, x))
  {
  }

  lemma MappedFresh(m: Machine, va: nat, pa: nat, whole: nat, d: nat, size: nat)
    ensures Fresh(Mapped(m, va, pa, whole), d, size) <==> Fresh(m, d, size)
  {
  }

  /** A byte that stays where it is. */
  lemma PlacedLow(m: Machine, va: nat, pa: nat, whole: nat, rest: nat, tail: nat, d: nat, v: int, p: int)
    requires va <= v < va + whole && p == pa + (v - va) && tail <= rest && Fresh(m, d, rest) && Live(m, p)
    ensures ReadsAs(Placed(m, va, pa, whole, rest, tail, d), v, Phys(m, p))
  {
    var mapped := Mapped(m, va, pa, whole);
    MappedReads(m, va, pa, whole, v);
    MappedReads(m, va, pa, whole, p);
    MappedFresh(m, va, pa, whole, d, rest);
    FetchedKeeps(mapped, va + whole, pa + whole, tail, rest, d);
    Reads(Placed(m, va, pa, whole, rest, tail, d), v, p, Phys(m, p));
  }

  /** A byte in new memory, behind what stays. */
  lemma PlacedHigh(m: Machine, va: nat, pa: nat, whole: nat, rest: nat, tail: nat, d: nat, y: nat, v: int, p: int, b: bv8)
    requires y < rest && tail <= rest && Fresh(m, d, rest) && v == va + whole + y && p == pa + whole + y
    requires y < tail ==> Live(m, p) && b == Phys(m, p)
    requires y >= tail ==> b == 0
    ensures ReadsAs(Placed(m, va, pa, whole, rest, tail, d), v, b)
  {
    var mapped := Mapped(m, va, pa, whole);
    MappedReads(m, va, pa, whole, p);
    MappedFresh(m, va, pa, whole, d, rest);
    NewByte(mapped, va + whole, pa + whole, tail, rest, d, y, v, p, b);
  }

  /** Byte `x` of the segment's pages, mapped at `v`, is the one at `p`, or zero. */
  lemma PlacedByte(m: Machine, va: nat, pa: nat, whole: nat, rest: nat, tail: nat, d: nat, x: nat, v: int, p: int, b: bv8)
    requires x < whole + rest && tail <= rest && Fresh(m, d, rest) && v == va + x && p == pa + x
    requires x < whole + tail ==> Live(m, p) && b == Phys(m, p)
    requires x >= whole + tail ==> b == 0
    ensures ReadsAs(Placed(m, va, pa, whole, rest, tail, d), v, b)
  {
    if x < whole {
      PlacedLow(m, va, pa, whole, rest, tail, d, v, p);
    } else {
      PlacedHigh(m, va, pa, whole, rest, tail, d, x - whole, v, p, b);
    }
  }

  /** The in-place path in numbers, and where byte `i` of the segment falls in it. */
  lemma InPlaceIndex(m: Machine, ph: Phdr, d: nat, i: nat)
    returns (va: nat, pa: nat, whole: nat, rest: nat, tail: nat, x: nat)
    requires WellFormed(ph) && ph.paddr != 0 && i < ph.memsz && Fresh(m, d, RamSize(ph))
    ensures LoadInPlace(m, ph, d) == Placed(m, va, pa, whole, rest, tail, d) && Fresh(m, d, rest)
    ensures va + x == ph.vaddr + i && pa + x == ph.paddr + i
    ensures x < whole + rest && tail <= rest && (x < whole + tail <==> i < ph.filesz)
  {
    InPlaceLengths(ph);
    InPlaceIsPlaced(m, ph, d);
    va, pa, whole, tail, x := TruncPg(ph.vaddr), TruncPg(ph.paddr), TruncPg(FileLen(ph)), FileLen(ph) % PAGE, InPage(ph) + i;
    rest := RoundPg(MemLen(ph) - whole);
  }

  lemma InPlaceParts(m: Machine, ph: Phdr, d: nat) returns (va: nat, pa: nat, whole: nat, rest: nat, tail: nat)
    requires WellFormed(ph) && ph.paddr != 0
    ensures LoadInPlace(m, ph, d) == Placed(m, va, pa, whole, rest, tail, d) && rest == RamSize(ph)
  {
    InPlaceIsPlaced(m, ph, d);
    va, pa, whole, tail := TruncPg(ph.vaddr), TruncPg(ph.paddr), TruncPg(FileLen(ph)), FileLen(ph) % PAGE;
    rest := RoundPg(MemLen(ph) - whole);
  }

  lemma InPlaceByte(m: Machine, ph: Phdr, d: nat, i: nat, b: bv8)
    requires WellFormed(ph) && ph.paddr != 0 && i < ph.memsz && Fresh(m, d, RamSize(ph))
    requires i < ph.filesz ==> Live(m, ph.paddr + i) && b == Phys(m, ph.paddr + i)
    requires i >= ph.filesz ==> b == 0
    ensures ReadsAs(LoadInPlace(m, ph, d), ph.vaddr + i, b)
  {
    var va, pa, whole, rest, tail, x := InPlaceIndex(m, ph, d, i);
    PlacedByte(m, va, pa, whole, rest, tail, d, x, ph.vaddr + i, ph.paddr + i, b);
  }

  /** The page arithmetic of the copying path. */
  lemma CopiedLengths(ph: Phdr)
    requires WellFormed(ph)
    ensures TruncPg(ph.vaddr) + InPage(ph) == ph.vaddr
    ensures ph.filesz + InPage(ph) <= FileLen(ph) <= MemLen(ph) && ph.memsz + InPage(ph) <= MemLen(ph)
    ensures ph.filesz < ph.memsz ==> FileLen(ph) == ph.filesz + InPage(ph)
    ensures RoundPg(MemLen(ph)) == RoundPg(ph.memsz + InPage(ph))
  {
    RoundMultiple(RoundPg(ph.memsz + InPage(ph)));
    PageSplit(ph.memsz + InPage(ph) + PAGE - 1);
  }

  /** The copying path in numbers, and where byte `i` of the segment falls in it. */
  lemma CopiedIndex(m: Machine, addr: nat, ph: Phdr, d: nat, i: nat)
    returns (va: nat, src: int, n: nat, size: nat, x: nat)
    requires WellFormed(ph) && ph.paddr == 0 && i < ph.memsz && Fresh(m, d, RamSize(ph))
    ensures LoadCopied(m, addr, ph, d) == Fetched(m, va, src, n, size, d) && Fresh(m, d, size)
    ensures va + x == ph.vaddr + i && src + x == addr + ph.offset + i
    ensures x < size && n <= size && (x < n <==> i < ph.filesz)
  {
    CopiedLengths(ph);
    va, src, n, size := TruncPg(ph.vaddr), addr + ph.offset - InPage(ph), FileLen(ph), RoundPg(MemLen(ph));
    x := InPage(ph) + i;
  }

  lemma CopiedByte(m: Machine, addr: nat, ph: Phdr, d: nat, i: nat, b: bv8)
    requires WellFormed(ph) && ph.paddr == 0 && i < ph.memsz && Fresh(m, d, RamSize(ph))
    requires i < ph.filesz ==> Live(m, addr + ph.offset + i) && b == Phys(m, addr + ph.offset + i)
    requires i >= ph.filesz ==> b == 0
    ensures ReadsAs(LoadCopied(m, addr, ph, d), ph.vaddr + i, b)
  {
    var va, src, n, size, x := CopiedIndex(m, addr, ph, d, i);
    NewByte(m, va, src, n, size, d, x, ph.vaddr + i, addr + ph.offset + i, b);
  }

  lemma SegmentByte(m: Machine, addr: nat, ph: Phdr, d: nat, i: nat, b: bv8)
    requires WellFormed(ph) && ph.load && i < ph.memsz && Fresh(m, d, RamSize(ph))
    requires i < ph.filesz ==> Live(m, Source(addr, ph) + i) && b == Phys(m, Source(addr, ph) + i)
    requires i >= ph.filesz ==> b == 0
    ensures ReadsAs(LoadSegment(m, addr, ph, d), ph.vaddr + i, b)
  {
    if ph.paddr != 0 {
      InPlaceByte(m, ph, d, i, b);
    } else {
      CopiedByte(m, addr, ph, d, i, b);
    }
  }

  /** One segment: it reads as it should, and nothing else is disturbed. */
  lemma SegmentLoaded(m: Machine, addr: nat, ph: Phdr, d: nat, file: seq<bv8>)
    requires WellFormed(ph) && ph.load
    requires ImageHolds(m, addr, ph, file) && Fresh(m, d, RamSize(ph))
    ensures Loaded(LoadSegment(m, addr, ph, d), ph, file)
  {
    forall i | 0 <= i < ph.memsz
      ensures ByteLoaded(LoadSegment(m, addr, ph, d), ph, file, i)
    {
      assert i < ph.filesz ==> Phys(m, Source(addr, ph) + i) == file[i] && Live(m, Source(addr, ph) + i);
      SegmentByte(m, addr, ph, d, i, if i < ph.filesz then file[i] else 0);
    }
  }

  lemma PlacedKeeps(m: Machine, va: nat, pa: nat, whole: nat, rest: nat, tail: nat, d: nat)
    requires tail <= rest && Fresh(m, d, rest)
    ensures var r := Placed(m, va, pa, whole, rest, tail, d);
            KeepsLive(m, r) && MapsWithin(m, r, va, whole + rest)
  {
    var mapped, r := Mapped(m, va, pa, whole), Placed(m, va, pa, whole, rest, tail, d);
    MappedFresh(m, va, pa, whole, d, rest);
    FetchedKeeps(mapped, va + whole, pa + whole, tail, rest, d);
    forall x
      ensures Live(m, x) ==> Phys(r, x) == Phys(m, x) && Live(r, x)
      ensures !(va <= x < va + whole + rest) ==> Virt(r, x) == Virt(m, x)
    {
      MappedReads(m, va, pa, whole, x);
    }
  }

  lemma CopiedKeeps(m: Machine, addr: nat, ph: Phdr, d: nat)
    requires WellFormed(ph) && ph.paddr == 0 && Fresh(m, d, RamSize(ph))
    ensures var r := LoadCopied(m, addr, ph, d); KeepsLive(m, r) && MapsOnly(m, r, ph)
  {
    CopiedLengths(ph);
    FetchedKeeps(m, TruncPg(ph.vaddr), addr + ph.offset - InPage(ph), FileLen(ph), RoundPg(MemLen(ph)), d);
  }

  lemma InPlaceSpan(ph: Phdr)
    requires WellFormed(ph) && ph.paddr != 0
    ensures var rest := RoundPg(MemLen(ph) - TruncPg(FileLen(ph)));
            FileLen(ph) % PAGE <= rest && TruncPg(FileLen(ph)) + rest == RoundPg(ph.memsz + InPage(ph))
  {
    InPlaceLengths(ph);
  }

  lemma InPlaceKeeps(m: Machine, ph: Phdr, d: nat)
    requires WellFormed(ph) && ph.paddr != 0 && Fresh(m, d, RamSize(ph))
    ensures var r := LoadInPlace(m, ph, d); KeepsLive(m, r) && MapsOnly(m, r, ph)
  {
    var whole := TruncPg(FileLen(ph));
    var rest := RoundPg(MemLen(ph) - whole);
    var va, pa, tail := TruncPg(ph.vaddr), TruncPg(ph.paddr), FileLen(ph) % PAGE;
    InPlaceSpan(ph);
    InPlaceIsPlaced(m, ph, d);
    assert Fresh(m, d, rest);
    PlacedKeeps(m, va, pa, whole, rest, tail, d);
  }

  lemma SegmentKeeps(m: Machine, addr: nat, ph: Phdr, d: nat)
    requires WellFormed(ph) && (ph.load ==> Fresh(m, d, RamSize(ph)))
    ensures var r := LoadSegment(m, addr, ph, d); KeepsLive(m, r) && MapsOnly(m, r, ph)
  {
    if ph.load && ph.paddr != 0 {
      InPlaceKeeps(m, ph, d);
    } else if ph.load {
      CopiedKeeps(m, addr, ph, d);
    }
  }

  /** All that the other segments need to know about one. */
  ghost predicate StepOf(m: Machine, r: Machine, addr: nat, ph: Phdr, file: seq<bv8>) {
    && KeepsLive(m, r)
    && (ph.load ==> MapsOnly(m, r, ph))
    && (!ph.load ==> r == m)
    && (ph.load && ImageHolds(m, addr, ph, file) ==> Loaded(r, ph, file))
  }

  lemma SegmentStep(m: Machine, addr: nat, ph: Phdr, d: nat, file: seq<bv8>)
    requires WellFormed(ph) && (ph.load ==> Fresh(m, d, RamSize(ph)))
    ensures StepOf(m, LoadSegment(m, addr, ph, d), addr, ph, file)
  {
    SegmentKeeps(m, addr, ph, d);
    if ph.load && ImageHolds(m, addr, ph, file) {
      SegmentLoaded(m, addr, ph, d, file);
    }
  }

  // ---------------------------------------------------------------- behind the file bytes

  /** A segment that stays in place and has no bss needs no memory: its pages are mapped where
      the image has them, and nothing is copied. */
  lemma StaysInPlace(m: Machine, addr: nat, ph: Phdr, d: nat, x: int)
    requires WellFormed(ph) && ph.load && ph.paddr != 0 && ph.memsz == ph.filesz
    ensures var r := LoadSegment(m, addr, ph, d);
            && RamSize(ph) == 0 && Phys(r, x) == Phys(m, x) && (Live(r, x) <==> Live(m, x))
            && (InPages(ph, x) ==> Virt(r, x) == Some(TruncPg(ph.paddr) + (x - TruncPg(ph.vaddr))))
  {
    InPlaceLengths(ph);
    RoundIsWhole(ph.filesz + InPage(ph));
    assert TruncPg(FileLen(ph)) == FileLen(ph) == MemLen(ph);
  }

  lemma RoundIsWhole(x: nat)
    ensures TruncPg(RoundPg(x)) == RoundPg(x) && RoundPg(RoundPg(x)) == RoundPg(x)
  {
    PageSplit(x + PAGE - 1);
    RoundMultiple(RoundPg(x));
  }

  /** A copied segment has all of its pages in new memory.  Behind the file bytes follows, on
      the pages of a read-only segment without bss, what the image has there, and otherwise
      zeros. */
  lemma CopiedTail(m: Machine, addr: nat, ph: Phdr, d: nat, x: int)
    requires WellFormed(ph) && ph.load && ph.paddr == 0 && InPages(ph, x) && x >= ph.vaddr + ph.filesz
    requires var p := addr + ph.offset + (x - ph.vaddr); !(d <= p < d + RamSize(ph))
    ensures var r := LoadSegment(m, addr, ph, d);
            ReadsAs(r, x, if !ph.writable && ph.memsz == ph.filesz then Phys(m, addr + ph.offset + (x - ph.vaddr)) else 0)
  {
    var va, size := TruncPg(ph.vaddr), RoundPg(MemLen(ph));
    RoundIsWhole(ph.filesz + InPage(ph));
    PageSplit(ph.vaddr);
    var q, p := d + (x - va), addr + ph.offset + (x - ph.vaddr);
    FetchedByte(m, va, addr + ph.offset - InPage(ph), FileLen(ph), size, d, x, q, p,
                if !ph.writable && ph.memsz == ph.filesz then Phys(m, p) else 0);
  }

  // ---------------------------------------------------------------- all segments

  predicate AllWellFormed(phs: seq<Phdr>) {
    forall i :: 0 <= i < |phs| ==> WellFormed(phs[i])
  }

  /** The loop over the headers; `ds[i]` is what `calloc_ram` answers for header `i`. */
  function LoadAll(m: Machine, addr: nat, phs: seq<Phdr>, ds: seq<nat>): (r: Machine)
    requires |ds| == |phs| && AllWellFormed(phs)
    decreases |phs|
  {
    if phs == [] then m else LoadAll(LoadSegment(m, addr, phs[0], ds[0]), addr, phs[1..], ds[1..])
  }

  /** `calloc_ram` always answers with memory that is not live. */
  predicate Allocates(m: Machine, addr: nat, phs: seq<Phdr>, ds: seq<nat>)
    requires |ds| == |phs| && AllWellFormed(phs)
    decreases |phs|
  {
    phs != [] ==>
      && (phs[0].load ==> Fresh(m, ds[0], RamSize(phs[0])))
      && Allocates(LoadSegment(m, addr, phs[0], ds[0]), addr, phs[1..], ds[1..])
  }

  predicate PagesApart(p: Phdr, q: Phdr) {
    || TruncPg(p.vaddr) + RoundPg(p.memsz + InPage(p)) <= TruncPg(q.vaddr)
    || TruncPg(q.vaddr) + RoundPg(q.memsz + InPage(q)) <= TruncPg(p.vaddr)
  }

  ghost predicate ApartFrom(p: Phdr, phs: seq<Phdr>) {
    forall i :: 0 <= i < |phs| && phs[i].load ==> PagesApart(p, phs[i])
  }

  /** The executable: segments on pages of their own. */
  ghost predicate PageDisjoint(phs: seq<Phdr>) {
    forall i, j :: 0 <= i < j < |phs| && phs[i].load && phs[j].load ==> PagesApart(phs[i], phs[j])
  }

  ghost predicate Image(m: Machine, addr: nat, phs: seq<Phdr>, files: seq<seq<bv8>>) {
    |files| == |phs| && forall i :: 0 <= i < |phs| && phs[i].load ==> ImageHolds(m, addr, phs[i], files[i])
  }

  lemma StepKeepsImage(m: Machine, r: Machine, addr: nat, phs: seq<Phdr>, files: seq<seq<bv8>>)
    requires Image(m, addr, phs, files) && KeepsLive(m, r)
    ensures Image(r, addr, phs, files)
  {
    forall i | 0 <= i < |phs| && phs[i].load
      ensures ImageHolds(r, addr, phs[i], files[i])
    {
      StepKeepsHeld(m, r, addr, phs[i], files[i]);
    }
  }

  lemma StepKeepsHeld(m: Machine, r: Machine, addr: nat, ph: Phdr, file: seq<bv8>)
    requires ImageHolds(m, addr, ph, file) && KeepsLive(m, r)
    ensures ImageHolds(r, addr, ph, file)
  {
    forall i | 0 <= i < ph.filesz
      ensures Phys(r, Source(addr, ph) + i) == file[i] && Live(r, Source(addr, ph) + i)
    {
      assert Phys(m, Source(addr, ph) + i) == file[i] && Live(m, Source(addr, ph) + i);
    }
  }

  lemma StepKeepsLoaded(m: Machine, r: Machine, addr: nat, ph: Phdr, f: seq<bv8>, other: Phdr, file: seq<bv8>)
    requires StepOf(m, r, addr, ph, f) && (ph.load ==> PagesApart(other, ph))
    requires |file| == other.filesz && Loaded(m, other, file)
    ensures Loaded(r, other, file)
  {
    forall i | 0 <= i < other.memsz
      ensures ByteLoaded(r, other, file, i)
    {
      assert ByteLoaded(m, other, file, i);
      assert ph.load ==> !InPages(ph, other.vaddr + i);
    }
  }

  lemma {:induction false} LaterKeepLoaded(m: Machine, addr: nat, phs: seq<Phdr>, ds: seq<nat>, other: Phdr, file: seq<bv8>)
    requires |ds| == |phs| && AllWellFormed(phs) && Allocates(m, addr, phs, ds) && ApartFrom(other, phs)
    requires |file| == other.filesz && Loaded(m, other, file)
    ensures Loaded(LoadAll(m, addr, phs, ds), other, file)
    decreases |phs|
  {
    if phs != [] {
      SegmentStep(m, addr, phs[0], ds[0], []);
      var r := LoadSegment(m, addr, phs[0], ds[0]);
      StepKeepsLoaded(m, r, addr, phs[0], [], other, file);
      LaterKeepLoaded(r, addr, phs[1..], ds[1..], other, file);
    }
  }

  /** PT_LOAD semantics for the whole executable: every loaded segment reads as its
      file bytes followed by zeros, whichever path each of them takes. */
  lemma {:induction false} AllLoaded(m: Machine, addr: nat, phs: seq<Phdr>, ds: seq<nat>, files: seq<seq<bv8>>, j: nat)
    requires |ds| == |phs| && AllWellFormed(phs) && Allocates(m, addr, phs, ds)
    requires PageDisjoint(phs) && Image(m, addr, phs, files) && j < |phs| && phs[j].load
    ensures |files[j]| == phs[j].filesz && Loaded(LoadAll(m, addr, phs, ds), phs[j], files[j])
    decreases |phs|
  {
    SegmentStep(m, addr, phs[0], ds[0], files[0]);
    var r := LoadSegment(m, addr, phs[0], ds[0]);
    if j == 0 {
      LaterKeepLoaded(r, addr, phs[1..], ds[1..], phs[0], files[0]);
    } else {
      StepKeepsImage(m, r, addr, phs[1..], files[1..]);
      AllLoaded(r, addr, phs[1..], ds[1..], files[1..], j - 1);
    }
  }

  // ---------------------------------------------------------------- the virtual bounds

  function BaseAfter(phs: seq<Phdr>, k: nat, base: nat): (b: nat)
    requires k <= |phs|
  {
    if k == 0 then base
    else
      var b := BaseAfter(phs, k - 1, base);
      var va := TruncPg(phs[k - 1].vaddr);
      if phs[k - 1].load && (b == 0 || b > va) then va else b
  }

  function EndAfter(phs: seq<Phdr>, k: nat, end: nat): (e: nat)
    requires k <= |phs|
  {
    if k == 0 then end
    else
      var e := EndAfter(phs, k - 1, end);
      var top := phs[k - 1].vaddr + phs[k - 1].memsz;
      if phs[k - 1].load && e < top then top else e
  }

  lemma {:induction false} EndBounds(phs: seq<Phdr>, k: nat, end: nat, j: nat)
    requires j < k <= |phs| && phs[j].load
    ensures phs[j].vaddr + phs[j].memsz <= EndAfter(phs, k, end)
  {
    if j < k - 1 {
      EndBounds(phs, k - 1, end, j);
    }
  }

  /** And it is the old end or the end of one of them. */
  lemma {:induction false} EndAttained(phs: seq<Phdr>, k: nat, end: nat)
    requires k <= |phs|
    ensures EndAfter(phs, k, end) >= end
    ensures EndAfter(phs, k, end) == end
         || exists j :: 0 <= j < k && phs[j].load && EndAfter(phs, k, end) == phs[j].vaddr + phs[j].memsz
  {
    if k > 0 {
      EndAttained(phs, k - 1, end);
    }
  }

  lemma {:induction false} BaseAttained(phs: seq<Phdr>, k: nat, base: nat)
    requires k <= |phs|
    ensures BaseAfter(phs, k, base) == base
         || exists j :: 0 <= j < k && phs[j].load && BaseAfter(phs, k, base) == TruncPg(phs[j].vaddr)
  {
    if k > 0 {
      BaseAttained(phs, k - 1, base);
    }
  }

  /** The page address of the last loaded segment among the first `k`. */
  function LastPage(phs: seq<Phdr>, k: nat): (v: Option<nat>)
    requires k <= |phs|
  {
    if k == 0 then None else if phs[k - 1].load then Some(TruncPg(phs[k - 1].vaddr)) else LastPage(phs, k - 1)
  }

  predicate NoZeroPage(phs: seq<Phdr>, k: nat)
    requires k <= |phs|
  {
    forall j :: 0 <= j < k && phs[j].load ==> TruncPg(phs[j].vaddr) != 0
  }

  predicate BoundsAll(phs: seq<Phdr>, k: nat, b: nat)
    requires k <= |phs|
  {
    forall j :: 0 <= j < k && phs[j].load ==> b <= TruncPg(phs[j].vaddr)
  }

  /** The lower bound is right exactly when no segment lies on page zero, or the last
      one does: zero also stands for "not set yet" and is otherwise overwritten. */
  lemma {:induction false} BaseBounds(phs: seq<Phdr>, k: nat, base: nat)
    requires k <= |phs|
    ensures BoundsAll(phs, k, BaseAfter(phs, k, base)) <==> NoZeroPage(phs, k) || LastPage(phs, k) == Some(0)
    ensures !NoZeroPage(phs, k) ==> (BaseAfter(phs, k, base) == 0 <==> LastPage(phs, k) == Some(0))
    ensures NoZeroPage(phs, k) && LastPage(phs, k).Some? ==> BaseAfter(phs, k, base) > 0
    ensures LastPage(phs, k).None? ==> forall j :: 0 <= j < k ==> !phs[j].load
  {
    if k > 0 {
      BaseBounds(phs, k - 1, base);
      assert NoZeroPage(phs, k) <==> NoZeroPage(phs, k - 1) && (phs[k - 1].load ==> TruncPg(phs[k - 1].vaddr) != 0);
      var b, b' := BaseAfter(phs, k - 1, base), BaseAfter(phs, k, base);
      assert NoZeroPage(phs, k) && BoundsAll(phs, k - 1, b) ==> BoundsAll(phs, k, b');
      if !NoZeroPage(phs, k) {
        var j :| 0 <= j < k && phs[j].load && TruncPg(phs[j].vaddr) == 0;
        assert BoundsAll(phs, k, b') ==> b' <= TruncPg(phs[j].vaddr);
      }
    }
  }

  /** The failure in its smallest form: a segment at page zero, then one at 0x1000. */
  lemma PageZeroForgotten(a: Phdr, b: Phdr)
    requires a.load && b.load && a.vaddr == 0 && b.vaddr == PAGE
    ensures BaseAfter([a, b], 2, 0) == PAGE
  {
    assert BaseAfter([a, b], 1, 0) == 0;
  }

  // ---------------------------------------------------------------- the loop

  /** The branch for a segment that stays in place. */
  method PlaceSegment(m: Machine, ph: Phdr, d: nat, filesz0: nat, memsz0: nat) returns (r: Machine)
    requires WellFormed(ph) && ph.paddr != 0
    requires ph.memsz == ph.filesz ==> RoundPg(filesz0) == RoundPg(ph.filesz + InPage(ph))
    requires ph.memsz != ph.filesz ==> filesz0 == ph.filesz + InPage(ph) && memsz0 == ph.memsz + InPage(ph)
    ensures r == LoadInPlace(m, ph, d)
  {
    var filesz, memsz := filesz0, memsz0;
    var vaddr, paddr := TruncPg(ph.vaddr), TruncPg(ph.paddr);
    if ph.memsz == ph.filesz {
      memsz, filesz := RoundPg(filesz), RoundPg(filesz);
    }
    assert filesz == FileLen(ph) && memsz == MemLen(ph);
    r := ElfMap(m, vaddr, paddr, TruncPg(filesz));
    memsz := RoundPg(memsz - TruncPg(filesz));
    if memsz != 0 {
      r := Calloc(r, d, memsz);
      r := CopyMemory(r, d, paddr + TruncPg(filesz), filesz % PAGE);
      r := ElfMap(r, vaddr + TruncPg(filesz), d, memsz);
    }
  }

  /** One turn of the loop for a PT_LOAD header, step by step. */
  method LoadOne(m: Machine, addr: nat, ph: Phdr, d: nat) returns (r: Machine)
    requires WellFormed(ph) && ph.load
    ensures r == LoadSegment(m, addr, ph, d)
  {
    var memsz := ph.memsz + ph.vaddr % PAGE;
    var filesz := ph.filesz + ph.vaddr % PAGE;
    RoundIdempotent(filesz);
    if !ph.writable && memsz == filesz {
      memsz, filesz := RoundPg(filesz), RoundPg(filesz);
    }
    if ph.paddr != 0 {
      r := PlaceSegment(m, ph, d, filesz, memsz);
    } else {
      r := Calloc(m, d, RoundPg(memsz));
      r := CopyMemory(r, d, addr + ph.offset - ph.vaddr % PAGE, filesz);
      r := ElfMap(r, TruncPg(ph.vaddr), d, memsz);
    }
  }

  lemma RoundIdempotent(x: nat)
    ensures RoundPg(RoundPg(x)) == RoundPg(x)
  {
    PageSplit(x + PAGE - 1);
    RoundMultiple(RoundPg(x));
  }

  /** `load_elf64mmu`. */
  method LoadElf(m0: Machine, addr: nat, phs: seq<Phdr>, ds: seq<nat>, base0: nat, end0: nat)
    returns (m: Machine, base: nat, end: nat)
    requires |ds| == |phs| && AllWellFormed(phs)
    ensures m == LoadAll(m0, addr, phs, ds)
    ensures base == BaseAfter(phs, |phs|, base0) && end == EndAfter(phs, |phs|, end0)
  {
    m, base, end := m0, base0, end0;
    var i := 0;
    while i < |phs|
      invariant 0 <= i <= |phs|
      invariant LoadAll(m, addr, phs[i..], ds[i..]) == LoadAll(m0, addr, phs, ds)
      invariant base == BaseAfter(phs, i, base0) && end == EndAfter(phs, i, end0)
    {
      var ph := phs[i];
      assert phs[i..][1..] == phs[i + 1..] && ds[i..][1..] == ds[i + 1..];
      if ph.load {
        if base == 0 || base > TruncPg(ph.vaddr) {
          base := TruncPg(ph.vaddr);
        }
        if end < TruncPg(ph.vaddr) + (ph.memsz + ph.vaddr % PAGE) {
          end := TruncPg(ph.vaddr) + (ph.memsz + ph.vaddr % PAGE);
        }
        m := LoadOne(m, addr, ph, ds[i]);
      }
      i := i + 1;
    }
  }
}
