/** The callout linker: a sizing pass adds up routine sizes and gives every distinct
    read/write area a slot; after the system page has its final size, a writing pass
    lays the routines out behind the read/write areas and patches the pointers. */
module Callouts {
  import opened Options
  import opened Pages

  /** A routine: its size, the address of its read/write size word (`rwKey`, null if
      it needs none; the word holds `rwLen`), and whether it has a patcher. */
  datatype Rtn = Rtn(code: nat, size: nat, rwKey: Option<nat>, rwLen: nat, patcher: bool)

  /** A function pointer in the system page before or after the writing pass. */
  datatype Pointer = Null | Routine(rtn: Rtn) | Vaddr(v: nat)

  datatype Slot = Slot(addr: nat, ptr: Pointer)

  /** One node of `rw_addrs`. */
  datatype RwInfo = RwInfo(key: nat, off: nat, len: nat)

  /** One node of `patch_data`. */
  datatype PatchInfo = PatchInfo(owner: nat, data: nat)

  /** A routine copied to `off` and patched with its read/write offset and data. */
  datatype Placement = Placement(off: nat, rtn: Rtn, rwOff: nat, data: Option<nat>)

  function RoundWord(x: nat): (r: nat)
    ensures x <= r < x + 8 && r % 8 == 0
  {
    x + 7 - (x + 7) % 8
  }

  // ---------------------------------------------------------------- read/write slots

  function Find(rw: seq<RwInfo>, key: nat): (r: Option<nat>) {
    if rw == [] then None else if rw[0].key == key then Some(rw[0].off) else Find(rw[1..], key)
  }

  /** Slots lie below `size`, apart from one another, one per key. */
  ghost predicate Slotted(rw: seq<RwInfo>, size: nat) {
    && (forall i :: 0 <= i < |rw| ==> rw[i].off + rw[i].len <= size)
    && (forall i, j :: 0 <= i < j < |rw| ==>
          rw[i].key != rw[j].key && (rw[i].off + rw[i].len <= rw[j].off || rw[j].off + rw[j].len <= rw[i].off))
  }

  lemma {:induction false} FindIs(rw: seq<RwInfo>, key: nat)
    ensures Find(rw, key).Some? <==> exists i :: 0 <= i < |rw| && rw[i].key == key
    ensures Find(rw, key).Some? ==> exists i :: 0 <= i < |rw| && rw[i].key == key && rw[i].off == Find(rw, key).value
  {
    if rw != [] && rw[0].key != key {
      FindIs(rw[1..], key);
      if Find(rw, key).Some? {
        var i :| 0 <= i < |rw[1..]| && rw[1..][i].key == key && rw[1..][i].off == Find(rw, key).value;
        assert rw[i + 1].key == key;
      }
      if exists i :: 0 <= i < |rw| && rw[i].key == key {
        var i :| 0 <= i < |rw| && rw[i].key == key;
        assert rw[1..][i - 1].key == key;
      }
    }
  }

  // ---------------------------------------------------------------- sizing

  datatype Sizes = Sizes(rtnSize: nat, rwSize: nat, rw: seq<RwInfo>)

  function SizeOne(s: Sizes, p: Pointer): (r: Sizes) {
    if !p.Routine? then s
    else
      var t := s.(rtnSize := s.rtnSize + p.rtn.size);
      if p.rtn.rwKey == None || Find(s.rw, p.rtn.rwKey.value).Some? then t
      else t.(rw := [RwInfo(p.rtn.rwKey.value, s.rwSize, p.rtn.rwLen)] + s.rw, rwSize := s.rwSize + p.rtn.rwLen)
  }

  function SizeAll(s: Sizes, slots: seq<Slot>): (r: Sizes)
    decreases |slots|
  {
    if slots == [] then s else SizeAll(SizeOne(s, slots[0].ptr), slots[1..])
  }

  /** Every routine's read/write key has a slot. */
  ghost predicate Covers(rw: seq<RwInfo>, slots: seq<Slot>) {
    forall i :: 0 <= i < |slots| && slots[i].ptr.Routine? && slots[i].ptr.rtn.rwKey != None
      ==> Find(rw, slots[i].ptr.rtn.rwKey.value).Some?
  }

  function TotalSize(slots: seq<Slot>): (n: nat) {
    if slots == [] then 0 else (if slots[0].ptr.Routine? then slots[0].ptr.rtn.size else 0) + TotalSize(slots[1..])
  }

  lemma SizeOneSlotted(s: Sizes, p: Pointer)
    requires Slotted(s.rw, s.rwSize)
    ensures var r := SizeOne(s, p);
            Slotted(r.rw, r.rwSize) && r.rwSize >= s.rwSize && (r.rw == s.rw || (r.rw != [] && r.rw[1..] == s.rw))
  {
    if p.Routine? && p.rtn.rwKey != None {
      FindIs(s.rw, p.rtn.rwKey.value);
    }
  }

  /** A key once found stays found, at the same offset. */
  lemma SizeOneKeeps(s: Sizes, p: Pointer, key: nat)
    requires Find(s.rw, key).Some?
    ensures Find(SizeOne(s, p).rw, key) == Find(s.rw, key)
  {
    var r := SizeOne(s, p);
    if r.rw != s.rw {
      assert r.rw[1..] == s.rw;
    }
  }

  lemma {:induction false} SizeAllKeeps(s: Sizes, slots: seq<Slot>, key: nat)
    requires Find(s.rw, key).Some?
    ensures Find(SizeAll(s, slots).rw, key) == Find(s.rw, key)
    decreases |slots|
  {
    if slots != [] {
      SizeOneKeeps(s, slots[0].ptr, key);
      SizeAllKeeps(SizeOne(s, slots[0].ptr), slots[1..], key);
    }
  }

  /** What the sizing pass establishes. */
  lemma {:induction false} Sized(s: Sizes, slots: seq<Slot>)
    requires Slotted(s.rw, s.rwSize)
    ensures var r := SizeAll(s, slots);
            && r.rtnSize == s.rtnSize + TotalSize(slots) && r.rwSize >= s.rwSize
            && Slotted(r.rw, r.rwSize) && Covers(r.rw, slots)
    decreases |slots|
  {
    if slots != [] {
      var n := SizeOne(s, slots[0].ptr);
      SizeOneSlotted(s, slots[0].ptr);
      Sized(n, slots[1..]);
      var r := SizeAll(s, slots);
      forall i | 0 <= i < |slots| && slots[i].ptr.Routine? && slots[i].ptr.rtn.rwKey != None
        ensures Find(r.rw, slots[i].ptr.rtn.rwKey.value).Some?
      {
        if i == 0 {
          SizeAllKeeps(n, slots[1..], slots[0].ptr.rtn.rwKey.value);
        } else {
          assert slots[i] == slots[1..][i - 1];
        }
      }
    }
  }

  /** Every routine's slot is as long as the routine asks. */
  ghost predicate Roomy(rw: seq<RwInfo>, slots: seq<Slot>) {
    forall i :: 0 <= i < |slots| && slots[i].ptr.Routine? && slots[i].ptr.rtn.rwKey != None
      ==> HasSlot(rw, slots[i].ptr.rtn)
  }

  ghost predicate HasSlot(rw: seq<RwInfo>, rtn: Rtn)
    requires rtn.rwKey != None
  {
    exists j :: 0 <= j < |rw| && rw[j].key == rtn.rwKey.value && rw[j].len == rtn.rwLen
  }

  /** The length is what the size word at the key says: the same for all that share it. */
  ghost predicate SameLengths(rw: seq<RwInfo>, slots: seq<Slot>) {
    && (forall i, j :: 0 <= i < j < |slots| && slots[i].ptr.Routine? && slots[j].ptr.Routine?
          && slots[i].ptr.rtn.rwKey != None && slots[i].ptr.rtn.rwKey == slots[j].ptr.rtn.rwKey
          ==> slots[i].ptr.rtn.rwLen == slots[j].ptr.rtn.rwLen)
    && (forall i, j :: 0 <= i < |slots| && 0 <= j < |rw| && slots[i].ptr.Routine? && slots[i].ptr.rtn.rwKey == Some(rw[j].key)
          ==> slots[i].ptr.rtn.rwLen == rw[j].len)
  }

  lemma SizeOneHasSlot(s: Sizes, rtn: Rtn)
    requires rtn.rwKey != None
    requires forall j :: 0 <= j < |s.rw| && s.rw[j].key == rtn.rwKey.value ==> s.rw[j].len == rtn.rwLen
    ensures HasSlot(SizeOne(s, Routine(rtn)).rw, rtn)
  {
    FindIs(s.rw, rtn.rwKey.value);
    var r := SizeOne(s, Routine(rtn));
    if r.rw != s.rw {
      assert r.rw[0].key == rtn.rwKey.value;
    }
  }

  lemma {:induction false} SizeAllKeepsSlot(s: Sizes, slots: seq<Slot>, rtn: Rtn)
    requires rtn.rwKey != None && HasSlot(s.rw, rtn)
    ensures HasSlot(SizeAll(s, slots).rw, rtn)
    decreases |slots|
  {
    if slots != [] {
      var n := SizeOne(s, slots[0].ptr);
      var j :| 0 <= j < |s.rw| && s.rw[j].key == rtn.rwKey.value && s.rw[j].len == rtn.rwLen;
      if n.rw != s.rw {
        assert n.rw[j + 1] == s.rw[j];
      }
      SizeAllKeepsSlot(n, slots[1..], rtn);
    }
  }

  lemma SameLengthsNext(s: Sizes, slots: seq<Slot>)
    requires slots != [] && SameLengths(s.rw, slots)
    ensures SameLengths(SizeOne(s, slots[0].ptr).rw, slots[1..])
  {
    var r := SizeOne(s, slots[0].ptr);
    forall i, j | 0 <= i < |slots[1..]| && 0 <= j < |r.rw| && slots[1..][i].ptr.Routine? && slots[1..][i].ptr.rtn.rwKey == Some(r.rw[j].key)
      ensures slots[1..][i].ptr.rtn.rwLen == r.rw[j].len
    {
      assert slots[1..][i] == slots[i + 1];
      if r.rw != s.rw && j > 0 {
        assert r.rw[j] == s.rw[j - 1];
      }
    }
  }

  /** The sizing pass gives every routine a slot of the length it asks for. */
  lemma {:induction false} SizedRoomy(s: Sizes, slots: seq<Slot>)
    requires SameLengths(s.rw, slots)
    ensures Roomy(SizeAll(s, slots).rw, slots)
    decreases |slots|
  {
    if slots != [] {
      var n := SizeOne(s, slots[0].ptr);
      SameLengthsNext(s, slots);
      SizedRoomy(n, slots[1..]);
      if slots[0].ptr.Routine? && slots[0].ptr.rtn.rwKey != None {
        SizeOneHasSlot(s, slots[0].ptr.rtn);
        SizeAllKeepsSlot(n, slots[1..], slots[0].ptr.rtn);
      }
      var r := SizeAll(s, slots).rw;
      forall i | 0 <= i < |slots| && slots[i].ptr.Routine? && slots[i].ptr.rtn.rwKey != None
        ensures HasSlot(r, slots[i].ptr.rtn)
      {
        assert i > 0 ==> slots[i] == slots[1..][i - 1];
      }
    }
  }

  function Lengths(rw: seq<RwInfo>): (n: nat) {
    if rw == [] then 0 else rw[0].len + Lengths(rw[1..])
  }

  /** And it leaves no gaps: the area grows by the lengths of the new slots. */
  lemma {:induction false} SizedTight(s: Sizes, slots: seq<Slot>)
    ensures var r := SizeAll(s, slots); r.rwSize - Lengths(r.rw) == s.rwSize - Lengths(s.rw)
    decreases |slots|
  {
    if slots != [] {
      var n := SizeOne(s, slots[0].ptr);
      if n.rw != s.rw {
        assert n.rw[1..] == s.rw;
      }
      SizedTight(n, slots[1..]);
    }
  }

  // ---------------------------------------------------------------- writing

  function DataOf(patch: seq<PatchInfo>, addr: nat): (d: Option<nat>) {
    if patch == [] then None else if patch[0].owner == addr then Some(patch[0].data) else DataOf(patch[1..], addr)
  }

  /** Where the first routine goes. */
  function Origin(total: nat, rwSize: nat): (o: nat) {
    RoundPg(total + rwSize)
  }

  datatype Written = Written(rtnSize: nat, slots: seq<Slot>, placed: seq<Placement>)

  /** Offset handed to a routine: its slot, or the start of the area if it has none. */
  function RwOffset(total: nat, rw: seq<RwInfo>, rtn: Rtn): (o: nat)
    requires rtn.rwKey != None ==> Find(rw, rtn.rwKey.value).Some?
  {
    if rtn.rwKey == None then total else total + Find(rw, rtn.rwKey.value).value
  }

  function PlaceOne(at: nat, total: nat, rw: seq<RwInfo>, patch: seq<PatchInfo>, s: Slot): (p: Placement)
    requires s.ptr.Routine? && (s.ptr.rtn.rwKey != None ==> Find(rw, s.ptr.rtn.rwKey.value).Some?)
  {
    Placement(at, s.ptr.rtn, RwOffset(total, rw, s.ptr.rtn), if s.ptr.rtn.patcher then DataOf(patch, s.addr) else None)
  }

  /** The writing pass from `at` on. */
  function WriteAll(at: nat, total: nat, base: nat, rw: seq<RwInfo>, patch: seq<PatchInfo>, slots: seq<Slot>): (w: Written)
    requires Covers(rw, slots)
    decreases |slots|
  {
    if slots == [] then Written(at, [], [])
    else
      var s := slots[0];
      assert Covers(rw, slots[1..]);
      if !s.ptr.Routine? then
        var w := WriteAll(at, total, base, rw, patch, slots[1..]);
        w.(slots := [s] + w.slots)
      else
        var w := WriteAll(at + s.ptr.rtn.size, total, base, rw, patch, slots[1..]);
        Written(w.rtnSize, [s.(ptr := Vaddr(base + at))] + w.slots, [PlaceOne(at, total, rw, patch, s)] + w.placed)
  }

  /** Routines lie end to end from `at` to `end`. */
  ghost predicate Contiguous(placed: seq<Placement>, at: nat, end: nat)
    decreases |placed|
  {
    if placed == [] then end == at
    else placed[0].off == at && Contiguous(placed[1..], at + placed[0].rtn.size, end)
  }

  /** Each placed routine uses a slot inside the read/write area, the one of its key. */
  ghost predicate SlotsUsed(placed: seq<Placement>, total: nat, rw: seq<RwInfo>) {
    forall i :: 0 <= i < |placed| && placed[i].rtn.rwKey != None ==>
      exists j :: 0 <= j < |rw| && rw[j].key == placed[i].rtn.rwKey.value && placed[i].rwOff == total + rw[j].off
  }

  lemma {:induction false} Wrote(at: nat, total: nat, base: nat, rw: seq<RwInfo>, patch: seq<PatchInfo>, slots: seq<Slot>)
    requires Covers(rw, slots)
    ensures var w := WriteAll(at, total, base, rw, patch, slots);
            && w.rtnSize == at + TotalSize(slots) && |w.slots| == |slots|
            && Contiguous(w.placed, at, w.rtnSize) && SlotsUsed(w.placed, total, rw)
    decreases |slots|
  {
    if slots != [] {
      assert Covers(rw, slots[1..]);
      var s := slots[0];
      var w := WriteAll(at, total, base, rw, patch, slots);
      if s.ptr.Routine? {
        Wrote(at + s.ptr.rtn.size, total, base, rw, patch, slots[1..]);
        assert w.placed[1..] == WriteAll(at + s.ptr.rtn.size, total, base, rw, patch, slots[1..]).placed;
        if s.ptr.rtn.rwKey != None {
          FindIs(rw, s.ptr.rtn.rwKey.value);
        }
        forall i | 0 <= i < |w.placed| && w.placed[i].rtn.rwKey != None
          ensures exists j :: 0 <= j < |rw| && rw[j].key == w.placed[i].rtn.rwKey.value && w.placed[i].rwOff == total + rw[j].off
        {
          if i > 0 {
            assert w.placed[i] == w.placed[1..][i - 1];
          }
        }
      } else {
        Wrote(at, total, base, rw, patch, slots[1..]);
      }
    }
  }

  /** What the sizing pass reports. */
  function ReportedSize(slots: seq<Slot>): (n: nat) {
    RoundWord(TotalSize(slots))
  }

  /** Sizing predicts emission: writing the same slots puts the routines end to end
      from the page-rounded end of the read/write area, within the reported size, and
      every read/write lookup succeeds with a slot of its own inside that area. */
  lemma SizingPredicts(s: Sizes, slots: seq<Slot>, total: nat, base: nat, patch: seq<PatchInfo>)
    requires Slotted(s.rw, s.rwSize) && s.rtnSize == 0
    ensures var z := SizeAll(s, slots);
            var rwSize := RoundWord(z.rwSize);
            var at := Origin(total, rwSize);
            && Slotted(z.rw, rwSize) && Covers(z.rw, slots) && total + rwSize <= at
            && var w := WriteAll(at, total, base, z.rw, patch, slots);
               && Contiguous(w.placed, at, w.rtnSize) && SlotsUsed(w.placed, total, z.rw)
               && w.rtnSize - at == z.rtnSize <= RoundWord(z.rtnSize) == ReportedSize(slots)
  {
    Sized(s, slots);
    var z := SizeAll(s, slots);
    Wrote(Origin(total, RoundWord(z.rwSize)), total, base, z.rw, patch, slots);
  }

  /** Every callout pointer ends up at its own routine, and nothing else changes. */
  lemma {:induction false} PointersSet(at: nat, total: nat, base: nat, rw: seq<RwInfo>, patch: seq<PatchInfo>, slots: seq<Slot>, i: nat)
    requires Covers(rw, slots) && i < |slots|
    ensures var w := WriteAll(at, total, base, rw, patch, slots);
            && |w.slots| == |slots|
            && w.slots[i] == if slots[i].ptr.Routine? then slots[i].(ptr := Vaddr(base + at + TotalSize(slots[..i]))) else slots[i]
    decreases |slots|
  {
    Wrote(at, total, base, rw, patch, slots);
    assert Covers(rw, slots[1..]);
    var next := if slots[0].ptr.Routine? then at + slots[0].ptr.rtn.size else at;
    if i > 0 {
      PointersSet(next, total, base, rw, patch, slots[1..], i - 1);
      assert slots[..i][1..] == slots[1..][..i - 1];
    }
  }

  function Routines(slots: seq<Slot>): (n: nat) {
    if slots == [] then 0 else (if slots[0].ptr.Routine? then 1 else 0) + Routines(slots[1..])
  }

  /** The data is the first that is registered for the address; None if there is none. */
  ghost predicate FirstData(patch: seq<PatchInfo>, addr: nat, d: Option<nat>) {
    if d == None then forall j :: 0 <= j < |patch| ==> patch[j].owner != addr
    else exists j :: 0 <= j < |patch| && patch[j] == PatchInfo(addr, d.value) && forall k :: 0 <= k < j ==> patch[k].owner != addr
  }

  lemma {:induction false} DataOfIs(patch: seq<PatchInfo>, addr: nat)
    ensures FirstData(patch, addr, DataOf(patch, addr))
  {
    if patch != [] {
      var d := DataOf(patch, addr);
      if patch[0].owner == addr {
        assert patch[0] == PatchInfo(addr, d.value);
      } else {
        DataOfIs(patch[1..], addr);
        if d == None {
          forall j | 0 <= j < |patch|
            ensures patch[j].owner != addr
          {
            assert j > 0 ==> patch[j] == patch[1..][j - 1];
          }
        } else {
          var j :| 0 <= j < |patch[1..]| && patch[1..][j] == PatchInfo(addr, d.value)
            && forall k :: 0 <= k < j ==> patch[1..][k].owner != addr;
          assert patch[j + 1] == PatchInfo(addr, d.value);
          forall k | 0 <= k < j + 1
            ensures patch[k].owner != addr
          {
            assert k > 0 ==> patch[k] == patch[1..][k - 1];
          }
        }
      }
    }
  }

  /** What a pointer's routine gets: its own place, the offset of its read/write slot, and
      the registered data if it has a patcher. */
  ghost predicate PlacedFor(p: Placement, s: Slot, off: nat, total: nat, rw: seq<RwInfo>, patch: seq<PatchInfo>)
    requires s.ptr.Routine?
  {
    && p.off == off && p.rtn == s.ptr.rtn
    && (s.ptr.rtn.rwKey == None ==> p.rwOff == total)
    && (s.ptr.rtn.rwKey != None ==>
          exists j :: 0 <= j < |rw| && rw[j].key == s.ptr.rtn.rwKey.value && p.rwOff == total + rw[j].off)
    && (if s.ptr.rtn.patcher then FirstData(patch, s.addr, p.data) else p.data == None)
  }

  lemma PlacedOne(at: nat, total: nat, rw: seq<RwInfo>, patch: seq<PatchInfo>, s: Slot)
    requires s.ptr.Routine? && (s.ptr.rtn.rwKey != None ==> Find(rw, s.ptr.rtn.rwKey.value).Some?)
    ensures PlacedFor(PlaceOne(at, total, rw, patch, s), s, at, total, rw, patch)
  {
    DataOfIs(patch, s.addr);
    if s.ptr.rtn.rwKey != None {
      FindIs(rw, s.ptr.rtn.rwKey.value);
    }
  }

  /** The writing pass places every routine once, in the order of the pointers, with all that
      belongs to its pointer. */
  lemma {:induction false} PlacementAt(at: nat, total: nat, base: nat, rw: seq<RwInfo>, patch: seq<PatchInfo>, slots: seq<Slot>, i: nat)
    requires Covers(rw, slots) && i < |slots|
    ensures var w, n := WriteAll(at, total, base, rw, patch, slots), Routines(slots[..i]);
            && |w.placed| == Routines(slots)
            && (slots[i].ptr.Routine? ==>
                  n < |w.placed| && PlacedFor(w.placed[n], slots[i], at + TotalSize(slots[..i]), total, rw, patch))
    decreases |slots|
  {
    assert Covers(rw, slots[1..]);
    var s := slots[0];
    var next := if s.ptr.Routine? then at + s.ptr.rtn.size else at;
    var w, v := WriteAll(at, total, base, rw, patch, slots), WriteAll(next, total, base, rw, patch, slots[1..]);
    if s.ptr.Routine? {
      PlacedOne(at, total, rw, patch, s);
      assert w.placed[1..] == v.placed;
    }
    if |slots| > 1 {
      PlacementAt(next, total, base, rw, patch, slots[1..], if i > 0 then i - 1 else 0);
    }
    if i > 0 {
      assert slots[..i][1..] == slots[1..][..i - 1] && slots[..i][0] == s && slots[i] == slots[1..][i - 1];
    }
  }

  // ---------------------------------------------------------------- patch data

  /** `callout_register_data`: the first registration for a pointer wins. */
  function Registered(patch: seq<PatchInfo>, slot: Slot, data: Option<nat>): (r: seq<PatchInfo>) {
    if data == None || !slot.ptr.Routine? || !slot.ptr.rtn.patcher || DataOf(patch, slot.addr).Some? then patch
    else [PatchInfo(slot.addr, data.value)] + patch
  }

  /** What a later lookup finds: earlier data if there was any, else the new. */
  lemma RegisteredData(patch: seq<PatchInfo>, slot: Slot, data: Option<nat>, addr: nat)
    ensures DataOf(Registered(patch, slot, data), addr)
         == if DataOf(patch, addr).Some? || addr != slot.addr || !slot.ptr.Routine? || !slot.ptr.rtn.patcher
            then DataOf(patch, addr) else data
  {
    var r := Registered(patch, slot, data);
    if r != patch {
      assert r[1..] == patch;
    }
  }

  /** A registration: the pointer and the data. */
  datatype Registration = Registration(slot: Slot, data: Option<nat>)

  function RegisteredAll(patch: seq<PatchInfo>, regs: seq<Registration>): (r: seq<PatchInfo>) {
    if regs == [] then patch
    else Registered(RegisteredAll(patch, regs[..|regs| - 1]), regs[|regs| - 1].slot, regs[|regs| - 1].data)
  }

  /** The registration is for this pointer and is not refused. */
  predicate Counts(r: Registration, addr: nat) {
    r.slot.addr == addr && r.data != None && r.slot.ptr.Routine? && r.slot.ptr.rtn.patcher
  }

  /** Of any sequence of registrations the first for a pointer is the one that stands. */
  lemma {:induction false} FirstRegistered(patch: seq<PatchInfo>, regs: seq<Registration>, i: nat, addr: nat)
    requires i < |regs| && Counts(regs[i], addr) && DataOf(patch, addr) == None
    requires forall j :: 0 <= j < i ==> !Counts(regs[j], addr)
    ensures DataOf(RegisteredAll(patch, regs), addr) == regs[i].data
    decreases |regs|
  {
    var n := |regs| - 1;
    RegisteredData(RegisteredAll(patch, regs[..n]), regs[n].slot, regs[n].data, addr);
    if i < n {
      FirstRegistered(patch, regs[..n], i, addr);
    } else {
      NoneRegistered(patch, regs[..n], addr);
    }
  }

  lemma {:induction false} NoneRegistered(patch: seq<PatchInfo>, regs: seq<Registration>, addr: nat)
    requires DataOf(patch, addr) == None && forall j :: 0 <= j < |regs| ==> !Counts(regs[j], addr)
    ensures DataOf(RegisteredAll(patch, regs), addr) == None
  {
    if regs != [] {
      var n := |regs| - 1;
      NoneRegistered(patch, regs[..n], addr);
      RegisteredData(RegisteredAll(patch, regs[..n]), regs[n].slot, regs[n].data, addr);
    }
  }

  /** The patcher of a pointer gets what was first registered for the pointer. */
  lemma PatcherGets(at: nat, total: nat, base: nat, rw: seq<RwInfo>, regs: seq<Registration>, slots: seq<Slot>, i: nat, k: nat)
    requires Covers(rw, slots) && i < |slots| && slots[i].ptr.Routine? && slots[i].ptr.rtn.patcher
    requires k < |regs| && Counts(regs[k], slots[i].addr) && forall j :: 0 <= j < k ==> !Counts(regs[j], slots[i].addr)
    ensures var w, n := WriteAll(at, total, base, rw, RegisteredAll([], regs), slots), Routines(slots[..i]);
            n < |w.placed| && w.placed[n].rtn == slots[i].ptr.rtn && w.placed[n].data == regs[k].data
  {
    var patch := RegisteredAll([], regs);
    PlacementAt(at, total, base, rw, patch, slots, i);
    FirstRegistered([], regs, k, slots[i].addr);
    DataOfIs(patch, slots[i].addr);
    FirstIsOne(patch, slots[i].addr, DataOf(patch, slots[i].addr),
               WriteAll(at, total, base, rw, patch, slots).placed[Routines(slots[..i])].data);
  }

  lemma FirstIsOne(patch: seq<PatchInfo>, addr: nat, a: Option<nat>, b: Option<nat>)
    requires FirstData(patch, addr, a) && FirstData(patch, addr, b)
    ensures a == b
  {
    if a.Some? && b.Some? {
      var i :| 0 <= i < |patch| && patch[i] == PatchInfo(addr, a.value) && forall k :: 0 <= k < i ==> patch[k].owner != addr;
      var j :| 0 <= j < |patch| && patch[j] == PatchInfo(addr, b.value) && forall k :: 0 <= k < j ==> patch[k].owner != addr;
      assert i == j;
    }
  }

  function Moved(addr: nat, base: nat, len: nat, diff: int): (r: int) {
    if base <= addr < base + len then addr + diff else addr
  }

  /** `callout_reloc_data`: owners inside the moved stretch move with it. */
  function Relocated(patch: seq<PatchInfo>, base: nat, len: nat, diff: int): (r: seq<PatchInfo>)
    requires base + diff >= 0
  {
    if patch == [] then []
    else [PatchInfo(Moved(patch[0].owner, base, len, diff), patch[0].data)] + Relocated(patch[1..], base, len, diff)
  }

  lemma {:induction false} RelocatedAt(patch: seq<PatchInfo>, base: nat, len: nat, diff: int, i: nat)
    requires base + diff >= 0
    ensures |Relocated(patch, base, len, diff)| == |patch|
    ensures i < |patch| ==> Relocated(patch, base, len, diff)[i] == PatchInfo(Moved(patch[i].owner, base, len, diff), patch[i].data)
  {
    if patch != [] {
      RelocatedAt(patch[1..], base, len, diff, if i > 0 then i - 1 else 0);
    }
  }

  /** Nothing outside the moved stretch lies where it is moved to. */
  predicate Vacant(addr: nat, base: nat, len: nat, diff: int) {
    !(base <= addr < base + len) ==> !(base + diff <= addr < base + len + diff)
  }

  /** Registered data follows its pointer when the system page moves. */
  lemma {:induction false} RelocFollows(patch: seq<PatchInfo>, base: nat, len: nat, diff: int, addr: nat)
    requires base + diff >= 0 && Vacant(addr, base, len, diff)
    requires forall i :: 0 <= i < |patch| ==> Vacant(patch[i].owner, base, len, diff)
    ensures DataOf(Relocated(patch, base, len, diff), if base <= addr < base + len then addr + diff else addr) == DataOf(patch, addr)
  {
    if patch != [] {
      assert Vacant(patch[0].owner, base, len, diff);
      RelocFollows(patch[1..], base, len, diff, addr);
      assert Relocated(patch, base, len, diff)[1..] == Relocated(patch[1..], base, len, diff);
    }
  }
}
