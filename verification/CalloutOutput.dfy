/** The two output passes as they run: one pointer at a time, along the chain of
    output routines (interrupt entries first, once hooked, then the callout
    section), on counters and lists that persist between the passes. */
module CalloutOutput {
  import opened Options
  import opened Pages
  import opened Callouts

  const RTNS_PER_INTR := 5

  lemma {:induction false} SizeAllAppend(s: Sizes, a: seq<Slot>, b: seq<Slot>)
    ensures SizeAll(s, a + b) == SizeAll(SizeAll(s, a), b)
    decreases |a|
  {
    if a == [] {
      assert a + b == b;
    } else {
      assert (a + b)[0] == a[0] && (a + b)[1..] == a[1..] + b;
      SizeAllAppend(SizeOne(s, a[0].ptr), a[1..], b);
    }
  }

  lemma {:induction false} WriteAllAppend(at: nat, total: nat, base: nat, rw: seq<RwInfo>, patch: seq<PatchInfo>, a: seq<Slot>, s: Slot)
    requires Covers(rw, a + [s]) && Covers(rw, a)
    ensures var w := WriteAll(at, total, base, rw, patch, a);
            var v := WriteAll(at, total, base, rw, patch, a + [s]);
            if !s.ptr.Routine? then v == w.(slots := w.slots + [s])
            else
              && (s.ptr.rtn.rwKey != None ==> Find(rw, s.ptr.rtn.rwKey.value).Some?)
              && v == Written(w.rtnSize + s.ptr.rtn.size,
                              w.slots + [s.(ptr := Vaddr(base + w.rtnSize))],
                              w.placed + [PlaceOne(w.rtnSize, total, rw, patch, s)])
    decreases |a|
  {
    assert (a + [s])[|a|] == s;
    if a == [] {
      assert a + [s] == [s] && [s][1..] == [];
    } else {
      assert (a + [s])[0] == a[0] && (a + [s])[1..] == a[1..] + [s];
      assert Covers(rw, a[1..] + [s]) && Covers(rw, a[1..]);
      WriteAllAppend(if a[0].ptr.Routine? then at + a[0].ptr.rtn.size else at, total, base, rw, patch, a[1..], s);
    }
  }

  lemma OneMoved(done: seq<Slot>, was: seq<Slot>, k: nat, s: Slot)
    requires |done| == k < |was|
    ensures (done + was[k..])[k := s] == (done + [s]) + was[k + 1..]
  {
  }

  /** Every routine has its placement. */
  ghost predicate AllPlaced(placed: seq<Placement>, slots: seq<Slot>, at: nat, total: nat, rw: seq<RwInfo>, patch: seq<PatchInfo>) {
    && |placed| == Routines(slots)
    && forall i :: 0 <= i < |slots| && slots[i].ptr.Routine? ==>
         var n := Routines(slots[..i]);
         n < |placed| && PlacedFor(placed[n], slots[i], at + TotalSize(slots[..i]), total, rw, patch)
  }

  lemma EveryPlaced(at: nat, total: nat, base: nat, rw: seq<RwInfo>, patch: seq<PatchInfo>, slots: seq<Slot>)
    requires Covers(rw, slots)
    ensures AllPlaced(WriteAll(at, total, base, rw, patch, slots).placed, slots, at, total, rw, patch)
  {
    forall i | 0 <= i < |slots|
      ensures var w, n := WriteAll(at, total, base, rw, patch, slots), Routines(slots[..i]);
              slots[i].ptr.Routine? ==> n < |w.placed| && PlacedFor(w.placed[n], slots[i], at + TotalSize(slots[..i]), total, rw, patch)
    {
      PlacementAt(at, total, base, rw, patch, slots, i);
    }
    if slots != [] {
      PlacementAt(at, total, base, rw, patch, slots, 0);
    }
  }

  class Output {
    /** All pointers in chain order: five per interrupt entry, then the section. */
    var slots: seq<Slot>
    const nIntr: nat
    const total: nat
    const base: nat
    var rw: seq<RwInfo>
    var rwSize: nat
    var rtnSize: nat
    var patch: seq<PatchInfo>
    var placed: seq<Placement>

    ghost function Now(): (s: Sizes)
      reads this
    {
      Sizes(rtnSize, rwSize, rw)
    }

    /** The walk along `rw_addrs`. */
    method FindRw(key: nat) returns (r: Option<nat>)
      ensures r == Find(rw, key)
    {
      var i := 0;
      while i < |rw|
        invariant 0 <= i <= |rw| && Find(rw, key) == Find(rw[i..], key)
      {
        if rw[i].key == key {
          return Some(rw[i].off);
        }
        assert rw[i..][1..] == rw[i + 1..];
        i := i + 1;
      }
      return None;
    }

    method FindData(addr: nat) returns (d: Option<nat>)
      ensures d == DataOf(patch, addr)
    {
      var i := 0;
      while i < |patch|
        invariant 0 <= i <= |patch| && DataOf(patch, addr) == DataOf(patch[i..], addr)
      {
        if patch[i].owner == addr {
          return Some(patch[i].data);
        }
        assert patch[i..][1..] == patch[i + 1..];
        i := i + 1;
      }
      return None;
    }

    /** `callout_register_data`. */
    method RegisterData(i: nat, data: Option<nat>)
      requires i < |slots|
      modifies `patch
      ensures patch == Registered(old(patch), slots[i], data)
    {
      if data != None && slots[i].ptr.Routine? && slots[i].ptr.rtn.patcher {
        var found := FindData(slots[i].addr);
        if found.Some? {
          return;
        }
        patch := [PatchInfo(slots[i].addr, data.value)] + patch;
      }
    }

    /** `callout_reloc_data`. */
    method RelocData(start: nat, len: nat, diff: int)
      requires start + diff >= 0
      modifies `patch
      ensures patch == Relocated(old(patch), start, len, diff)
    {
      ghost var was := patch;
      RelocatedAt(was, start, len, diff, 0);
      var i := 0;
      while i < |patch|
        invariant 0 <= i <= |patch| == |was| == |Relocated(was, start, len, diff)|
        invariant forall j :: 0 <= j < |was| ==> patch[j] == if j < i then Relocated(was, start, len, diff)[j] else was[j]
      {
        RelocatedAt(was, start, len, diff, i);
        if start <= patch[i].owner < start + len {
          patch := patch[i := patch[i].(owner := patch[i].owner + diff)];
        }
        i := i + 1;
      }
    }

    /** `callout_output_one` while sizing. */
    method SizeSlot(i: nat)
      requires i < |slots|
      modifies `rtnSize, `rwSize, `rw
      ensures Now() == SizeOne(old(Now()), slots[i].ptr)
    {
      if !slots[i].ptr.Routine? {
        return;
      }
      var rtn := slots[i].ptr.rtn;
      rtnSize := rtnSize + rtn.size;
      if rtn.rwKey != None {
        var found := FindRw(rtn.rwKey.value);
        if found.Some? {
          return;
        }
        rw := [RwInfo(rtn.rwKey.value, rwSize, rtn.rwLen)] + rw;
        rwSize := rwSize + rtn.rwLen;
      }
    }

    /** `callout_output_one` while writing; the first routine fixes the origin. */
    method WriteSlot(i: nat)
      requires i < |slots| && Covers(rw, slots[i..i + 1]) && total > 0
      modifies `rtnSize, `slots, `placed
      ensures var at := if old(rtnSize) == 0 then Origin(total, rwSize) else old(rtnSize);
              var s := old(slots)[i];
              if !s.ptr.Routine? then rtnSize == old(rtnSize) && slots == old(slots) && placed == old(placed)
              else
                && rtnSize == at + s.ptr.rtn.size
                && slots == old(slots)[i := s.(ptr := Vaddr(base + at))]
                && (s.ptr.rtn.rwKey != None ==> Find(rw, s.ptr.rtn.rwKey.value).Some?)
                && placed == old(placed) + [PlaceOne(at, total, rw, patch, s)]
                && PlacedFor(PlaceOne(at, total, rw, patch, s), s, at, total, rw, patch)
    {
      if !slots[i].ptr.Routine? {
        return;
      }
      var rtn := slots[i].ptr.rtn;
      assert slots[i..i + 1][0] == slots[i];
      PlacedOne(if rtnSize == 0 then Origin(total, rwSize) else rtnSize, total, rw, patch, slots[i]);
      var rwOff := total;
      if rtnSize == 0 {
        rtnSize := RoundPg(rwOff + rwSize);
      }
      if rtn.rwKey != None {
        var found := FindRw(rtn.rwKey.value);
        rwOff := rwOff + found.value;
      }
      var data := None;
      if rtn.patcher {
        data := FindData(slots[i].addr);
      }
      placed := placed + [Placement(rtnSize, rtn, rwOff, data)];
      slots := slots[i := slots[i].(ptr := Vaddr(base + rtnSize))];
      rtnSize := rtnSize + rtn.size;
    }

    /** `callout_output_intr` while sizing: entries times the five pointers of each. */
    method SizeIntr()
      requires RTNS_PER_INTR * nIntr <= |slots|
      modifies `rtnSize, `rwSize, `rw
      ensures Now() == SizeAll(old(Now()), slots[..RTNS_PER_INTR * nIntr])
    {
      var i := 0;
      while i < nIntr
        invariant 0 <= i <= nIntr
        invariant Now() == SizeAll(old(Now()), slots[..5 * i])
      {
        var j := 0;
        while j < RTNS_PER_INTR
          invariant 0 <= j <= 5
          invariant Now() == SizeAll(old(Now()), slots[..5 * i + j])
        {
          var k := 5 * i + j;
          assert slots[..k + 1] == slots[..k] + [slots[k]];
          SizeAllAppend(old(Now()), slots[..k], [slots[k]]);
          SizeSlot(k);
          j := j + 1;
        }
        i := i + 1;
      }
    }

    /** `callout_output_section` while sizing. */
    method SizeSection()
      requires RTNS_PER_INTR * nIntr <= |slots|
      modifies `rtnSize, `rwSize, `rw
      ensures Now() == SizeAll(old(Now()), slots[RTNS_PER_INTR * nIntr..])
    {
      var k := RTNS_PER_INTR * nIntr;
      while k < |slots|
        invariant 5 * nIntr <= k <= |slots|
        invariant Now() == SizeAll(old(Now()), slots[5 * nIntr..k])
      {
        assert slots[5 * nIntr..k + 1] == slots[5 * nIntr..k] + [slots[k]];
        SizeAllAppend(old(Now()), slots[5 * nIntr..k], [slots[k]]);
        SizeSlot(k);
        k := k + 1;
      }
      assert slots[5 * nIntr..k] == slots[5 * nIntr..];
    }

    /** `output_callouts` with a place for the read/write size: the sizing pass. */
    method Size() returns (size: nat, rwsize: nat)
      requires rtnSize == 0 && Slotted(rw, rwSize) && RTNS_PER_INTR * nIntr <= |slots|
      modifies `rtnSize, `rwSize, `rw
      ensures size == ReportedSize(slots) && rwsize == rwSize && rtnSize == 0
      ensures rw == SizeAll(old(Now()), slots).rw && rwSize == RoundWord(SizeAll(old(Now()), slots).rwSize)
      ensures Slotted(rw, rwSize) && Covers(rw, slots)
    {
      ghost var n := RTNS_PER_INTR * nIntr;
      SizeAllAppend(Now(), slots[..n], slots[n..]);
      assert slots == slots[..n] + slots[n..];
      Sized(Now(), slots);
      SizeIntr();
      SizeSection();
      rwSize := RoundWord(rwSize);
      size := RoundWord(rtnSize);
      rtnSize := 0;
      rwsize := rwSize;
    }

    /** The first `k` pointers of `was` have been written. */
    ghost predicate Progress(was: seq<Slot>, before: seq<Placement>, k: nat)
      reads this
      requires k <= |was| && Covers(rw, was)
    {
      CoversPrefix(rw, was, k);
      var w := WriteAll(Origin(total, rwSize), total, base, rw, patch, was[..k]);
      && slots == w.slots + was[k..] && |w.slots| == k && |slots| == |was|
      && placed == before + w.placed
      && rtnSize == if w.placed == [] then 0 else w.rtnSize
    }

    method WriteNext(k: nat, ghost was: seq<Slot>, ghost before: seq<Placement>)
      requires total > 0 && k < |was| && Covers(rw, was) && Progress(was, before, k)
      modifies `rtnSize, `slots, `placed
      ensures Progress(was, before, k + 1)
    {
      CoversPrefix(rw, was, k);
      CoversPrefix(rw, was, k + 1);
      assert was[..k + 1] == was[..k] + [was[k]];
      WriteAllAppend(Origin(total, rwSize), total, base, rw, patch, was[..k], was[k]);
      Wrote(Origin(total, rwSize), total, base, rw, patch, was[..k]);
      ghost var w := WriteAll(Origin(total, rwSize), total, base, rw, patch, was[..k]);
      assert slots[k] == was[k];
      WriteSlot(k);
      OneMoved(w.slots, was, k, slots[k]);
    }

    /** `callout_output_intr` while writing. */
    method WriteIntr(ghost was: seq<Slot>, ghost before: seq<Placement>)
      requires total > 0 && RTNS_PER_INTR * nIntr <= |was| && Covers(rw, was) && Progress(was, before, 0)
      modifies `rtnSize, `slots, `placed
      ensures Progress(was, before, RTNS_PER_INTR * nIntr)
    {
      var i := 0;
      while i < nIntr
        invariant 0 <= i <= nIntr && Progress(was, before, 5 * i)
      {
        var j := 0;
        while j < RTNS_PER_INTR
          invariant 0 <= j <= 5 && Progress(was, before, 5 * i + j)
        {
          WriteNext(5 * i + j, was, before);
          j := j + 1;
        }
        i := i + 1;
      }
    }

    /** `callout_output_section` while writing. */
    method WriteSection(ghost was: seq<Slot>, ghost before: seq<Placement>)
      requires total > 0 && RTNS_PER_INTR * nIntr <= |was| == |slots| && Covers(rw, was)
      requires Progress(was, before, RTNS_PER_INTR * nIntr)
      modifies `rtnSize, `slots, `placed
      ensures Progress(was, before, |was|)
    {
      var k := RTNS_PER_INTR * nIntr;
      while k < |slots|
        invariant 5 * nIntr <= k <= |was| == |slots| && Progress(was, before, k)
      {
        WriteNext(k, was, before);
        k := k + 1;
      }
    }

    /** `output_callouts` without: the writing pass over the same chain. */
    method Write() returns (size: nat)
      requires total > 0 && rtnSize == 0 && RTNS_PER_INTR * nIntr <= |slots| && Covers(rw, slots)
      modifies `rtnSize, `slots, `placed
      ensures var w := WriteAll(Origin(total, rwSize), total, base, rw, patch, old(slots));
              && slots == w.slots && placed == old(placed) + w.placed
              && size == RoundWord(if w.placed == [] then 0 else w.rtnSize)
      ensures AllPlaced(placed[|old(placed)|..], old(slots), Origin(total, rwSize), total, rw, patch)
    {
      ghost var was, before := slots, placed;
      assert was[..0] == [] && was[0..] == was && was[..|was|] == was && was[|was|..] == [];
      WriteIntr(was, before);
      Wrote(Origin(total, rwSize), total, base, rw, patch, was[..RTNS_PER_INTR * nIntr]);
      WriteSection(was, before);
      size := RoundWord(rtnSize);
      ghost var w := WriteAll(Origin(total, rwSize), total, base, rw, patch, was);
      EveryPlaced(Origin(total, rwSize), total, base, rw, patch, was);
      assert placed[|before|..] == w.placed;
    }
  }

  lemma CoversPrefix(rw: seq<RwInfo>, slots: seq<Slot>, k: nat)
    requires Covers(rw, slots) && k <= |slots|
    ensures Covers(rw, slots[..k])
  {
  }
}
