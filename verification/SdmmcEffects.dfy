/** What the operations of the SD/MMC driver achieve, on values: exactly which writes are
    acknowledged and where their data is, what a flush, a cache switch, a reset and the
    power timer do to the device. */
module SdmmcEffects {
  import opened SdmmcCache

  // ---------------------------------------------------------------- writes

  predicate AllOk(rws: seq<Rw>) {
    forall i :: 0 <= i < |rws| ==> rws[i].RwOk?
  }

  /** Nothing stands in the way of a write, and the device takes every transfer. */
  predicate Succeeds(part: Partition, env: WriteEnv) {
    && env.present && part.nlba != 0 && !env.locked && !part.wp && part.kind != Rpmb
    && env.setPartitionOk && AllOk(env.rws)
  }

  /** What the device has, on the medium or in the cache. */
  function Held(s: Driver): (cs: set<Chunk>) { s.dev.durable + s.dev.pending }

  lemma StoreHeld(d: Device, c: Chunk, cached: bool)
    ensures var r := DevStore(d, c, cached);
            r.durable + r.pending == d.durable + d.pending + {c} && r.lost == d.lost && r.cacheOn == d.cacheOn
  {
  }

  lemma AllOkTail(rws: seq<Rw>)
    requires rws != []
    ensures AllOk(rws) <==> rws[0].RwOk? && AllOk(rws[1..])
  {
    if rws[0].RwOk? && AllOk(rws[1..]) {
      forall i | 0 <= i < |rws|
        ensures rws[i].RwOk?
      {
        assert i > 0 ==> rws[i] == rws[1..][i - 1];
      }
    }
  }

  /** The transfers in front of the first failure. */
  function Leading(rws: seq<Rw>): (n: nat)
    ensures n <= |rws|
  {
    if rws == [] || rws[0].RwFail? then 0 else 1 + Leading(rws[1..])
  }

  /** A failed transfer leaves what the device says it stored, and a reset empties the cache. */
  lemma FailureExactly(s: Driver, c: Chunk, rw: Rw)
    requires Valid(s) && rw.RwFail?
    ensures var r := DoRw(s, c, rw);
            && Held(s) + s.dev.lost + (if rw.stored then {c} else {}) == Held(r) + r.dev.lost
            && (rw.reset ==> r.dev.pending == {} && !r.dev.cacheOn)
            && (!rw.reset ==> r.dev.lost == s.dev.lost && r.dev.cacheOn == s.dev.cacheOn && r.targets == s.targets)
  {
    StoreHeld(s.dev, c, rw.cached);
    ResetExactly(if rw.stored then s.(dev := DevStore(s.dev, c, rw.cached)) else s, rw.cfgOk);
  }

  /** The transfers succeed exactly if each does; then all chunks are acknowledged and held,
      and otherwise none is acknowledged. */
  lemma {:induction false} RwsExactly(s: Driver, w: nat, k: nat, rws: seq<Rw>)
    requires Valid(s)
    ensures var (r, status) := DoRws(s, w, k, rws);
            && status == (if AllOk(rws) then ReqCmp else IoError)
            && r.acked == (if AllOk(rws) then s.acked + Chunks(w, k + |rws|) else s.acked)
            && (AllOk(rws) && Chunks(w, k) <= Held(s) ==> Chunks(w, k + |rws|) <= Held(r))
    decreases |rws|
  {
    if rws != [] {
      AllOkTail(rws);
      var n := DoRw(s, Chunk(w, k), rws[0]);
      if rws[0].RwOk? {
        StoreHeld(s.dev, Chunk(w, k), rws[0].cached);
        ResetKeepsValid(s, Chunk(w, k), rws[0]);
        assert Held(n) == Held(s) + {Chunk(w, k)};
        assert Chunks(w, k + 1) == Chunks(w, k) + {Chunk(w, k)};
        RwsExactly(n, w, k + 1, rws[1..]);
      }
    }
  }

  /** What went before a failure has reached the device. */
  lemma {:induction false} RwsReach(s: Driver, w: nat, k: nat, rws: seq<Rw>)
    requires Valid(s) && Chunks(w, k) <= Held(s) + s.dev.lost
    ensures var r := DoRws(s, w, k, rws).0; Chunks(w, k + Leading(rws)) <= Held(r) + r.dev.lost
    decreases |rws|
  {
    if rws != [] {
      var n := DoRw(s, Chunk(w, k), rws[0]);
      if rws[0].RwOk? {
        StoreHeld(s.dev, Chunk(w, k), rws[0].cached);
        ResetKeepsValid(s, Chunk(w, k), rws[0]);
        assert Chunks(w, k + 1) == Chunks(w, k) + {Chunk(w, k)};
        RwsReach(n, w, k + 1, rws[1..]);
      } else {
        FailureExactly(s, Chunk(w, k), rws[0]);
      }
    }
  }

  /** A write completes exactly if nothing stands in its way and every transfer succeeds.  Then
      exactly its chunks become acknowledged, and the device has them all; otherwise nothing
      is acknowledged. */
  lemma WriteExactly(s: Driver, t: nat, l: nat, w: nat, env: WriteEnv)
    requires Valid(s) && Addressable(s.targets, s.ntargs, t, l)
    ensures var (r, status) := Write10(s, t, l, w, env);
            && (status == ReqCmp <==> Succeeds(s.targets[t].partitions[l], env))
            && r.acked == (if status == ReqCmp then s.acked + Chunks(w, |env.rws|) else s.acked)
            && (status == ReqCmp ==> Chunks(w, |env.rws|) <= Held(r))
  {
    var d := if s.cap && s.cache then s.(dirty := true) else s;
    var b := ResetIf(d, env.bkopsResets, env.cfgOk);
    RwsExactly(b, w, 0, env.rws);
    assert Chunks(w, 0) == {};
  }

  /** The obstacles, in their order, each with its status. */
  lemma RefusalExactly(s: Driver, t: nat, l: nat, w: nat, env: WriteEnv)
    requires Valid(s) && Addressable(s.targets, s.ntargs, t, l)
    ensures var (r, status) := Write10(s, t, l, w, env);
            var part := s.targets[t].partitions[l];
            var ready := env.present && part.nlba != 0;
            && (status == NotReady <==> !ready)
            && (status == Locked <==> ready && env.locked)
            && (status == ReadOnly <==> ready && !env.locked && part.wp)
            && (status == ProvideFail <==> ready && !env.locked && !part.wp && part.kind == Rpmb)
            && (status == TimedOut <==> ready && !env.locked && !part.wp && part.kind != Rpmb && !env.setPartitionOk)
            && (status in {NotReady, Locked, ReadOnly, ProvideFail} ==> r.dev == s.dev)
            && (status == TimedOut ==> r.dev.pending == {} && !r.dev.cacheOn && r.dev.lost == s.dev.lost + s.dev.pending)
  {
    var d := if s.cap && s.cache then s.(dirty := true) else s;
    RwsExactly(ResetIf(d, env.bkopsResets, env.cfgOk), w, 0, env.rws);
    ResetExactly(d, env.cfgOk);
  }

  /** What a write that is carried out leaves behind: the dirty flag of an enabled cache, and
      losses only where the background operations reset the device. */
  lemma WriteLeaves(s: Driver, t: nat, l: nat, w: nat, env: WriteEnv)
    requires Valid(s) && Addressable(s.targets, s.ntargs, t, l)
    ensures var (r, status) := Write10(s, t, l, w, env);
            && (status == ReqCmp ==> r.dev.lost == s.dev.lost + if env.bkopsResets then s.dev.pending else {})
            && (status == ReqCmp && s.cap && s.cache ==> r.dirty)
  {
    var d := if s.cap && s.cache then s.(dirty := true) else s;
    var b := ResetIf(d, env.bkopsResets, env.cfgOk);
    RwsExactly(b, w, 0, env.rws);
    RwsKeepFlags(b, w, 0, env.rws);
    ResetExactly(d, env.cfgOk);
  }

  /** And where a transfer fails, the ones before it have reached the device. */
  lemma WriteReaches(s: Driver, t: nat, l: nat, w: nat, env: WriteEnv)
    requires Valid(s) && Addressable(s.targets, s.ntargs, t, l)
    ensures var (r, status) := Write10(s, t, l, w, env);
            status == IoError ==> Chunks(w, Leading(env.rws)) <= Held(r) + r.dev.lost
  {
    var d := if s.cap && s.cache then s.(dirty := true) else s;
    assert Chunks(w, 0) == {};
    RwsReach(ResetIf(d, env.bkopsResets, env.cfgOk), w, 0, env.rws);
  }

  lemma {:induction false} RwsKeepFlags(s: Driver, w: nat, k: nat, rws: seq<Rw>)
    requires Valid(s)
    ensures AllOk(rws) ==> DoRws(s, w, k, rws).0 == s.(dev := DoRws(s, w, k, rws).0.dev, acked := s.acked + Chunks(w, k + |rws|))
    ensures AllOk(rws) ==> DoRws(s, w, k, rws).0.dev.lost == s.dev.lost
    decreases |rws|
  {
    if rws != [] {
      AllOkTail(rws);
      if rws[0].RwOk? {
        RwsKeepFlags(DoRw(s, Chunk(w, k), rws[0]), w, k + 1, rws[1..]);
      }
    }
  }

  // ---------------------------------------------------------------- cache operations

  /** An enabled cache may have data that is not durable. */
  predicate MayCache(s: Driver) { s.cap && s.cache && s.dirty }

  /** A flush fails exactly if there is something to flush and the device refuses; a flush
      of a dirty cache makes everything cached durable. */
  lemma FlushExactly(s: Driver, ok: bool)
    ensures var (r, done) := CacheFlush(s, ok);
            && (done <==> ok || !MayCache(s))
            && (MayCache(s) && ok ==> r.dev.durable == Held(s) && r.dev.pending == {} && !r.dirty)
            && (!MayCache(s) || !ok ==> r == s)
            && r.dev.lost == s.dev.lost && r.acked == s.acked && r.targets == s.targets && r.cache == s.cache
  {
  }

  /** SYNCHRONIZE CACHE succeeds exactly if there is no card, or the unit is ready and the
      flush succeeds. */
  lemma SyncExactly(s: Driver, present: bool, ready: bool, flushOk: bool)
    requires Valid(s) && s.pm == PmActive
    ensures var (r, status) := Execute(s, Sync(present, ready, flushOk));
            && (status == ReqCmp <==> !present || (ready && (flushOk || !MayCache(s))))
            && (status == NotReady <==> present && !ready)
            && (present && status == ReqCmp && MayCache(s) ==> r.dev.durable == Held(s) && r.dev.pending == {})
            && r.acked == s.acked && r.dev.lost == s.dev.lost
  {
  }

  /** A mode select succeeds exactly if there is a cache and the device agrees; then driver and
      device have the cache as asked, and switching it off makes everything durable. */
  lemma ModeSelectExactly(s: Driver, wce: bool, ok: bool)
    requires Valid(s) && s.pm == PmActive
    ensures var (r, status) := Execute(s, CacheSelect(wce, ok));
            && (status == ReqCmp <==> s.cap && ok) && (status == Invalid <==> !s.cap)
            && (status == ReqCmp ==> r.cache == wce && r.dev.cacheOn == wce)
            && (status == ReqCmp && !wce ==> r.dev.durable == Held(s) && r.dev.pending == {})
            && (status != ReqCmp ==> r == s)
            && r.dirty == s.dirty && r.acked == s.acked && r.dev.lost == s.dev.lost && r.targets == s.targets
  {
  }

  /** Attaching switches the cache on exactly if it is there, wanted, and the device agrees. */
  lemma ConfiguredExactly(s: Driver, ok: bool)
    requires !s.dev.cacheOn
    ensures var r := DevCfg(s, ok);
            && (r.dev.cacheOn <==> s.cap && s.cache && ok)
            && (s.cap ==> (r.cache <==> r.dev.cacheOn)) && r.dirty == s.dirty && r.targets == s.targets
  {
  }

  // ---------------------------------------------------------------- reset and protection

  /** Exactly the addressable user partitions become protected, and nothing else changes. */
  lemma ProtectsExactly(ts: seq<Target>, ntargs: nat, t: nat, l: nat)
    requires ValidTargets(ts, ntargs) && t < |ts| && l < |ts[t].partitions|
    ensures var r := Protected(ts, ntargs);
            && |r| == |ts| && r[t].nluns == ts[t].nluns && |r[t].partitions| == |ts[t].partitions|
            && r[t].partitions[l].kind == ts[t].partitions[l].kind && r[t].partitions[l].nlba == ts[t].partitions[l].nlba
            && (r[t].partitions[l].wp <==>
                  ts[t].partitions[l].wp || (Addressable(ts, ntargs, t, l) && ts[t].partitions[l].kind == User))
  {
  }

  /** A reset drops exactly what is only cached and switches the cache off; it protects the
      partitions only if data may have been in the cache. */
  lemma ResetExactly(s: Driver, cfgOk: bool)
    requires Valid(s)
    ensures var r := Reset(s, cfgOk);
            && r.dev.durable == s.dev.durable && r.dev.pending == {} && r.dev.lost == s.dev.lost + s.dev.pending
            && (s.cap ==> !r.cache) && !r.dev.cacheOn && r.dirty == s.dirty && r.acked == s.acked && r.pm == s.pm
            && (!MayCache(s) ==> r.targets == s.targets)
            && (MayCache(s) ==> UserProtected(r.targets, r.ntargs))
  {
    ProtectedIsProtected(s.targets, s.ntargs);
  }

  // ---------------------------------------------------------------- power

  /** The timer puts the device to sleep exactly if nothing runs, it is idle long enough, and
      nothing stays in the cache; it touches the device only to flush. */
  lemma TimerExactly(s: Driver, env: TimerEnv)
    ensures var r := PmTimer(s, env);
            var runs := !env.nexus && !env.paused;
            var sleeps := runs && s.pm == PmIdle && env.capSleep && env.sleepDue && (env.flushOk || !MayCache(s)) && env.sleepOk;
            && (r.pm == PmSleep <==> s.pm == PmSleep || sleeps)
            && (r.pm == PmActive <==> s.pm == PmActive && !(runs && env.idleDue))
            && (r.pm == PmSuspend <==> s.pm == PmSuspend)
            && (sleeps && MayCache(s) ==> r.dev.durable == Held(s) && r.dev.pending == {})
            && Held(r) == Held(s) && r.dev.lost == s.dev.lost && r.acked == s.acked && r.targets == s.targets && r.cache == s.cache
  {
  }

  // ---------------------------------------------------------------- turns

  /** A CCB runs in the active state, and a failed retuning resets the device behind it. */
  lemma CcbExactly(s: Driver, c: Command, resets: bool, cfgOk: bool)
    requires Valid(s) && Admitted(s, Ccb(c, resets, cfgOk))
    ensures var r, done := Next(s, Ccb(c, resets, cfgOk)), Execute(PmSet(s, PmActive, true), c).0;
            && (!resets ==> r == done)
            && (resets ==> r.dev.pending == {} && !r.dev.cacheOn)
            && (resets ==> r.dev.durable == done.dev.durable && r.dev.lost == done.dev.lost + done.dev.pending)
            && r.acked == done.acked
  {
    ExecuteKeepsValid(PmSet(s, PmActive, true), c);
    ResetExactly(Execute(PmSet(s, PmActive, true), c).0, cfgOk);
  }

  /** The background timer and the other commands do nothing but a reset. */
  lemma ResetsExactly(s: Driver, resets: bool, cfgOk: bool)
    requires Valid(s)
    ensures var r := Next(s, BkopsPulse(resets, cfgOk));
            if s.pm == PmActive && resets then r.dev.pending == {} && !r.dev.cacheOn && r.dev.lost == s.dev.lost + s.dev.pending
            else r == s
    ensures s.pm == PmActive ==>
            var (r, status) := Execute(s, OtherCommand(resets, cfgOk));
            && status == ReqCmp
            && if resets then r.dev.pending == {} && !r.dev.cacheOn && r.dev.lost == s.dev.lost + s.dev.pending else r == s
  {
    ResetExactly(s, cfgOk);
  }
}
