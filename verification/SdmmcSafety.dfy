/** What every step of the SD/MMC driver keeps, and safety over whole runs:
    durability of acknowledged writes, refusal after a loss, and safe sleep. */
module SdmmcSafety {
  import opened SdmmcCache

  /** Nothing acknowledged is forgotten: it is durable, cached or recorded as lost. */
  predicate Accounted(s: Driver) {
    s.acked <= s.dev.durable + s.dev.pending + s.dev.lost
  }

  /** Cached data only while the driver knows the cache is on and dirty. */
  predicate CacheKnown(s: Driver) {
    && (s.dev.cacheOn ==> s.cap && s.cache)
    && (s.dev.pending != {} ==> s.cap && s.cache && s.dirty)
  }

  /** Lost data leaves every addressable user partition write-protected. */
  predicate LossKnown(s: Driver)
    requires Valid(s)
  {
    s.dev.lost != {} ==> UserProtected(s.targets, s.ntargs)
  }

  /** Asleep, no enabled cache is dirty. */
  predicate SleepSafe(s: Driver) {
    s.pm == PmSleep ==> !(s.cap && s.cache && s.dirty)
  }

  /** Nothing counts as durable while its newest copy is only cached. */
  predicate NewestCopy(s: Driver) {
    s.dev.pending !! s.dev.durable
  }

  predicate Inv(s: Driver) {
    Valid(s) && Accounted(s) && NewestCopy(s) && CacheKnown(s) && LossKnown(s) && SleepSafe(s)
  }

  /** Inside a write command: if the cache is on, the dirty flag has been raised. */
  predicate WriteReady(s: Driver) {
    Inv(s) && s.pm == PmActive && (s.dev.cacheOn ==> s.dirty)
  }

  /** Protection is never taken back and partitions keep their kind. */
  predicate ProtectionGrows(a: Driver, b: Driver) {
    && b.ntargs == a.ntargs && |b.targets| == |a.targets|
    && forall t :: 0 <= t < |a.targets| ==> TargetGrows(a.targets[t], b.targets[t])
  }

  predicate TargetGrows(a: Target, b: Target) {
    && b.nluns == a.nluns && |b.partitions| == |a.partitions|
    && forall l :: 0 <= l < |a.partitions| ==>
         b.partitions[l].kind == a.partitions[l].kind && (a.partitions[l].wp ==> b.partitions[l].wp)
  }

  lemma ProtectedGrows(s: Driver)
    requires Valid(s)
    ensures ProtectionGrows(s, s.(targets := Protected(s.targets, s.ntargs)))
  {
  }

  lemma GrowsTrans(a: Driver, b: Driver, c: Driver)
    requires ProtectionGrows(a, b) && ProtectionGrows(b, c)
    ensures ProtectionGrows(a, c)
  {
    forall t | 0 <= t < |a.targets|
      ensures TargetGrows(a.targets[t], c.targets[t])
    {
      assert TargetGrows(a.targets[t], b.targets[t]) && TargetGrows(b.targets[t], c.targets[t]);
    }
  }

  lemma ProtectedStays(a: Driver, b: Driver)
    requires Valid(a) && Valid(b) && ProtectionGrows(a, b) && UserProtected(a.targets, a.ntargs)
    ensures UserProtected(b.targets, b.ntargs)
  {
    forall t, l | 0 <= t < |b.targets| && 0 <= l < |b.targets[t].partitions|
        && Addressable(b.targets, b.ntargs, t, l) && b.targets[t].partitions[l].kind == User
      ensures b.targets[t].partitions[l].wp
    {
      assert TargetGrows(a.targets[t], b.targets[t]);
      assert a.targets[t].partitions[l].wp;
    }
  }

  // ---------------------------------------------------------------- each operation

  lemma ResetSafe(s: Driver, cfgOk: bool)
    requires Inv(s)
    ensures var r := Reset(s, cfgOk);
            Inv(r) && ProtectionGrows(s, r) && !r.dev.cacheOn && r.pm == s.pm && r.acked == s.acked
  {
    ProtectedGrows(s);
    ProtectedIsProtected(s.targets, s.ntargs);
    var r := Reset(s, cfgOk);
    assert r.dev.pending == {} && r.dev.lost == s.dev.lost + s.dev.pending && !r.dev.cacheOn;
    if s.dev.lost != {} {
      ProtectedStays(s, r);
    }
  }

  lemma ResetIfSafe(s: Driver, reset: bool, cfgOk: bool)
    requires Inv(s)
    ensures var r := ResetIf(s, reset, cfgOk);
            Inv(r) && ProtectionGrows(s, r) && (r.dev.cacheOn ==> s.dev.cacheOn && r.dirty == s.dirty) && r.pm == s.pm
  {
    if reset {
      ResetSafe(s, cfgOk);
    }
  }

  lemma StoreSafe(s: Driver, c: Chunk, cached: bool)
    requires WriteReady(s)
    ensures var r := s.(dev := DevStore(s.dev, c, cached));
            && WriteReady(r) && ProtectionGrows(s, r)
            && r.dev.durable + r.dev.pending == s.dev.durable + s.dev.pending + {c}
  {
  }

  lemma RwSafe(s: Driver, c: Chunk, rw: Rw)
    requires WriteReady(s)
    ensures var r := DoRw(s, c, rw);
            && WriteReady(r) && ProtectionGrows(s, r) && r.acked == s.acked
            && (rw.RwOk? ==> r.dev.durable + r.dev.pending == s.dev.durable + s.dev.pending + {c})
  {
    StoreSafe(s, c, rw.cached);
    if rw.RwFail? {
      ResetIfSafe(if rw.stored then s.(dev := DevStore(s.dev, c, rw.cached)) else s, rw.reset, rw.cfgOk);
    }
  }

  lemma ChunksNext(w: nat, k: nat)
    ensures Chunks(w, k + 1) == Chunks(w, k) + {Chunk(w, k)}
  {
  }

  lemma {:induction false} RwsSafe(s: Driver, w: nat, k: nat, rws: seq<Rw>)
    requires WriteReady(s) && Chunks(w, k) <= s.dev.durable + s.dev.pending
    ensures var (r, _) := DoRws(s, w, k, rws); Inv(r) && r.pm == PmActive && ProtectionGrows(s, r)
    decreases |rws|
  {
    if rws != [] {
      RwSafe(s, Chunk(w, k), rws[0]);
      var n := DoRw(s, Chunk(w, k), rws[0]);
      if rws[0].RwOk? {
        ChunksNext(w, k);
        RwsSafe(n, w, k + 1, rws[1..]);
        GrowsTrans(s, n, DoRws(n, w, k + 1, rws[1..]).0);
      }
    }
  }

  lemma WriteSafe(s: Driver, t: nat, l: nat, w: nat, env: WriteEnv)
    requires Inv(s) && s.pm == PmActive && Addressable(s.targets, s.ntargs, t, l)
    ensures var (r, _) := Write10(s, t, l, w, env); Inv(r) && r.pm == PmActive && ProtectionGrows(s, r)
  {
    var d := if s.cap && s.cache then s.(dirty := true) else s;
    assert WriteReady(d) && ProtectionGrows(s, d);
    ResetIfSafe(d, env.bkopsResets, env.cfgOk);
    var b := ResetIf(d, env.bkopsResets, env.cfgOk);
    assert WriteReady(b);
    RwsSafe(b, w, 0, env.rws);
    GrowsTrans(d, b, DoRws(b, w, 0, env.rws).0);
    ResetSafe(d, env.cfgOk);
  }

  lemma FlushSafe(s: Driver, ok: bool)
    requires Inv(s)
    ensures var (r, done) := CacheFlush(s, ok);
            && Inv(r) && ProtectionGrows(s, r) && r.pm == s.pm
            && (done ==> r.dev.pending == {} && !(r.cap && r.cache && r.dirty))
  {
  }

  lemma ModeSelectSafe(s: Driver, wce: bool, ok: bool)
    requires Inv(s) && s.pm == PmActive
    ensures var (r, _) := ModeSelect(s, wce, ok); Inv(r) && ProtectionGrows(s, r) && r.pm == PmActive
  {
  }

  lemma ExecuteSafe(s: Driver, c: Command)
    requires Inv(s) && s.pm == PmActive
    requires c.Write? ==> Addressable(s.targets, s.ntargs, c.t, c.l)
    ensures var (r, _) := Execute(s, c); Inv(r) && r.pm == PmActive && ProtectionGrows(s, r)
  {
    match c
    case Write(t, l, w, env) => WriteSafe(s, t, l, w, env);
    case Sync(_, _, flushOk) => FlushSafe(s, flushOk);
    case CacheSelect(wce, ok) => ModeSelectSafe(s, wce, ok);
    case OtherCommand(resets, cfgOk) => ResetIfSafe(s, resets, cfgOk);
  }

  lemma TimerSafe(s: Driver, env: TimerEnv)
    requires Inv(s)
    ensures Inv(PmTimer(s, env)) && ProtectionGrows(s, PmTimer(s, env))
  {
    FlushSafe(s, env.flushOk);
  }

  lemma StepSafe(s: Driver, a: Step)
    requires Inv(s) && Admitted(s, a)
    ensures Inv(Next(s, a)) && ProtectionGrows(s, Next(s, a))
  {
    match a
    case Ccb(cmd, resets, cfgOk) =>
      var up := PmSet(s, PmActive, true);
      ExecuteSafe(up, cmd);
      var done := Execute(up, cmd).0;
      ResetIfSafe(done, resets, cfgOk);
      GrowsTrans(up, done, ResetIf(done, resets, cfgOk));
    case PmPulse(env) => TimerSafe(s, env);
    case BkopsPulse(resets, cfgOk) => ResetIfSafe(s, resets, cfgOk);
  }

  // ---------------------------------------------------------------- whole runs

  predicate Reaches(s: Driver, steps: seq<Step>, r: Driver)
    decreases |steps|
  {
    Valid(s) &&
    if steps == [] then r == s
    else Admitted(s, steps[0]) && Reaches(Next(s, steps[0]), steps[1..], r)
  }

  lemma {:induction false} RunSafe(s: Driver, steps: seq<Step>, r: Driver)
    requires Inv(s) && Reaches(s, steps, r)
    ensures Inv(r) && ProtectionGrows(s, r)
    decreases |steps|
  {
    if steps != [] {
      StepSafe(s, steps[0]);
      RunSafe(Next(s, steps[0]), steps[1..], r);
      GrowsTrans(s, Next(s, steps[0]), r);
    }
  }

  /** A freshly attached device: nothing written, cache off until configured. */
  predicate Attached(s: Driver) {
    Valid(s) && s.acked == {} && s.dev == Device(false, {}, {}, {}) && s.pm != PmSleep
  }

  lemma AttachedSafe(s: Driver, cfgOk: bool)
    requires Attached(s)
    ensures Inv(DevCfg(s, cfgOk))
  {
  }

  /** Durability over all runs.  Data that is only in the cache implies an enabled, dirty
      cache; every chunk of an acknowledged write is durable, or cached, or was dropped;
      after a drop every addressable user partition is protected; and nothing is cached
      while the device sleeps. */
  lemma Durability(s: Driver, cfgOk: bool, steps: seq<Step>, r: Driver)
    requires Attached(s) && Reaches(DevCfg(s, cfgOk), steps, r)
    ensures r.dev.pending != {} ==> r.cap && r.cache && r.dirty
    ensures r.acked <= r.dev.durable + r.dev.pending + r.dev.lost && r.dev.pending !! r.dev.durable
    ensures Valid(r) && (r.dev.lost != {} ==> UserProtected(r.targets, r.ntargs))
    ensures r.pm == PmSleep ==> r.dev.pending == {} && !(r.cap && r.cache && r.dirty)
  {
    AttachedSafe(s, cfgOk);
    RunSafe(DevCfg(s, cfgOk), steps, r);
  }

  /** The same for one chunk: acknowledged, not durable and never dropped, it is in an
      enabled, dirty cache and the device is awake. */
  lemma AckedNotDurable(s: Driver, cfgOk: bool, steps: seq<Step>, r: Driver, c: Chunk)
    requires Attached(s) && Reaches(DevCfg(s, cfgOk), steps, r)
    requires c in r.acked && c !in r.dev.durable && c !in r.dev.lost
    ensures c in r.dev.pending && r.cap && r.cache && r.dirty && r.pm != PmSleep
  {
    Durability(s, cfgOk, steps, r);
  }

  /** What a client gets from a SYNCHRONIZE CACHE that reports success on a present
      device: every write acknowledged so far is durable, or known to be lost. */
  lemma SyncMakesDurable(s: Driver, ready: bool, flushOk: bool)
    requires Inv(s) && s.pm == PmActive
    ensures var (r, status) := Execute(s, Sync(true, ready, flushOk));
            status == ReqCmp ==> r.acked == s.acked && r.dev.pending == {} && s.acked <= r.dev.durable + r.dev.lost
  {
    FlushSafe(s, flushOk);
  }

  /** A write to a protected partition is refused and does not reach the device. */
  lemma WriteRefused(s: Driver, t: nat, l: nat, w: nat, env: WriteEnv)
    requires Valid(s) && Addressable(s.targets, s.ntargs, t, l) && s.targets[t].partitions[l].wp
    ensures var (r, status) := Write10(s, t, l, w, env);
            status in {NotReady, Locked, ReadOnly} && r.dev == s.dev && r.acked == s.acked
  {
  }

  /** Once cached data has been dropped, every write command to a user partition
      dispatched at any later time is refused. */
  lemma LossRefusesWrites(s: Driver, cfgOk: bool, before: seq<Step>, m: Driver, after: seq<Step>, r: Driver,
                          t: nat, l: nat, w: nat, env: WriteEnv)
    requires Attached(s) && Reaches(DevCfg(s, cfgOk), before, m) && m.dev.lost != {}
    requires Reaches(m, after, r) && Valid(r)
    requires Addressable(r.targets, r.ntargs, t, l) && r.targets[t].partitions[l].kind == User
    ensures var (d, status) := Write10(r, t, l, w, env);
            status in {NotReady, Locked, ReadOnly} && d.dev == r.dev && d.acked == r.acked
  {
    AttachedSafe(s, cfgOk);
    RunSafe(DevCfg(s, cfgOk), before, m);
    RunSafe(m, after, r);
    ProtectedStays(m, r);
    WriteRefused(r, t, l, w, env);
  }

  lemma GrowsSelf(s: Driver)
    ensures ProtectionGrows(s, s)
  {
  }

  /** What has been dropped stays on record. */
  lemma LostStays(s: Driver, a: Step)
    requires Inv(s) && Admitted(s, a)
    ensures s.dev.lost <= Next(s, a).dev.lost
  {
    match a
    case Ccb(cmd, resets, cfgOk) =>
      var up := PmSet(s, PmActive, true);
      ExecuteSafe(up, cmd);
      LostStaysExecuted(up, cmd);
    case PmPulse(env) =>
    case BkopsPulse(resets, cfgOk) =>
  }

  lemma {:induction false} LostStaysRws(s: Driver, w: nat, k: nat, rws: seq<Rw>)
    requires Valid(s)
    ensures s.dev.lost <= DoRws(s, w, k, rws).0.dev.lost
    decreases |rws|
  {
    if rws != [] && rws[0].RwOk? {
      LostStaysRws(DoRw(s, Chunk(w, k), rws[0]), w, k + 1, rws[1..]);
    }
  }

  lemma LostStaysExecuted(s: Driver, c: Command)
    requires Valid(s) && s.pm == PmActive && (c.Write? ==> Addressable(s.targets, s.ntargs, c.t, c.l))
    ensures s.dev.lost <= Execute(s, c).0.dev.lost
  {
    if c.Write? {
      var d := if s.cap && s.cache then s.(dirty := true) else s;
      LostStaysRws(ResetIf(d, c.env.bkopsResets, c.env.cfgOk), c.w, 0, c.env.rws);
    }
  }

  /** After a loss a user write is refused, acknowledges nothing and stores nothing. */
  lemma LossRefusesTurn(s: Driver, c: Command)
    requires Inv(s) && (c.Write? ==> Addressable(s.targets, s.ntargs, c.t, c.l))
    ensures s.dev.lost != {} && c.Write? && s.targets[c.t].partitions[c.l].kind == User ==>
              var (r, status) := Execute(PmSet(s, PmActive, true), c);
              status in {NotReady, Locked, ReadOnly} && r.acked == s.acked && r.dev == s.dev
  {
    if s.dev.lost != {} && c.Write? && s.targets[c.t].partitions[c.l].kind == User {
      WriteRefused(PmSet(s, PmActive, true), c.t, c.l, c.w, c.env);
    }
  }
}
