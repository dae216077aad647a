/** The volatile cache, reset, write-protect and power-management machine of the
    SD/MMC SIM driver, on values.

    The device is an environment with four hypotheses: a successful flush or cache
    disable makes cached data durable, a failed cache operation leaves the device
    unchanged, a device reset empties and switches off the cache, and the device is
    reset only through `sdmmc_reset`.  What the device answers is a parameter of
    each step, so a statement about all steps is one about all devices. */
module SdmmcCache {
  datatype Kind = User | Boot | Rpmb | General

  /** A hardware partition; `wp` is SDMMC_PFLAG_WP. */
  datatype Partition = Partition(kind: Kind, wp: bool, nlba: nat)

  datatype Target = Target(nluns: nat, partitions: seq<Partition>)

  datatype Pm = PmIdle | PmSleep | PmActive | PmSuspend

  /** One transfer of a write command, which is known by number. */
  datatype Chunk = Chunk(cmd: nat, part: nat)

  /** Chunks whose newest copy is only in the cache, chunks whose newest copy is on the
      medium, and chunks that have ever been dropped from the cache. */
  datatype Device = Device(cacheOn: bool, pending: set<Chunk>, durable: set<Chunk>, lost: set<Chunk>)

  /** `cap` is DEV_CAP_CACHE, `cache` and `dirty` are the two EFLAG bits. */
  datatype Driver = Driver(
    cap: bool, cache: bool, dirty: bool, pm: Pm,
    ntargs: nat, targets: seq<Target>,
    dev: Device, acked: set<Chunk>)

  datatype Status = ReqCmp | NotReady | Locked | ReadOnly | ProvideFail | TimedOut | IoError | Invalid | TidInvalid | LunInvalid

  // ---------------------------------------------------------------- the device

  function DevFlush(d: Device): (r: Device) {
    d.(pending := {}, durable := d.durable + d.pending)
  }

  function DevCacheCtrl(d: Device, on: bool): (r: Device) {
    if on then d.(cacheOn := true) else DevFlush(d).(cacheOn := false)
  }

  function DevReset(d: Device): (r: Device) {
    Device(false, {}, d.durable, d.lost + d.pending)
  }

  /** A chunk reaches the device: the cache may keep it only if it is on. */
  function DevStore(d: Device, c: Chunk, cached: bool): (r: Device) {
    if d.cacheOn && cached then d.(pending := d.pending + {c}, durable := d.durable - {c})
    else d.(pending := d.pending - {c}, durable := d.durable + {c})
  }

  // ---------------------------------------------------------------- partitions

  predicate ValidTargets(ts: seq<Target>, ntargs: nat) {
    ntargs < |ts| && forall t :: 0 <= t < |ts| ==> ts[t].nluns < |ts[t].partitions|
  }

  /** The addresses that `sdmmc_sim_action` lets through. */
  predicate Addressable(ts: seq<Target>, ntargs: nat, t: nat, l: nat)
    requires ValidTargets(ts, ntargs)
  {
    t <= ntargs && l <= ts[t].nluns
  }

  function ProtectPartition(p: Partition): (r: Partition) {
    if p.kind == User then p.(wp := true) else p
  }

  function ProtectTarget(t: Target): (r: Target)
    requires t.nluns < |t.partitions|
  {
    t.(partitions := seq(|t.partitions|, i requires 0 <= i < |t.partitions| =>
      if i <= t.nluns then ProtectPartition(t.partitions[i]) else t.partitions[i]))
  }

  /** `sdmmc_set_partition_attr(MMC_PART_USER, SDMMC_PFLAG_WP)`. */
  function Protected(ts: seq<Target>, ntargs: nat): (r: seq<Target>)
    requires ValidTargets(ts, ntargs)
    ensures ValidTargets(r, ntargs) && |r| == |ts|
  {
    seq(|ts|, t requires 0 <= t < |ts| => if t <= ntargs then ProtectTarget(ts[t]) else ts[t])
  }

  predicate UserProtected(ts: seq<Target>, ntargs: nat)
    requires ValidTargets(ts, ntargs)
  {
    forall t, l :: 0 <= t < |ts| && 0 <= l < |ts[t].partitions| && Addressable(ts, ntargs, t, l) && ts[t].partitions[l].kind == User
      ==> ts[t].partitions[l].wp
  }

  lemma ProtectedIsProtected(ts: seq<Target>, ntargs: nat)
    requires ValidTargets(ts, ntargs)
    ensures UserProtected(Protected(ts, ntargs), ntargs)
  {
  }

  // ---------------------------------------------------------------- driver operations

  predicate Valid(s: Driver) {
    ValidTargets(s.targets, s.ntargs)
  }

  /** `sdmmc_dev_cfg`, its cache part. */
  function DevCfg(s: Driver, ok: bool): (r: Driver) {
    if !s.cap then s
    else if ok then s.(dev := DevCacheCtrl(s.dev, s.cache))
    else s.(cache := false)
  }

  /** `sdmmc_reset`. */
  function Reset(s: Driver, cfgOk: bool): (r: Driver)
    requires Valid(s)
  {
    var d := s.(dev := DevReset(s.dev));
    var p := if s.cap && s.cache && s.dirty then d.(targets := Protected(s.targets, s.ntargs)) else d;
    DevCfg(if s.cap && s.cache then p.(cache := false) else p, cfgOk)
  }

  function ResetIf(s: Driver, reset: bool, cfgOk: bool): (r: Driver)
    requires Valid(s)
  {
    if reset then Reset(s, cfgOk) else s
  }

  /** `sdmmc_cache_flush`. */
  function CacheFlush(s: Driver, ok: bool): (r: (Driver, bool)) {
    if s.cap && s.cache && s.dirty then
      if ok then (s.(dev := DevFlush(s.dev), dirty := false), true) else (s, false)
    else (s, true)
  }

  /** `sdmmc_mpage_caching` for a mode select. */
  function ModeSelect(s: Driver, wce: bool, ok: bool): (r: (Driver, Status)) {
    if !s.cap then (s, Invalid)
    else if ok then (s.(dev := DevCacheCtrl(s.dev, wce), cache := wce), ReqCmp)
    else (s, IoError)
  }

  /** One `sdmmc_rw`: the data may have been stored even when it reports failure,
      and a failure may or may not reset the device. */
  datatype Rw = RwOk(cached: bool) | RwFail(stored: bool, cached: bool, reset: bool, cfgOk: bool)

  function DoRw(s: Driver, c: Chunk, rw: Rw): (r: Driver)
    requires Valid(s)
  {
    match rw
    case RwOk(cached) => s.(dev := DevStore(s.dev, c, cached))
    case RwFail(stored, cached, reset, cfgOk) =>
      ResetIf(if stored then s.(dev := DevStore(s.dev, c, cached)) else s, reset, cfgOk)
  }

  /** The first `n` chunks of a command. */
  function Chunks(w: nat, n: nat): (cs: set<Chunk>) {
    set k | 0 <= k < n :: Chunk(w, k)
  }

  /** The transfers of one write command from the `k`-th on: a single one, or the chunks
      of a legacy reliable write, stopping at the first failure.  All chunks are
      acknowledged together, after the last. */
  function DoRws(s: Driver, w: nat, k: nat, rws: seq<Rw>): (r: (Driver, Status))
    requires Valid(s)
    ensures Valid(r.0)
    decreases |rws|
  {
    if rws == [] then (s.(acked := s.acked + Chunks(w, k)), ReqCmp)
    else
      ResetKeepsValid(s, Chunk(w, k), rws[0]);
      var n := DoRw(s, Chunk(w, k), rws[0]);
      if rws[0].RwFail? then (n, IoError) else DoRws(n, w, k + 1, rws[1..])
  }

  lemma ResetKeepsValid(s: Driver, c: Chunk, rw: Rw)
    requires Valid(s)
    ensures Valid(DoRw(s, c, rw))
  {
  }

  datatype WriteEnv = WriteEnv(
    present: bool, locked: bool, setPartitionOk: bool, bkopsResets: bool, cfgOk: bool, rws: seq<Rw>)

  /** SC_WRITE10: the dirty flag is raised first, then `sdmmc_read_write` runs. */
  function Write10(s: Driver, t: nat, l: nat, w: nat, env: WriteEnv): (r: (Driver, Status))
    requires Valid(s) && Addressable(s.targets, s.ntargs, t, l)
  {
    var d := if s.cap && s.cache then s.(dirty := true) else s;
    var part := d.targets[t].partitions[l];
    if !env.present || part.nlba == 0 then (d, NotReady)
    else if env.locked then (d, Locked)
    else if part.wp then (d, ReadOnly)
    else if part.kind == Rpmb then (d, ProvideFail)
    else if !env.setPartitionOk then (Reset(d, env.cfgOk), TimedOut)
    else DoRws(ResetIf(d, env.bkopsResets, env.cfgOk), w, 0, env.rws)
  }

  // ---------------------------------------------------------------- power management

  /** `sdmmc_pm`: only entering sleep can fail, and then the state is idle. */
  function PmSet(s: Driver, op: Pm, sleepOk: bool): (r: Driver) {
    if s.pm == op then s
    else if op == PmSleep && !sleepOk then s.(pm := PmIdle)
    else s.(pm := op)
  }

  datatype TimerEnv = TimerEnv(nexus: bool, paused: bool, capSleep: bool, idleDue: bool, sleepDue: bool, flushOk: bool, sleepOk: bool)

  /** `sdmmc_timer`. */
  function PmTimer(s: Driver, env: TimerEnv): (r: Driver) {
    if env.nexus || s.pm == PmSleep || s.pm == PmSuspend || env.paused then s
    else if s.pm == PmActive then (if env.idleDue then PmSet(s, PmIdle, env.sleepOk) else s)
    else if env.capSleep && env.sleepDue then
      var (f, ok) := CacheFlush(s, env.flushOk);
      if ok then PmSet(f, PmSleep, env.sleepOk) else f
    else s
  }

  // ---------------------------------------------------------------- commands and steps

  datatype Command =
    | Write(t: nat, l: nat, w: nat, env: WriteEnv)
    | Sync(present: bool, ready: bool, flushOk: bool)
    | CacheSelect(wce: bool, ok: bool)
    | OtherCommand(resets: bool, cfgOk: bool)  // reads and device controls: at most a reset

  /** A command runs only in the active power state. */
  function Execute(s: Driver, c: Command): (r: (Driver, Status))
    requires Valid(s) && s.pm == PmActive
    requires c.Write? ==> Addressable(s.targets, s.ntargs, c.t, c.l)
  {
    match c
    case Write(t, l, w, env) => Write10(s, t, l, w, env)
    case Sync(present, ready, flushOk) =>
      if !present then (s, ReqCmp)
      else if !ready then (s, NotReady)
      else var (f, ok) := CacheFlush(s, flushOk); (f, if ok then ReqCmp else IoError)
    case CacheSelect(wce, ok) => ModeSelect(s, wce, ok)
    case OtherCommand(resets, cfgOk) => (ResetIf(s, resets, cfgOk), ReqCmp)
  }

  datatype Step =
    | Ccb(cmd: Command, retuneResets: bool, retuneCfgOk: bool)
    | PmPulse(env: TimerEnv)
    | BkopsPulse(resets: bool, bkopsCfgOk: bool)

  predicate Admitted(s: Driver, a: Step)
    requires Valid(s)
  {
    a.Ccb? && a.cmd.Write? ==> Addressable(s.targets, s.ntargs, a.cmd.t, a.cmd.l)
  }

  /** One turn of the driver thread: a CCB of `sdmmc_start_ccb`, the power-management
      timer, or the background-operations timer (polled in the active state only). */
  function Next(s: Driver, a: Step): (r: Driver)
    requires Valid(s) && Admitted(s, a)
  {
    match a
    case Ccb(cmd, retuneResets, retuneCfgOk) =>
      var done := Execute(PmSet(s, PmActive, true), cmd).0;
      ExecuteKeepsValid(PmSet(s, PmActive, true), cmd);
      ResetIf(done, retuneResets, retuneCfgOk)
    case PmPulse(env) => PmTimer(s, env)
    case BkopsPulse(resets, cfgOk) => if s.pm == PmActive then ResetIf(s, resets, cfgOk) else s
  }

  lemma ExecuteKeepsValid(s: Driver, c: Command)
    requires Valid(s) && s.pm == PmActive
    requires c.Write? ==> Addressable(s.targets, s.ntargs, c.t, c.l)
    ensures Valid(Execute(s, c).0)
  {
  }
}
