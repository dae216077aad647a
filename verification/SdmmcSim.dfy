/** The fields of the SIM extension and the routines that update them in place, up to
    whole runs of the driver thread: what each turn keeps and what every run guarantees.
    Device answers are parameters; `device` and `acked` record what the device holds and
    what has been acknowledged. */
module SdmmcSim {
  import opened SdmmcCache
  import opened SdmmcSafety
  import opened SdmmcEffects

  /** The answers a write gets from a protected or unready partition. */
  const REFUSALS := {NotReady, Locked, ReadOnly}

  /** A write command to a user partition that the SIM accepts. */
  predicate UserWrite(s: Driver, a: Step)
    requires Valid(s)
  {
    && a.Ccb? && a.cmd.Write? && Addressable(s.targets, s.ntargs, a.cmd.t, a.cmd.l)
    && s.targets[a.cmd.t].partitions[a.cmd.l].kind == User
  }

  lemma UserWriteStays(s: Driver, r: Driver, a: Step)
    requires Valid(s) && Valid(r) && ProtectionGrows(s, r)
    ensures UserWrite(s, a) <==> UserWrite(r, a)
  {
    if a.Ccb? && a.cmd.Write? && a.cmd.t < |s.targets| {
      assert TargetGrows(s.targets[a.cmd.t], r.targets[a.cmd.t]);
    }
  }

  // ---------------------------------------------------------------- runs, on values

  /** The driver after one turn; a CCB for an address the SIM does not have changes nothing. */
  function Turned(s: Driver, a: Step): (r: Driver)
    requires Inv(s)
    ensures Inv(r)
  {
    if Admitted(s, a) then
      StepSafe(s, a);
      Next(s, a)
    else s
  }

  /** The status a CCB ends with; the timers have none. */
  function Answer(s: Driver, a: Step): (status: Status)
    requires Inv(s)
  {
    if !a.Ccb? then ReqCmp
    else if a.cmd.Write? && a.cmd.t > s.ntargs then TidInvalid
    else if a.cmd.Write? && a.cmd.l > s.targets[a.cmd.t].nluns then LunInvalid
    else Execute(PmSet(s, PmActive, true), a.cmd).1
  }

  function After(s: Driver, steps: seq<Step>): (r: Driver)
    requires Inv(s)
    ensures Inv(r)
  {
    if steps == [] then s else Turned(After(s, steps[..|steps| - 1]), steps[|steps| - 1])
  }

  function Answers(s: Driver, steps: seq<Step>): (answers: seq<Status>)
    requires Inv(s)
    ensures |answers| == |steps|
  {
    if steps == [] then []
    else Answers(s, steps[..|steps| - 1]) + [Answer(After(s, steps[..|steps| - 1]), steps[|steps| - 1])]
  }

  lemma TurnedIs(s: Driver, a: Step)
    requires Inv(s)
    ensures ProtectionGrows(s, Turned(s, a)) && s.dev.lost <= Turned(s, a).dev.lost
    ensures s.dev.lost != {} && UserWrite(s, a) ==> Answer(s, a) in REFUSALS && Turned(s, a).acked == s.acked
  {
    GrowsSelf(s);
    if Admitted(s, a) {
      StepSafe(s, a);
      LostStays(s, a);
      if a.Ccb? {
        LossRefusesTurn(s, a.cmd);
      }
    }
  }

  lemma AfterNext(s: Driver, steps: seq<Step>, i: nat)
    requires Inv(s) && i < |steps|
    ensures After(s, steps[..i + 1]) == Turned(After(s, steps[..i]), steps[i])
    ensures Answers(s, steps[..i + 1]) == Answers(s, steps[..i]) + [Answer(After(s, steps[..i]), steps[i])]
  {
    assert steps[..i + 1][..i] == steps[..i];
  }

  lemma {:induction false} AnswerAt(s: Driver, steps: seq<Step>, i: nat, j: nat)
    requires Inv(s) && i < j <= |steps|
    ensures Answers(s, steps[..j])[i] == Answer(After(s, steps[..i]), steps[i])
  {
    AfterNext(s, steps, j - 1);
    if i < j - 1 {
      AnswerAt(s, steps, i, j - 1);
    }
  }

  /** Neither protection nor the record of losses is taken back. */
  predicate Grows(a: Driver, b: Driver) {
    ProtectionGrows(a, b) && a.dev.lost <= b.dev.lost
  }

  lemma {:induction false} GrowsAlong(ss: seq<Driver>, i: nat, j: nat)
    requires i <= j < |ss| && forall k: nat :: k + 1 < |ss| ==> Grows(ss[k], ss[k + 1])
    ensures Grows(ss[i], ss[j])
  {
    if i == j {
      GrowsSelf(ss[i]);
    } else {
      GrowsAlong(ss, i, j - 1);
      assert Grows(ss[j - 1], ss[j - 1 + 1]);
      GrowsTrans(ss[i], ss[j - 1], ss[j]);
    }
  }

  lemma GrowsNext(s: Driver, steps: seq<Step>, k: nat)
    requires Inv(s) && k < |steps|
    ensures Grows(After(s, steps[..k]), After(s, steps[..k + 1]))
  {
    AfterNext(s, steps, k);
    TurnedIs(After(s, steps[..k]), steps[k]);
  }

  /** Over any stretch of a run protection and the record of losses only grow. */
  lemma AfterGrows(s: Driver, steps: seq<Step>, i: nat, j: nat)
    requires Inv(s) && i <= j <= |steps|
    ensures Grows(After(s, steps[..i]), After(s, steps[..j]))
  {
    var ss := seq(|steps| + 1, k requires 0 <= k <= |steps| => After(s, steps[..k]));
    forall k: nat | k + 1 < |ss|
      ensures Grows(ss[k], ss[k + 1])
    {
      GrowsNext(s, steps, k);
    }
    GrowsAlong(ss, i, j);
  }

  /** From the first loss of a run on, wherever in the run it happens, every user write is
      refused and acknowledges nothing. */
  lemma LossRefusesRun(s: Driver, steps: seq<Step>, i: nat, j: nat)
    requires Inv(s) && i <= j < |steps| && After(s, steps[..i]).dev.lost != {} && UserWrite(s, steps[j])
    ensures Answers(s, steps)[j] in REFUSALS
    ensures After(s, steps[..j + 1]).acked == After(s, steps[..j]).acked
  {
    AfterGrows(s, steps, i, j);
    AfterGrows(s, steps, 0, j);
    assert steps[..0] == [] && steps[..|steps|] == steps;
    UserWriteStays(s, After(s, steps[..j]), steps[j]);
    TurnedIs(After(s, steps[..j]), steps[j]);
    AfterNext(s, steps, j);
    AnswerAt(s, steps, j, |steps|);
  }

  // ---------------------------------------------------------------- what is acknowledged

  predicate IsWrite(a: Step) { a.Ccb? && a.cmd.Write? }

  /** The write meets no obstacle in this state. */
  predicate Acknowledges(s: Driver, a: Step)
    requires Valid(s)
  {
    && IsWrite(a) && Addressable(s.targets, s.ntargs, a.cmd.t, a.cmd.l)
    && Succeeds(s.targets[a.cmd.t].partitions[a.cmd.l], a.cmd.env)
  }

  lemma OthersAck(s: Driver, a: Step)
    requires Inv(s) && !IsWrite(a)
    ensures Turned(s, a).acked == s.acked
  {
    if a.Ccb? {
      CcbExactly(s, a.cmd, a.retuneResets, a.retuneCfgOk);
    }
  }

  /** A turn acknowledges the chunks of a write that meets no obstacle, and nothing else. */
  lemma TurnAcks(s: Driver, a: Step)
    requires Inv(s)
    ensures IsWrite(a) ==> (Answer(s, a) == ReqCmp <==> Acknowledges(s, a))
    ensures Turned(s, a).acked == if Acknowledges(s, a) then s.acked + Chunks(a.cmd.w, |a.cmd.env.rws|) else s.acked
    ensures Acknowledges(s, a) && !a.retuneResets ==> Chunks(a.cmd.w, |a.cmd.env.rws|) <= Held(Turned(s, a))
  {
    if IsWrite(a) {
      if Admitted(s, a) {
        CcbExactly(s, a.cmd, a.retuneResets, a.retuneCfgOk);
        WriteExactly(PmSet(s, PmActive, true), a.cmd.t, a.cmd.l, a.cmd.w, a.cmd.env);
      }
    } else {
      OthersAck(s, a);
    }
  }

  predicate AckedBy(a: Step, status: Status, c: Chunk) {
    IsWrite(a) && status == ReqCmp && c.cmd == a.cmd.w && c.part < |a.cmd.env.rws|
  }

  lemma TurnAcksChunks(s: Driver, a: Step)
    requires Inv(s)
    ensures forall c :: c in Turned(s, a).acked <==> c in s.acked || AckedBy(a, Answer(s, a), c)
  {
    TurnAcks(s, a);
  }

  /** The chunks of the writes answered with success. */
  ghost predicate AckedIn(steps: seq<Step>, answers: seq<Status>, c: Chunk)
    requires |answers| <= |steps|
  {
    exists i :: 0 <= i < |answers| && AckedBy(steps[i], answers[i], c)
  }

  lemma AckedNext(steps: seq<Step>, answers: seq<Status>, status: Status, c: Chunk)
    requires |answers| < |steps|
    ensures AckedIn(steps, answers + [status], c) <==> AckedIn(steps, answers, c) || AckedBy(steps[|answers|], status, c)
  {
    var more := answers + [status];
    if AckedIn(steps, answers, c) {
      var i :| 0 <= i < |answers| && AckedBy(steps[i], answers[i], c);
      assert more[i] == answers[i];
    }
    if AckedBy(steps[|answers|], status, c) {
      assert more[|answers|] == status;
    }
  }

  /** A write of a run is answered with success exactly if it meets no obstacle at its place. */
  lemma RunWrites(s: Driver, steps: seq<Step>, i: nat)
    requires Inv(s) && i < |steps| && IsWrite(steps[i])
    ensures Answers(s, steps)[i] == ReqCmp <==> Acknowledges(After(s, steps[..i]), steps[i])
  {
    AnswerAt(s, steps, i, |steps|);
    assert steps[..|steps|] == steps;
    TurnAcks(After(s, steps[..i]), steps[i]);
  }

  /** The inner loop of `sdmmc_set_partition_attr`. */
  method ProtectLuns(t: Target) returns (r: Target)
    requires t.nluns < |t.partitions|
    ensures r == ProtectTarget(t)
  {
    var parts := t.partitions;
    var pidx := 0;
    while pidx <= t.nluns
      invariant 0 <= pidx <= t.nluns + 1 && |parts| == |t.partitions|
      invariant forall i :: 0 <= i < |parts| ==> parts[i] == if i < pidx then ProtectPartition(t.partitions[i]) else t.partitions[i]
    {
      if parts[pidx].kind == User {
        parts := parts[pidx := parts[pidx].(wp := true)];
      }
      pidx := pidx + 1;
    }
    r := t.(partitions := parts);
    assert parts == ProtectTarget(t).partitions;
  }

  class Sim {
    const cap: bool
    var cache: bool
    var dirty: bool
    var pm: Pm
    var ntargs: nat
    var targets: seq<Target>
    ghost var device: Device
    ghost var acked: set<Chunk>

    ghost function State(): (s: Driver)
      reads this
    {
      Driver(cap, cache, dirty, pm, ntargs, targets, device, acked)
    }

    constructor (cap: bool, cacheOption: bool, ntargs: nat, targets: seq<Target>)
      requires ValidTargets(targets, ntargs)
      ensures Attached(State()) && pm == PmActive
    {
      this.cap, cache, dirty, pm := cap, cacheOption, false, PmActive;
      this.ntargs, this.targets := ntargs, targets;
      device, acked := Device(false, {}, {}, {}), {};
    }

    method SetPartitionAttr()
      requires Valid(State())
      modifies `targets
      ensures targets == Protected(old(targets), ntargs)
    {
      ghost var was := targets;
      var tidx := 0;
      while tidx <= ntargs
        invariant 0 <= tidx <= ntargs + 1 && |targets| == |was|
        invariant forall t :: 0 <= t < |targets| ==> targets[t] == if t < tidx then ProtectTarget(was[t]) else was[t]
      {
        var t := ProtectLuns(targets[tidx]);
        targets := targets[tidx := t];
        tidx := tidx + 1;
      }
      assert targets == Protected(was, ntargs);
    }

    method DevCfg(ok: bool)
      modifies `cache, `device
      ensures State() == SdmmcCache.DevCfg(old(State()), ok)
      ensures Attached(old(State())) ==> Inv(State())
    {
      if Attached(State()) {
        AttachedSafe(State(), ok);
      }
      if cap {
        if ok {
          device := DevCacheCtrl(device, cache);
        } else {
          cache := false;
        }
      }
    }

    method Reset(cfgOk: bool)
      requires Valid(State())
      modifies `cache, `targets, `device
      ensures State() == SdmmcCache.Reset(old(State()), cfgOk)
    {
      device := DevReset(device);
      if cap && cache {
        if dirty {
          SetPartitionAttr();
        }
        cache := false;
      }
      DevCfg(cfgOk);
    }

    method CacheFlush(ok: bool) returns (done: bool)
      modifies `dirty, `device
      ensures (State(), done) == SdmmcCache.CacheFlush(old(State()), ok)
    {
      done := true;
      if cap && cache && dirty {
        done := ok;
        if ok {
          device := DevFlush(device);
          dirty := false;
        }
      }
    }

    method MpageCaching(wce: bool, ok: bool) returns (status: Status)
      modifies `cache, `device
      ensures (State(), status) == ModeSelect(old(State()), wce, ok)
    {
      if cap {
        if ok {
          device := DevCacheCtrl(device, wce);
          status := ReqCmp;
          cache := false;
          if wce {
            cache := true;
          }
        } else {
          status := IoError;
        }
      } else {
        status := Invalid;
      }
    }

    method SetPm(op: Pm, sleepOk: bool)
      modifies `pm
      ensures State() == PmSet(old(State()), op, sleepOk)
    {
      if pm == op {
        return;
      }
      var to := op;
      if op == PmSleep && !sleepOk {
        to := PmIdle;
      }
      pm := to;
    }

    method Timer(env: TimerEnv)
      modifies `pm, `dirty, `device
      ensures State() == PmTimer(old(State()), env)
    {
      if env.nexus || pm == PmSleep || pm == PmSuspend || env.paused {
        return;
      }
      if pm == PmActive {
        if env.idleDue {
          SetPm(PmIdle, env.sleepOk);
        }
      } else if pm == PmIdle && env.capSleep {
        if env.sleepDue {
          var ok := CacheFlush(env.flushOk);
          if ok {
            SetPm(PmSleep, env.sleepOk);
          }
        }
      }
    }

    /** The transfers of one write command, issued in order until one fails. */
    method ReadWrite(w: nat, rws: seq<Rw>) returns (status: Status)
      requires Valid(State())
      modifies this
      ensures (State(), status) == DoRws(old(State()), w, 0, rws)
    {
      var k := 0;
      while k < |rws|
        invariant 0 <= k <= |rws| && Valid(State())
        invariant DoRws(old(State()), w, 0, rws) == DoRws(State(), w, k, rws[k..])
      {
        assert rws[k..][0] == rws[k] && rws[k..][1..] == rws[k + 1..];
        ResetKeepsValid(State(), Chunk(w, k), rws[k]);
        match rws[k] {
          case RwOk(cached) =>
            device := DevStore(device, Chunk(w, k), cached);
          case RwFail(stored, cached, reset, cfgOk) =>
            if stored {
              device := DevStore(device, Chunk(w, k), cached);
            }
            if reset {
              Reset(cfgOk);
            }
            return IoError;
        }
        k := k + 1;
      }
      acked := acked + Chunks(w, k);
      status := ReqCmp;
    }

    /** SC_WRITE10. */
    method Write(t: nat, l: nat, w: nat, env: WriteEnv) returns (status: Status)
      requires Valid(State()) && Addressable(targets, ntargs, t, l)
      modifies this
      ensures (State(), status) == Write10(old(State()), t, l, w, env)
    {
      if cap && cache {
        dirty := true;
      }
      var part := targets[t].partitions[l];
      if !env.present || part.nlba == 0 {
        return NotReady;
      }
      if env.locked {
        return Locked;
      }
      if part.wp {
        return ReadOnly;
      }
      if part.kind == Rpmb {
        return ProvideFail;
      }
      if !env.setPartitionOk {
        Reset(env.cfgOk);
        return TimedOut;
      }
      if env.bkopsResets {
        Reset(env.cfgOk);
      }
      status := ReadWrite(w, env.rws);
    }

    /** `sdmmc_sync`. */
    method Sync(present: bool, ready: bool, flushOk: bool) returns (status: Status)
      requires Inv(State()) && pm == PmActive
      modifies `dirty, `device
      ensures (State(), status) == Execute(old(State()), SdmmcCache.Sync(present, ready, flushOk))
      ensures present && status == ReqCmp ==> device.pending == {} && acked <= device.durable + device.lost
    {
      SyncMakesDurable(State(), ready, flushOk);
      if !present {
        return ReqCmp;
      }
      if !ready {
        return NotReady;
      }
      var ok := CacheFlush(flushOk);
      status := if ok then ReqCmp else IoError;
    }

    /** The command switch of `sdmmc_start_ccb`. */
    method Dispatch(c: Command) returns (status: Status)
      requires Inv(State()) && pm == PmActive
      requires c.Write? ==> Addressable(targets, ntargs, c.t, c.l)
      modifies this
      ensures (State(), status) == Execute(old(State()), c)
      ensures Inv(State()) && pm == PmActive && ProtectionGrows(old(State()), State())
    {
      ExecuteSafe(State(), c);
      match c {
        case Write(t, l, w, env) => status := this.Write(t, l, w, env);
        case Sync(present, ready, flushOk) => status := this.Sync(present, ready, flushOk);
        case CacheSelect(wce, ok) => status := MpageCaching(wce, ok);
        case OtherCommand(resets, cfgOk) =>
          if resets {
            Reset(cfgOk);
          }
          status := ReqCmp;
      }
    }

    /** One CCB of `sdmmc_start_ccb`: the active power state first, then the command, then
        a reset if retuning fails. */
    method StartCcb(c: Command, retuneResets: bool, retuneCfgOk: bool) returns (status: Status)
      requires Inv(State()) && (c.Write? ==> Addressable(targets, ntargs, c.t, c.l))
      modifies this
      ensures Inv(State()) && ProtectionGrows(old(State()), State())
      ensures State() == Next(old(State()), Ccb(c, retuneResets, retuneCfgOk))
      ensures status == Answer(old(State()), Ccb(c, retuneResets, retuneCfgOk))
      ensures old(device.lost) != {} && UserWrite(old(State()), Ccb(c, retuneResets, retuneCfgOk)) ==>
                status in REFUSALS && acked == old(acked)
    {
      ghost var was := State();
      StepSafe(was, Ccb(c, retuneResets, retuneCfgOk));
      LossRefusesTurn(was, c);
      SetPm(PmActive, true);
      status := Dispatch(c);
      if retuneResets {
        ghost var done := State();
        ResetSafe(done, retuneCfgOk);
        Reset(retuneCfgOk);
      }
    }

    /** `sdmmc_sim_action` for one request, and the two timer pulses. */
    method Turn(a: Step) returns (status: Status)
      requires Inv(State())
      modifies this
      ensures Inv(State()) && ProtectionGrows(old(State()), State())
      ensures State() == Turned(old(State()), a) && status == Answer(old(State()), a)
      ensures Admitted(old(State()), a) ==> State() == Next(old(State()), a)
      ensures !Admitted(old(State()), a) ==> State() == old(State()) && status in {TidInvalid, LunInvalid}
      ensures old(device.lost) != {} && UserWrite(old(State()), a) ==> status in REFUSALS && acked == old(acked)
      ensures old(device.lost) <= device.lost
      ensures IsWrite(a) ==> (status == ReqCmp <==> Acknowledges(old(State()), a))
      ensures forall c :: c in acked <==> c in old(acked) || AckedBy(a, status, c)
      ensures Acknowledges(old(State()), a) && !a.retuneResets ==>
                Chunks(a.cmd.w, |a.cmd.env.rws|) <= device.durable + device.pending
    {
      TurnedIs(State(), a);
      TurnAcks(State(), a);
      TurnAcksChunks(State(), a);
      status := ReqCmp;
      match a {
        case Ccb(cmd, retuneResets, retuneCfgOk) =>
          if cmd.Write? && cmd.t > ntargs {
            status := TidInvalid;
          } else if cmd.Write? && cmd.l > targets[cmd.t].nluns {
            status := LunInvalid;
          } else {
            status := StartCcb(cmd, retuneResets, retuneCfgOk);
          }
        case PmPulse(env) => Timer(env);
        case BkopsPulse(resets, cfgOk) =>
          if pm == PmActive && resets {
            Reset(cfgOk);
          }
      }
    }

    /** Every run of the driver: each request is answered and changes the state as its turn
        does on values; acknowledged data is accounted for, the partitions are protected
        after a loss, user writes are refused from the first loss on, and sleep is safe.  A
      write succeeds exactly if nothing stands in its way, and exactly the data of the
      writes that succeed is acknowledged. */
    method Run(steps: seq<Step>) returns (answers: seq<Status>)
      requires Inv(State())
      modifies this
      ensures State() == After(old(State()), steps) && answers == Answers(old(State()), steps)
      ensures Inv(State()) && ProtectionGrows(old(State()), State()) && |answers| == |steps|
      ensures device.pending != {} ==> cap && cache && dirty
      ensures acked <= device.durable + device.pending + device.lost && device.pending !! device.durable
      ensures device.lost != {} ==> UserProtected(targets, ntargs)
      ensures pm == PmSleep ==> device.pending == {} && !(cap && cache && dirty)
      ensures forall i, j ::
                0 <= i <= j < |steps| && After(old(State()), steps[..i]).dev.lost != {} && UserWrite(old(State()), steps[j]) ==>
                  answers[j] in REFUSALS
      ensures forall i :: 0 <= i < |steps| && IsWrite(steps[i]) ==>
                (answers[i] == ReqCmp <==> Acknowledges(After(old(State()), steps[..i]), steps[i]))
      ensures forall c :: c in acked <==> c in old(acked) || AckedIn(steps, answers, c)
    {
      ghost var start := State();
      answers := [];
      var i := 0;
      while i < |steps|
        invariant 0 <= i <= |steps|
        invariant Inv(State()) && State() == After(start, steps[..i]) && answers == Answers(start, steps[..i])
        invariant forall c :: c in acked <==> c in start.acked || AckedIn(steps, answers, c)
      {
        AfterNext(start, steps, i);
        ghost var given := answers;
        var status := Turn(steps[i]);
        forall c
          ensures AckedIn(steps, given + [status], c) <==> AckedIn(steps, given, c) || AckedBy(steps[i], status, c)
        {
          AckedNext(steps, given, status, c);
        }
        answers := answers + [status];
        i := i + 1;
      }
      assert steps[..i] == steps && steps[..0] == [];
      AfterGrows(start, steps, 0, i);
      forall i, j | 0 <= i <= j < |steps| && After(start, steps[..i]).dev.lost != {} && UserWrite(start, steps[j])
        ensures answers[j] in REFUSALS
      {
        LossRefusesRun(start, steps, i, j);
      }
      forall i | 0 <= i < |steps| && IsWrite(steps[i])
        ensures answers[i] == ReqCmp <==> Acknowledges(After(start, steps[..i]), steps[i])
      {
        RunWrites(start, steps, i);
      }
    }
  }
}
