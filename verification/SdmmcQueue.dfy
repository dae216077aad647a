/** The request path of the SD/MMC SIM driver as a concurrent state machine.

    Client threads enqueue a CCB and then, in two further steps, test `nexus` and
    send a pulse.  The driver thread receives pulses, drains the queue in
    `sdmmc_start_ccb` with a budget of `start_ccb_max` commands, and re-arms
    itself with a pulse when the budget is spent.  Every shared access is a step
    of its own, so a run is any interleaving.

    The queue is not frozen: a dequeue returns nothing only from an empty queue,
    and which CCB it picks is left open.  Command handlers complete (none of them
    returns CAM_REQ_INPROG). */
module SdmmcQueue {
  import opened Options

  /** A CCB is known by its address. */
  type Ccb = nat

  datatype ClientPc = Idle | Enqueued | WillPulse

  /** Where the driver thread stands.  `second` marks the call of `sdmmc_start_ccb`
      made after the pulse has been handled; `scnt` is that call's counter. */
  datatype DriverPc =
    | Waiting
    | Dequeue(second: bool, scnt: nat)
    | SetNexus(second: bool, scnt: nat, ccb: Ccb)
    | Running(second: bool, scnt: nat, ccb: Ccb)
    | ClearNexus(second: bool, scnt: nat, ccb: Ccb)
    | Post(second: bool, scnt: nat, ccb: Ccb)
    | LoopTest(second: bool, scnt: nat)
    | SelfPulse(second: bool)
    | Return(second: bool)
    | AfterSwitch

  datatype State = State(
    queue: multiset<Ccb>,
    nexus: Option<Ccb>,
    enqueuePulses: nat,
    otherPulses: nat,
    clients: seq<ClientPc>,
    pc: DriverPc,
    // history; `guarded` are the commands run while `nexus` named them, `batch` counts
    // the commands run in the present call of `sdmmc_start_ccb`
    enqueued: multiset<Ccb>,
    dequeued: multiset<Ccb>,
    executed: multiset<Ccb>,
    guarded: multiset<Ccb>,
    posted: multiset<Ccb>,
    batch: nat)

  datatype Action =
    | ClientEnqueue(c: nat, ccb: Ccb)
    | ClientTest(c: nat)
    | ClientPulse(c: nat)
    | TimerPulse
    | CallbackEnqueue(ccb: Ccb)
    | ReceiveEnqueue
    | ReceiveOther
    | DriverDequeue(ccb: Ccb)
    | DriverDequeueEmpty
    | DriverStep

  function Init(clients: nat): (s: State) {
    State(multiset{}, None, 0, 0, seq(clients, _ => Idle), Waiting, multiset{}, multiset{}, multiset{}, multiset{}, multiset{}, 0)
  }

  /** Steps that bring in work from outside: new requests and timer expiries. */
  predicate Arrival(a: Action) {
    a.ClientEnqueue? || a.CallbackEnqueue? || a.TimerPulse?
  }

  predicate Enabled(s: State, a: Action) {
    match a
    case ClientEnqueue(c, _) => c < |s.clients| && s.clients[c] == Idle
    case ClientTest(c) => c < |s.clients| && s.clients[c] == Enqueued
    case ClientPulse(c) => c < |s.clients| && s.clients[c] == WillPulse
    case TimerPulse => true
    // a completion callback runs on the driver thread, which never pulses itself
    case CallbackEnqueue(_) => s.pc.Post?
    case ReceiveEnqueue => s.pc.Waiting? && s.enqueuePulses > 0
    case ReceiveOther => s.pc.Waiting? && s.otherPulses > 0
    case DriverDequeue(ccb) => s.pc.Dequeue? && ccb in s.queue
    case DriverDequeueEmpty => s.pc.Dequeue? && s.queue == multiset{}
    case DriverStep => !s.pc.Waiting? && !s.pc.Dequeue?
  }

  /** The command handler runs and completes. */
  function Executed(s: State, ccb: Ccb): (r: State) {
    s.(executed := s.executed + multiset{ccb},
       guarded := s.guarded + if s.nexus == Some(ccb) then multiset{ccb} else multiset{},
       batch := s.batch + 1)
  }

  function DriverNext(s: State, max: nat): (r: State)
    requires !s.pc.Waiting? && !s.pc.Dequeue?
  {
    match s.pc
    case SetNexus(b, n, ccb) => s.(nexus := Some(ccb), pc := Running(b, n, ccb))
    case Running(b, n, ccb) => Executed(s, ccb).(pc := ClearNexus(b, n, ccb))
    case ClearNexus(b, n, ccb) => s.(nexus := None, pc := Post(b, n, ccb))
    case Post(b, n, ccb) => s.(posted := s.posted + multiset{ccb}, pc := LoopTest(b, n))
    case LoopTest(b, n) =>
      if s.nexus != None then s.(pc := if n == max then SelfPulse(b) else Return(b))
      else if n + 1 < max then s.(pc := Dequeue(b, n + 1))
      else s.(pc := if n + 1 == max then SelfPulse(b) else Return(b))
    case SelfPulse(b) => s.(enqueuePulses := s.enqueuePulses + 1, pc := Return(b))
    case Return(b) => s.(pc := if b then Waiting else AfterSwitch)
    case AfterSwitch => if s.nexus == None then s.(batch := 0, pc := Dequeue(true, 0)) else s.(pc := Waiting)
  }

  /** Steps of the clients, the timers and completion callbacks. */
  function Outside(s: State, a: Action): (r: State)
    requires Enabled(s, a) && IsOutside(a)
  {
    match a
    case ClientEnqueue(c, ccb) =>
      s.(queue := s.queue + multiset{ccb}, enqueued := s.enqueued + multiset{ccb}, clients := s.clients[c := Enqueued])
    case ClientTest(c) => s.(clients := s.clients[c := if s.nexus == None then WillPulse else Idle])
    case ClientPulse(c) => s.(enqueuePulses := s.enqueuePulses + 1, clients := s.clients[c := Idle])
    case TimerPulse => s.(otherPulses := s.otherPulses + 1)
    case CallbackEnqueue(ccb) => s.(queue := s.queue + multiset{ccb}, enqueued := s.enqueued + multiset{ccb})
  }

  predicate IsOutside(a: Action) {
    a.ClientEnqueue? || a.ClientTest? || a.ClientPulse? || a.TimerPulse? || a.CallbackEnqueue?
  }

  /** The driver takes a pulse from its channel or a CCB from the queue. */
  function Taken(s: State, a: Action): (r: State)
    requires Enabled(s, a) && !IsOutside(a) && !a.DriverStep?
  {
    match a
    case ReceiveEnqueue => s.(enqueuePulses := s.enqueuePulses - 1, batch := 0, pc := Dequeue(false, 0))
    case ReceiveOther => s.(otherPulses := s.otherPulses - 1, pc := AfterSwitch)
    case DriverDequeue(ccb) =>
      s.(queue := s.queue - multiset{ccb},
         dequeued := s.dequeued + multiset{ccb},
         pc := SetNexus(s.pc.second, s.pc.scnt, ccb))
    case DriverDequeueEmpty => s.(pc := Return(s.pc.second))
  }

  function Apply(s: State, a: Action, max: nat): (r: State)
    requires Enabled(s, a)
  {
    if IsOutside(a) then Outside(s, a) else if a.DriverStep? then DriverNext(s, max) else Taken(s, a)
  }

  // ---------------------------------------------------------------- the invariant

  function InFlight(pc: DriverPc): (m: multiset<Ccb>) {
    if HasCcb(pc) then multiset{pc.ccb} else multiset{}
  }

  predicate HasCcb(pc: DriverPc) {
    pc.SetNexus? || pc.Running? || pc.ClearNexus? || pc.Post?
  }

  /** The driver reaches a dequeue, or pulses itself, before it waits again. */
  predicate WillDequeue(pc: DriverPc) {
    !pc.Waiting? && !(pc.Return? && pc.second)
  }

  predicate ClientWillPulse(s: State, c: nat)
    requires c < |s.clients|
  {
    s.clients[c] == WillPulse || (s.clients[c] == Enqueued && s.nexus == None)
  }

  predicate WakeupDue(s: State) {
    || s.enqueuePulses + s.otherPulses > 0
    || WillDequeue(s.pc)
    || exists c :: 0 <= c < |s.clients| && ClientWillPulse(s, c)
  }

  predicate NexusMatches(s: State) {
    s.nexus == if s.pc.Running? || s.pc.ClearNexus? then Some(s.pc.ccb) else None
  }

  /** Executed, not yet posted. */
  function Finishing(pc: DriverPc): (m: multiset<Ccb>) {
    if IsFinishing(pc) then multiset{pc.ccb} else multiset{}
  }

  predicate IsFinishing(pc: DriverPc) {
    pc.ClearNexus? || pc.Post?
  }

  /** Every request is queued, in flight or posted, and each dequeued one is posted once. */
  predicate Conserved(s: State) {
    && s.enqueued == s.queue + s.dequeued
    && s.dequeued == s.posted + InFlight(s.pc)
  }

  /** What is posted has been executed once, while `nexus` named it. */
  predicate ExecutedOnce(s: State) {
    && s.executed == s.posted + Finishing(s.pc)
    && s.guarded == s.executed
  }

  /** A call runs as many commands as its counter says, and pulses itself after `max` only. */
  predicate BatchOk(s: State, max: nat) {
    && (s.pc.Dequeue? || s.pc.SetNexus? || s.pc.Running? ==> s.batch == s.pc.scnt)
    && (s.pc.ClearNexus? || s.pc.Post? || s.pc.LoopTest? ==> s.batch == s.pc.scnt + 1)
    && (s.pc.SelfPulse? ==> s.batch == max)
    && s.batch <= max
  }

  predicate CounterOk(pc: DriverPc, max: nat) {
    pc.Dequeue? || pc.SetNexus? || pc.Running? || pc.ClearNexus? || pc.Post? || pc.LoopTest? ==> pc.scnt < max
  }

  predicate Inv(s: State, max: nat) {
    && NexusMatches(s)
    && Conserved(s)
    && ExecutedOnce(s)
    && CounterOk(s.pc, max)
    && BatchOk(s, max)
    && (s.queue != multiset{} ==> WakeupDue(s))
  }

  lemma OutsideConserves(s: State, a: Action)
    requires Conserved(s) && Enabled(s, a) && IsOutside(a)
    ensures Conserved(Outside(s, a))
  {
  }

  lemma TakenConserves(s: State, a: Action)
    requires Conserved(s) && Enabled(s, a) && !IsOutside(a) && !a.DriverStep?
    ensures Conserved(Taken(s, a))
  {
    if a.DriverDequeue? {
      DequeueConserves(s, a.ccb);
    }
  }

  /** One request moves from one bag to another. */
  lemma MovedOne(q: multiset<Ccb>, d: multiset<Ccb>, c: Ccb)
    requires c in q
    ensures (q - multiset{c}) + (d + multiset{c}) == q + d && |q - multiset{c}| == |q| - 1
  {
    assert (q - multiset{c}) + multiset{c} == q;
  }

  lemma DequeueConserves(s: State, ccb: Ccb)
    requires Conserved(s) && s.pc.Dequeue? && ccb in s.queue
    ensures Conserved(Taken(s, DriverDequeue(ccb)))
  {
    MovedOne(s.queue, s.dequeued, ccb);
    var r := Taken(s, DriverDequeue(ccb));
    assert r.enqueued == s.enqueued && r.posted == s.posted;
    assert InFlight(s.pc) == multiset{} && InFlight(r.pc) == multiset{ccb};
  }

  lemma DriverConserves(s: State, max: nat)
    requires Conserved(s) && !s.pc.Waiting? && !s.pc.Dequeue?
    ensures Conserved(DriverNext(s, max))
  {
    DriverKeeps(s, max);
    DriverCarries(s, max);
    DriverPosts(s, max);
    var r := DriverNext(s, max);
    assert r.posted + InFlight(r.pc) == s.posted + InFlight(s.pc) by {
      if s.pc.Post? {
        assert r.posted + multiset{} == s.posted + multiset{s.pc.ccb};
      }
    }
  }

  lemma DriverKeeps(s: State, max: nat)
    requires !s.pc.Waiting? && !s.pc.Dequeue?
    ensures var r := DriverNext(s, max);
            r.enqueued == s.enqueued && r.dequeued == s.dequeued && r.queue == s.queue && r.clients == s.clients
  {
  }

  /** Which request the driver has in hand. */
  lemma DriverCarries(s: State, max: nat)
    requires !s.pc.Waiting? && !s.pc.Dequeue?
    ensures var r := DriverNext(s, max);
            && (HasCcb(r.pc) <==> HasCcb(s.pc) && !s.pc.Post?)
            && (HasCcb(r.pc) ==> r.pc.ccb == s.pc.ccb)
            && (IsFinishing(r.pc) <==> s.pc.Running? || s.pc.ClearNexus?)
  {
  }

  lemma DriverPosts(s: State, max: nat)
    requires !s.pc.Waiting? && !s.pc.Dequeue?
    ensures DriverNext(s, max).posted == if s.pc.Post? then s.posted + multiset{s.pc.ccb} else s.posted
  {
  }

  lemma DriverRuns(s: State, max: nat)
    requires !s.pc.Waiting? && !s.pc.Dequeue?
    ensures var r := DriverNext(s, max);
            if s.pc.Running? then r.executed == s.executed + multiset{s.pc.ccb} else r.executed == s.executed
    ensures NexusMatches(s) && s.guarded == s.executed ==> DriverNext(s, max).guarded == DriverNext(s, max).executed
  {
  }

  /** A command is executed under its nexus before it is posted. */
  lemma DriverExecutes(s: State, max: nat)
    requires ExecutedOnce(s) && NexusMatches(s) && !s.pc.Waiting? && !s.pc.Dequeue?
    ensures ExecutedOnce(DriverNext(s, max))
  {
    DriverCarries(s, max);
    DriverPosts(s, max);
    DriverRuns(s, max);
    var r := DriverNext(s, max);
    assert s.posted + multiset{} == s.posted && r.posted + multiset{} == r.posted;
  }

  /** A client step hands its obligation on: to itself, to a pulse, or to the driver. */
  lemma OutsideWakes(s: State, a: Action, max: nat)
    requires Inv(s, max) && Enabled(s, a) && IsOutside(a)
    ensures Outside(s, a).queue != multiset{} ==> WakeupDue(Outside(s, a))
  {
    var r := Outside(s, a);
    if r.queue != multiset{} && r.enqueuePulses + r.otherPulses == 0 && !WillDequeue(r.pc) {
      assert ClientWillPulse(r, a.c);
    }
  }

  /** A client pulses exactly if it finds the driver without a command in hand, once, and a
      request reaches the queue before that. */
  lemma ClientExactly(s: State, c: nat, ccb: Ccb)
    requires c < |s.clients|
    ensures s.clients[c] == Idle ==>
              var r := Outside(s, ClientEnqueue(c, ccb));
              r.clients[c] == Enqueued && r.queue == s.queue + multiset{ccb} && r.enqueuePulses == s.enqueuePulses
    ensures s.clients[c] == Enqueued ==>
              var r := Outside(s, ClientTest(c));
              (r.clients[c] == WillPulse <==> s.nexus == None) && (r.clients[c] == Idle <==> s.nexus != None)
              && r.queue == s.queue && r.enqueuePulses == s.enqueuePulses
    ensures s.clients[c] == WillPulse ==>
              var r := Outside(s, ClientPulse(c));
              r.clients[c] == Idle && r.enqueuePulses == s.enqueuePulses + 1 && r.queue == s.queue
  {
  }

  lemma DriverWakes(s: State, max: nat)
    requires NexusMatches(s) && CounterOk(s.pc, max) && (s.queue != multiset{} ==> WakeupDue(s)) && !s.pc.Waiting? && !s.pc.Dequeue?
    ensures DriverNext(s, max).queue != multiset{} ==> WakeupDue(DriverNext(s, max))
  {
    var r := DriverNext(s, max);
    DriverKeeps(s, max);
    if r.queue != multiset{} && r.enqueuePulses + r.otherPulses == 0 && !WillDequeue(r.pc) {
      var c :| 0 <= c < |s.clients| && ClientWillPulse(s, c);
      assert ClientWillPulse(r, c);
    }
  }

  lemma OutsideKeepsInv(s: State, a: Action, max: nat)
    requires Inv(s, max) && Enabled(s, a) && IsOutside(a)
    ensures Inv(Outside(s, a), max)
  {
    OutsideConserves(s, a);
    OutsideWakes(s, a, max);
  }

  lemma TakenKeepsInv(s: State, a: Action, max: nat)
    requires 1 <= max && Inv(s, max) && Enabled(s, a) && !IsOutside(a) && !a.DriverStep?
    ensures Inv(Taken(s, a), max)
  {
    TakenConserves(s, a);
    TakenControls(s, a, max);
    TakenWakes(s, a);
  }

  lemma TakenControls(s: State, a: Action, max: nat)
    requires 1 <= max && NexusMatches(s) && CounterOk(s.pc, max) && BatchOk(s, max) && ExecutedOnce(s)
    requires Enabled(s, a) && !IsOutside(a) && !a.DriverStep?
    ensures var r := Taken(s, a); NexusMatches(r) && CounterOk(r.pc, max) && BatchOk(r, max) && ExecutedOnce(r)
  {
    assert Finishing(s.pc) == Finishing(Taken(s, a).pc) == multiset{};
  }

  lemma TakenWakes(s: State, a: Action)
    requires Enabled(s, a) && !IsOutside(a) && !a.DriverStep?
    ensures Taken(s, a).queue != multiset{} ==> WakeupDue(Taken(s, a))
  {
  }

  /** The nexus follows the program counter; the counter stays within the budget and counts
      the commands run. */
  lemma DriverControls(s: State, max: nat)
    requires 1 <= max && NexusMatches(s) && CounterOk(s.pc, max) && BatchOk(s, max) && !s.pc.Waiting? && !s.pc.Dequeue?
    ensures NexusMatches(DriverNext(s, max)) && CounterOk(DriverNext(s, max).pc, max) && BatchOk(DriverNext(s, max), max)
  {
  }

  lemma DriverKeepsInv(s: State, max: nat)
    requires 1 <= max && Inv(s, max) && !s.pc.Waiting? && !s.pc.Dequeue?
    ensures Inv(DriverNext(s, max), max)
  {
    DriverControls(s, max);
    DriverConserves(s, max);
    DriverExecutes(s, max);
    DriverWakes(s, max);
  }

  lemma StepKeepsInv(s: State, a: Action, max: nat)
    requires 1 <= max && Inv(s, max) && Enabled(s, a)
    ensures Inv(Apply(s, a, max), max)
  {
    if IsOutside(a) {
      OutsideKeepsInv(s, a, max);
    } else if a.DriverStep? {
      DriverKeepsInv(s, max);
    } else {
      TakenKeepsInv(s, a, max);
    }
  }

  // ---------------------------------------------------------------- runs

  /** `actions`, any interleaving of the threads, leads from `s` to `r`. */
  predicate Reaches(s: State, actions: seq<Action>, r: State, max: nat)
    decreases |actions|
  {
    if actions == [] then r == s
    else Enabled(s, actions[0]) && Reaches(Apply(s, actions[0], max), actions[1..], r, max)
  }

  lemma {:induction false} ReachesKeepsInv(s: State, actions: seq<Action>, r: State, max: nat)
    requires 1 <= max && Inv(s, max) && Reaches(s, actions, r, max)
    ensures Inv(r, max)
    decreases |actions|
  {
    if actions != [] {
      StepKeepsInv(s, actions[0], max);
      ReachesKeepsInv(Apply(s, actions[0], max), actions[1..], r, max);
    }
  }

  /** In every state of every run: no lost wakeup, each request executed once under its nexus
      and posted once after that, at most `max` commands in a call and a self-pulse only
      after as many, and a clear nexus while the driver waits. */
  lemma EveryRun(clients: nat, actions: seq<Action>, s: State, max: nat)
    requires 1 <= max && Reaches(Init(clients), actions, s, max)
    ensures s.queue != multiset{} ==> WakeupDue(s)
    ensures s.enqueued == s.queue + s.dequeued && s.dequeued == s.posted + InFlight(s.pc)
    ensures s.executed == s.posted + Finishing(s.pc) && s.guarded == s.executed
    ensures s.batch <= max && (s.pc.SelfPulse? ==> s.batch == max)
    ensures s.pc.Waiting? ==> s.nexus == None && s.dequeued == s.executed == s.posted
  {
    ReachesKeepsInv(Init(clients), actions, s, max);
  }

  // ---------------------------------------------------------------- progress

  function ClientWeight(clients: seq<ClientPc>): (w: nat) {
    if clients == [] then 0
    else (match clients[0] case Idle => 0 case Enqueued => 8 case WillPulse => 7) + ClientWeight(clients[1..])
  }

  function BaseWeight(second: bool): (w: nat) {
    if second then 2 else 5
  }

  function DriverWeight(pc: DriverPc): (w: nat) {
    match pc
    case Waiting => 0
    case Return(b) => BaseWeight(b) - 1
    case AfterSwitch => 3
    case Dequeue(b, _) => BaseWeight(b)
    case SelfPulse(b) => BaseWeight(b) + 6
    case LoopTest(b, _) => BaseWeight(b) + 7
    case Post(b, _, _) => BaseWeight(b) + 8
    case ClearNexus(b, _, _) => BaseWeight(b) + 9
    case Running(b, _, _) => BaseWeight(b) + 10
    case SetNexus(b, _, _) => BaseWeight(b) + 11
  }

  /** An upper bound on the steps that remain once nothing more arrives. */
  function Work(s: State): (w: nat) {
    12 * |s.queue| + 6 * (s.enqueuePulses + s.otherPulses) + ClientWeight(s.clients) + DriverWeight(s.pc)
  }

  lemma {:induction false} ClientWeightUpdate(clients: seq<ClientPc>, c: nat, p: ClientPc)
    requires c < |clients|
    ensures ClientWeight(clients[c := p]) + ClientWeight([clients[c]]) == ClientWeight(clients) + ClientWeight([p])
  {
    if c == 0 {
      assert clients[0 := p][1..] == clients[1..];
    } else {
      assert clients[c := p][1..] == clients[1..][c - 1 := p];
      ClientWeightUpdate(clients[1..], c - 1, p);
    }
  }

  lemma DriverStepWeighs(s: State, max: nat)
    requires NexusMatches(s) && !s.pc.Waiting? && !s.pc.Dequeue?
    ensures var r := DriverNext(s, max);
            6 * r.enqueuePulses + DriverWeight(r.pc) < 6 * s.enqueuePulses + DriverWeight(s.pc)
  {
  }

  lemma DriverUsesWork(s: State, max: nat)
    requires NexusMatches(s) && !s.pc.Waiting? && !s.pc.Dequeue?
    ensures Work(DriverNext(s, max)) < Work(s)
  {
    var r := DriverNext(s, max);
    DriverKeeps(s, max);
    assert r.otherPulses == s.otherPulses;
    DriverStepWeighs(s, max);
  }

  lemma ClientUsesWork(s: State, a: Action)
    requires Enabled(s, a) && (a.ClientTest? || a.ClientPulse?)
    ensures Work(Outside(s, a)) < Work(s)
  {
    ClientWeightUpdate(s.clients, a.c, Outside(s, a).clients[a.c]);
  }

  /** Every step that is not an arrival, of whichever thread, uses up work. */
  lemma StepUsesWork(s: State, a: Action, max: nat)
    requires 1 <= max && Inv(s, max) && Enabled(s, a) && !Arrival(a)
    ensures Work(Apply(s, a, max)) < Work(s) && Apply(s, a, max).enqueued == s.enqueued
  {
    if IsOutside(a) {
      ClientUsesWork(s, a);
    } else if a.DriverStep? {
      DriverUsesWork(s, max);
    } else {
      TakenUsesWork(s, a);
    }
  }

  lemma TakenUsesWork(s: State, a: Action)
    requires Enabled(s, a) && !IsOutside(a) && !a.DriverStep?
    ensures Work(Taken(s, a)) < Work(s) && Taken(s, a).enqueued == s.enqueued
  {
    var r := Taken(s, a);
    assert r.clients == s.clients;
    if a.DriverDequeue? {
      MovedOne(s.queue, s.dequeued, a.ccb);
    }
  }

  ghost predicate Quiet(s: State) {
    forall a :: Enabled(s, a) ==> Arrival(a)
  }

  lemma CanMove(s: State, max: nat) returns (a: Action)
    requires Inv(s, max) && (s.queue != multiset{} || !s.pc.Waiting?)
    ensures Enabled(s, a) && !Arrival(a)
  {
    if s.pc.Dequeue? {
      if s.queue == multiset{} {
        a := DriverDequeueEmpty;
      } else {
        var ccb :| ccb in s.queue;
        a := DriverDequeue(ccb);
      }
    } else if !s.pc.Waiting? {
      a := DriverStep;
    } else if s.enqueuePulses > 0 {
      a := ReceiveEnqueue;
    } else if s.otherPulses > 0 {
      a := ReceiveOther;
    } else {
      var c :| 0 <= c < |s.clients| && ClientWillPulse(s, c);
      a := if s.clients[c] == WillPulse then ClientPulse(c) else ClientTest(c);
    }
  }

  /** When no thread can move, every request ever enqueued has been executed and posted. */
  lemma QuietIsDrained(s: State, max: nat)
    requires Inv(s, max) && Quiet(s)
    ensures s.queue == multiset{} && s.nexus == None && s.posted == s.executed == s.enqueued && s.guarded == s.executed
  {
    if s.queue != multiset{} || !s.pc.Waiting? {
      var _ := CanMove(s, max);
    }
  }

  /** Once arrivals stop, every interleaving of the threads stops within a known
      number of steps, and where it stops every enqueued request has been executed, under
      its nexus, and posted. */
  lemma {:induction false} EveryRequestPosted(s: State, actions: seq<Action>, r: State, max: nat)
    requires 1 <= max && Inv(s, max) && Reaches(s, actions, r, max)
    requires forall k :: 0 <= k < |actions| ==> !Arrival(actions[k])
    ensures |actions| + Work(r) <= Work(s)
    ensures Quiet(r) ==> r.queue == multiset{} && r.posted == r.executed == s.enqueued && r.guarded == r.executed
    decreases |actions|
  {
    if actions == [] {
      if Quiet(r) {
        QuietIsDrained(r, max);
      }
    } else {
      StepUsesWork(s, actions[0], max);
      StepKeepsInv(s, actions[0], max);
      EveryRequestPosted(Apply(s, actions[0], max), actions[1..], r, max);
    }
  }
}
