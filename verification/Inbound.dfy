/**
 Tasks of one inbound listener. Each accepted connection counts itself in by compare-and-swap, takes a handshake
 permit, gives it back once the request is parsed, takes a dial permit if it goes through a proxy, and answers its
 client when the outbound is connected. The dial permits are shared with every other listener of the process.
 */
module Inbound {
  import opened Sets

  const MAX_ACTIVE := 512
  const MAX_HANDSHAKES := 256
  const MAX_DIALS := 16

  datatype Pc =
    | Loading                                                   // at the top of the compare-and-swap loop
    | Loaded(cur: int)
    | AwaitHandshake
    | Handshake
    | Resolving
    | AwaitDial
    | Dialing
    | Returning                                                 // connected, leaving the dial function
    | Replying
    | Relaying
    | Unwinding                                                 // on the way out, dropping what it owns
    | Finished

  /** How the destination is reached, once it has been resolved. */
  datatype Route = Unresolved | Direct | Proxied

  datatype Task = Task(pc: Pc, route: Route, connected: bool, replied: bool)

  /** The counter, the free permits, who owns what, and dial permits owned by other listeners. */
  datatype State = State(
    active: int, handshakesFree: int, dialsFree: int,
    guards: set<nat>, handshakes: set<nat>, dials: set<nat>, foreign: nat,
    tasks: map<nat, Task>)

  const INIT := State(0, MAX_HANDSHAKES, MAX_DIALS, {}, {}, {}, 0, map[])

  datatype Step =
    | Accept(t: nat)
    | Load(t: nat)
    | Cas(t: nat)
    | TakeHandshake(t: nat)
    | Parsed(t: nat)
    | Resolved(t: nat, direct: bool)
    | TakeDial(t: nat)
    | Connect(t: nat)
    | Return(t: nat)
    | Reply(t: nat)
    | GiveUp(t: nat)                                            // any error, timeout or disconnect; or the relay ends
    | DropDial(t: nat)
    | DropHandshake(t: nat)
    | Finish(t: nat)
    | ForeignTake
    | ForeignDrop

  predicate At(s: State, t: nat, pc: Pc) {
    t in s.tasks && s.tasks[t].pc == pc
  }

  predicate Enabled(s: State, step: Step) {
    match step
    case Accept(t) => t !in s.tasks
    case Load(t) => At(s, t, Loading)
    case Cas(t) => t in s.tasks && s.tasks[t].pc.Loaded?
    case TakeHandshake(t) => At(s, t, AwaitHandshake) && s.handshakesFree > 0
    case Parsed(t) => At(s, t, Handshake)
    case Resolved(t, _) => At(s, t, Resolving)
    case TakeDial(t) => At(s, t, AwaitDial) && s.dialsFree > 0
    case Connect(t) => At(s, t, Dialing)
    case Return(t) => At(s, t, Returning)
    case Reply(t) => At(s, t, Replying)
    case GiveUp(t) =>
      t in s.tasks && s.tasks[t].pc in
        {AwaitHandshake, Handshake, Resolving, AwaitDial, Dialing, Returning, Replying, Relaying}
    case DropDial(t) => At(s, t, Unwinding) && t in s.dials
    case DropHandshake(t) => At(s, t, Unwinding) && t !in s.dials && t in s.handshakes
    case Finish(t) => At(s, t, Unwinding) && t !in s.dials && t !in s.handshakes
    case ForeignTake => s.dialsFree > 0
    case ForeignDrop => s.foreign > 0
  }

  function Goto(s: State, t: nat, pc: Pc): State
    requires t in s.tasks
  {
    s.(tasks := s.tasks[t := s.tasks[t].(pc := pc)])
  }

  function DropDialOf(s: State, t: nat): State {
    s.(dialsFree := s.dialsFree + 1, dials := s.dials - {t})
  }

  function Apply(s: State, step: Step): State
    requires Enabled(s, step)
  {
    match step
    case Accept(t) => s.(tasks := s.tasks[t := Task(Loading, Unresolved, false, false)])
    case Load(t) => Goto(s, t, if s.active >= MAX_ACTIVE then Finished else Loaded(s.active))
    case Cas(t) =>
      if s.active == s.tasks[t].pc.cur
      then Goto(s, t, AwaitHandshake).(active := s.active + 1, guards := s.guards + {t})
      else Goto(s, t, Loading)
    case TakeHandshake(t) =>
      Goto(s, t, Handshake).(handshakesFree := s.handshakesFree - 1, handshakes := s.handshakes + {t})
    case Parsed(t) =>
      Goto(s, t, Resolving).(handshakesFree := s.handshakesFree + 1, handshakes := s.handshakes - {t})
    case Resolved(t, direct) =>
      var (pc, route) := if direct then (Dialing, Direct) else (AwaitDial, Proxied);
      s.(tasks := s.tasks[t := s.tasks[t].(pc := pc, route := route)])
    case TakeDial(t) => Goto(s, t, Dialing).(dialsFree := s.dialsFree - 1, dials := s.dials + {t})
    case Connect(t) => s.(tasks := s.tasks[t := s.tasks[t].(pc := Returning, connected := true)])
    case Return(t) =>
      if s.tasks[t].route.Direct? then Goto(s, t, Replying) else DropDialOf(Goto(s, t, Replying), t)
    case Reply(t) => s.(tasks := s.tasks[t := s.tasks[t].(pc := Relaying, replied := true)])
    case GiveUp(t) => Goto(s, t, Unwinding)
    case DropDial(t) => DropDialOf(s, t)
    case DropHandshake(t) => s.(handshakesFree := s.handshakesFree + 1, handshakes := s.handshakes - {t})
    case Finish(t) => Goto(s, t, Finished).(active := s.active - 1, guards := s.guards - {t})
    case ForeignTake => s.(dialsFree := s.dialsFree - 1, foreign := s.foreign + 1)
    case ForeignDrop => s.(dialsFree := s.dialsFree + 1, foreign := s.foreign - 1)
  }

  ghost predicate IsRun(states: seq<State>, steps: seq<Step>) {
    && |states| == |steps| + 1 && states[0] == INIT
    && (forall i | 0 <= i < |steps| :: Enabled(states[i], steps[i]) && states[i + 1] == Apply(states[i], steps[i]))
  }

  // ---------------------------------------------------------------- invariants

  ghost predicate GuardsCounted(s: State) {
    0 <= s.active == |s.guards| <= MAX_ACTIVE
  }

  ghost predicate HandshakesCounted(s: State) {
    0 <= s.handshakesFree && s.handshakesFree + |s.handshakes| == MAX_HANDSHAKES
  }

  ghost predicate DialsCounted(s: State) {
    0 <= s.dialsFree && s.dialsFree + |s.dials| + s.foreign == MAX_DIALS
  }

  /** What a task owns at each point of its life. */
  ghost predicate TaskInv(s: State, t: nat, task: Task) {
    && (t in s.guards <==> !(task.pc.Loading? || task.pc.Loaded? || task.pc.Finished?))
    && (task.pc.Loaded? ==> task.pc.cur < MAX_ACTIVE)
    && (t in s.handshakes ==> task.pc.Handshake? || task.pc.Unwinding?)
    && (task.pc.Handshake? ==> t in s.handshakes)
    && (t in s.dials ==> task.route.Proxied? && (task.pc.Dialing? || task.pc.Returning? || task.pc.Unwinding?))
    && (task.pc.AwaitDial? ==> task.route.Proxied?)
    && (task.pc.Dialing? || task.pc.Returning? ==>
          !task.route.Unresolved? && (task.route.Proxied? ==> t in s.dials))
    && (task.pc.Returning? || task.pc.Replying? || task.pc.Relaying? || task.replied ==> task.connected)
  }

  ghost predicate Owned(s: State) {
    && (forall t | t in s.tasks :: TaskInv(s, t, s.tasks[t]))
    && (forall t | Owner(s, t) :: t in s.tasks)
  }

  predicate Owner(s: State, t: nat) {
    t in s.guards || t in s.handshakes || t in s.dials
  }

  /** A step is one task's, and leaves what others are and own alone. */
  lemma OtherTask(s: State, step: Step, t: nat)
    requires Enabled(s, step) && (step.ForeignTake? || step.ForeignDrop? || t != step.t)
    ensures var s' := Apply(s, step);
            && (t in s'.tasks <==> t in s.tasks) && (t in s.tasks ==> s'.tasks[t] == s.tasks[t])
            && (t in s'.guards <==> t in s.guards) && (t in s'.handshakes <==> t in s.handshakes)
            && (t in s'.dials <==> t in s.dials)
  {
  }

  lemma OwnTask(s: State, step: Step)
    requires !step.ForeignTake? && !step.ForeignDrop? && Enabled(s, step) && step.t in Apply(s, step).tasks
    requires if step.t in s.tasks then TaskInv(s, step.t, s.tasks[step.t]) else !Owner(s, step.t)
    ensures TaskInv(Apply(s, step), step.t, Apply(s, step).tasks[step.t])
  {
  }

  lemma StepKeepsTask(s: State, step: Step, t: nat)
    requires Enabled(s, step) && t in Apply(s, step).tasks
    requires if t in s.tasks then TaskInv(s, t, s.tasks[t]) else !Owner(s, t)
    ensures TaskInv(Apply(s, step), t, Apply(s, step).tasks[t])
  {
    hide Apply;
    if step.ForeignTake? || step.ForeignDrop? || t != step.t {
      OtherTask(s, step, t);
    } else {
      hide TaskInv;
      OwnTask(s, step);
    }
  }

  lemma StepKeepsOwners(s: State, step: Step, t: nat)
    requires Enabled(s, step) && Owner(Apply(s, step), t) && (Owner(s, t) ==> t in s.tasks)
    ensures t in Apply(s, step).tasks
  {
  }

  lemma StepKeepsOwned(s: State, step: Step)
    requires Owned(s) && Enabled(s, step)
    ensures Owned(Apply(s, step))
  {
    hide TaskInv;
    var s' := Apply(s, step);
    forall t | t in s'.tasks ensures TaskInv(s', t, s'.tasks[t]) {
      StepKeepsTask(s, step, t);
    }
    forall t | Owner(s', t) ensures t in s'.tasks {
      StepKeepsOwners(s, step, t);
    }
  }

  /** What a step does to the counter and the permits. */
  lemma Effects(s: State, step: Step)
    requires Enabled(s, step)
    ensures var s' := Apply(s, step);
            && (if step.Cas? && s.active == s.tasks[step.t].pc.cur
                then s'.guards == s.guards + {step.t} && s'.active == s.active + 1
                else if step.Finish? then s'.guards == s.guards - {step.t} && s'.active == s.active - 1
                else s'.guards == s.guards && s'.active == s.active)
            && (if step.TakeHandshake?
                then s'.handshakes == s.handshakes + {step.t} && s'.handshakesFree == s.handshakesFree - 1
                else if step.Parsed? || step.DropHandshake?
                then s'.handshakes == s.handshakes - {step.t} && s'.handshakesFree == s.handshakesFree + 1
                else s'.handshakes == s.handshakes && s'.handshakesFree == s.handshakesFree)
  {
  }

  lemma DialEffects(s: State, step: Step)
    requires Enabled(s, step)
    ensures var s' := Apply(s, step);
            && s'.foreign == s.foreign + (if step.ForeignTake? then 1 else if step.ForeignDrop? then -1 else 0)
            && (if step.TakeDial? then s'.dials == s.dials + {step.t} && s'.dialsFree == s.dialsFree - 1
                else if step.DropDial? || (step.Return? && !s.tasks[step.t].route.Direct?)
                then s'.dials == s.dials - {step.t} && s'.dialsFree == s.dialsFree + 1
                else s'.dials == s.dials && s'.dialsFree + s'.foreign == s.dialsFree + s.foreign)
            && (step.ForeignTake? ==> s.dialsFree > 0)
  {
  }

  lemma TaskOf(s: State, t: nat)
    requires Owned(s) && t in s.tasks
    ensures TaskInv(s, t, s.tasks[t])
  {
  }

  lemma StepKeepsGuards(s: State, step: Step)
    requires Owned(s) && GuardsCounted(s) && Enabled(s, step)
    ensures GuardsCounted(Apply(s, step))
  {
    hide Owned, Apply;
    Effects(s, step);
    if step.Cas? {
      TaskOf(s, step.t);
      Joined(s.guards, step.t);
    } else if step.Finish? {
      TaskOf(s, step.t);
      Parted(s.guards, step.t);
    }
  }

  lemma StepKeepsHandshakes(s: State, step: Step)
    requires Owned(s) && HandshakesCounted(s) && Enabled(s, step)
    ensures HandshakesCounted(Apply(s, step))
  {
    hide Owned, Apply;
    Effects(s, step);
    if step.TakeHandshake? {
      TaskOf(s, step.t);
      Joined(s.handshakes, step.t);
    } else if step.Parsed? || step.DropHandshake? {
      TaskOf(s, step.t);
      Parted(s.handshakes, step.t);
    }
  }

  lemma StepKeepsDials(s: State, step: Step)
    requires Owned(s) && DialsCounted(s) && Enabled(s, step)
    ensures DialsCounted(Apply(s, step))
  {
    hide Owned, Apply;
    DialEffects(s, step);
    if step.TakeDial? {
      TaskOf(s, step.t);
      Joined(s.dials, step.t);
    } else if step.DropDial? || (step.Return? && !s.tasks[step.t].route.Direct?) {
      TaskOf(s, step.t);
      Parted(s.dials, step.t);
    }
  }

  ghost predicate Inv(s: State) {
    Owned(s) && GuardsCounted(s) && HandshakesCounted(s) && DialsCounted(s)
  }

  lemma {:induction false} InvHolds(states: seq<State>, steps: seq<Step>, i: nat)
    requires IsRun(states, steps) && i < |states|
    ensures Inv(states[i])
  {
    if i > 0 {
      InvHolds(states, steps, i - 1);
      StepKeepsOwned(states[i - 1], steps[i - 1]);
      StepKeepsGuards(states[i - 1], steps[i - 1]);
      StepKeepsHandshakes(states[i - 1], steps[i - 1]);
      StepKeepsDials(states[i - 1], steps[i - 1]);
    }
  }

  // ---------------------------------------------------------------- results

  /** The counter is the number of live guards and never passes the cap; permits in use never pass their limits. */
  lemma CapsHold(states: seq<State>, steps: seq<Step>, i: nat)
    requires IsRun(states, steps) && i < |states|
    ensures states[i].active == |states[i].guards| <= 512
    ensures |states[i].handshakes| <= 256
    ensures |states[i].dials| + states[i].foreign <= 16
  {
    InvHolds(states, steps, i);
  }

  /** A direct connection neither owns a dial permit nor waits for one. */
  lemma DirectTakesNoDialPermit(states: seq<State>, steps: seq<Step>, i: nat, t: nat)
    requires IsRun(states, steps) && i < |states| && t in states[i].tasks && states[i].tasks[t].route.Direct?
    ensures t !in states[i].dials && !states[i].tasks[t].pc.AwaitDial?
  {
    InvHolds(states, steps, i);
  }

  /** The success reply is written only by a connected task that owns neither permit. */
  lemma ReplyAfterConnectWithoutPermits(states: seq<State>, steps: seq<Step>, i: nat, t: nat)
    requires IsRun(states, steps) && i < |steps| && steps[i] == Reply(t)
    ensures states[i].tasks[t].connected && t in states[i].guards
    ensures t !in states[i].handshakes && t !in states[i].dials
  {
    InvHolds(states, steps, i);
  }

  /** A finished task owns nothing. */
  lemma FinishedOwnsNothing(states: seq<State>, steps: seq<Step>, i: nat, t: nat)
    requires IsRun(states, steps) && i < |states| && At(states[i], t, Finished)
    ensures t !in states[i].guards && t !in states[i].handshakes && t !in states[i].dials
  {
    InvHolds(states, steps, i);
  }

  /** When every task is finished the counter is zero and every permit is free. */
  lemma AllFinishedFreesAll(states: seq<State>, steps: seq<Step>, i: nat)
    requires IsRun(states, steps) && i < |states|
    requires forall t | t in states[i].tasks :: states[i].tasks[t].pc.Finished?
    ensures states[i].active == 0 && states[i].handshakesFree == 256
    ensures states[i].dialsFree + states[i].foreign == 16
  {
    InvHolds(states, steps, i);
    var s := states[i];
    assert forall t :: !Owner(s, t);
    forall t: nat ensures t !in s.guards && t !in s.handshakes && t !in s.dials {
      assert !Owner(s, t);
    }
    assert s.guards == {} && s.handshakes == {} && s.dials == {};
  }

  lemma Extend(states: seq<State>, steps: seq<Step>, step: Step) returns (longer: seq<State>)
    requires IsRun(states, steps) && Enabled(states[|steps|], step)
    ensures IsRun(longer, steps + [step]) && longer[|steps| + 1] == Apply(states[|steps|], step)
  {
    longer := states + [Apply(states[|steps|], step)];
    var steps' := steps + [step];
    forall i | 0 <= i < |steps'| ensures Enabled(longer[i], steps'[i]) && longer[i + 1] == Apply(longer[i], steps'[i]) {
      assert longer[i] == states[i];
      assert i < |steps| ==> longer[i + 1] == states[i + 1] && steps'[i] == steps[i];
    }
  }

  /** However many dials are queued, a task routed directly can go on to its reply by steps of its own. */
  lemma DirectIsNeverBlocked(states: seq<State>, steps: seq<Step>, t: nat) returns (longer: seq<State>)
    requires IsRun(states, steps) && At(states[|steps|], t, Resolving)
    ensures IsRun(longer, steps + [Resolved(t, true)] + [Connect(t)] + [Return(t)] + [Reply(t)])
    ensures var s' := longer[|steps| + 4]; At(s', t, Relaying) && s'.tasks[t].replied
    ensures longer[|steps| + 4].dialsFree == states[|steps|].dialsFree
  {
    hide IsRun;
    longer := Extend(states, steps, Resolved(t, true));
    longer := Extend(longer, steps + [Resolved(t, true)], Connect(t));
    longer := Extend(longer, steps + [Resolved(t, true)] + [Connect(t)], Return(t));
    longer := Extend(longer, steps + [Resolved(t, true)] + [Connect(t)] + [Return(t)], Reply(t));
  }

  /** The state without what task `t` owns. */
  function Without(s: State, t: nat): State
    requires t in s.tasks
  {
    Goto(s, t, Finished).(
    active := s.active - 1, guards := s.guards - {t},
    handshakesFree := s.handshakesFree + (if t in s.handshakes then 1 else 0), handshakes := s.handshakes - {t},
    dialsFree := s.dialsFree + (if t in s.dials then 1 else 0), dials := s.dials - {t})
  }

  /** The steps by which a task that is on its way out gives back what it owns. */
  function Unwind(s: State, t: nat): seq<Step> {
    (if t in s.dials then [DropDial(t)] else []) + (if t in s.handshakes then [DropHandshake(t)] else []) + [Finish(t)]
  }

  /** A task that is giving up can always finish by itself, and gives back exactly what it owns. */
  lemma UnwindingGivesBackAll(states: seq<State>, steps: seq<Step>, t: nat) returns (longer: seq<State>)
    requires IsRun(states, steps) && At(states[|steps|], t, Unwinding)
    ensures var all := steps + Unwind(states[|steps|], t);
            IsRun(longer, all) && longer[|all|] == Without(states[|steps|], t)
  {
    var s := states[|steps|];
    hide IsRun;
    var done := steps;
    longer := states;
    if t in s.dials {
      longer := Extend(longer, done, DropDial(t));
      done := done + [DropDial(t)];
    }
    if t in s.handshakes {
      longer := Extend(longer, done, DropHandshake(t));
      done := done + [DropHandshake(t)];
    }
    longer := Extend(longer, done, Finish(t));
    assert done + [Finish(t)] == steps + Unwind(s, t);
  }

  // ---------------------------------------------------------------- the caps are reached

  /** A waiting task can take its permit exactly while fewer than 256, or 16 with other listeners' dials, are held. */
  lemma PermitsTakenExactlyBelowCaps(states: seq<State>, steps: seq<Step>, i: nat, t: nat)
    requires IsRun(states, steps) && i < |states| && t in states[i].tasks
    ensures Enabled(states[i], TakeHandshake(t))
            <==> states[i].tasks[t].pc == AwaitHandshake && |states[i].handshakes| < 256
    ensures Enabled(states[i], TakeDial(t))
            <==> states[i].tasks[t].pc == AwaitDial && |states[i].dials| + states[i].foreign < 16
  {
    InvHolds(states, steps, i);
  }

  /** Accepting, loading and swapping with nothing in between. */
  lemma AcceptSteps(s: State, t: nat)
    requires t !in s.tasks
    ensures Enabled(s, Accept(t))
    ensures var s1 := Apply(s, Accept(t));
            && Enabled(s1, Load(t))
            && var s2 := Apply(s1, Load(t));
            && s2.guards == s.guards
            && (s.active >= 512 ==> At(s2, t, Finished))
            && (s.active < 512 ==>
                  && Enabled(s2, Cas(t))
                  && var s3 := Apply(s2, Cas(t));
                  && s3.guards == s.guards + {t} && At(s3, t, AwaitHandshake))
  {
  }

  lemma AcceptKeys(s: State, t: nat)
    requires t !in s.tasks && s.active < 512
    ensures Enabled(s, Accept(t)) && Enabled(Apply(s, Accept(t)), Load(t))
    ensures var s2 := Apply(Apply(s, Accept(t)), Load(t));
            Enabled(s2, Cas(t)) && Apply(s2, Cas(t)).tasks.Keys == s.tasks.Keys + {t}
  {
  }

  /** A connection accepted below 512 guards, while nothing else moves, gets its guard. */
  lemma AcceptedBelowCap(states: seq<State>, steps: seq<Step>, t: nat) returns (longer: seq<State>)
    requires IsRun(states, steps) && t !in states[|steps|].tasks && |states[|steps|].guards| < 512
    ensures IsRun(longer, steps + [Accept(t)] + [Load(t)] + [Cas(t)])
    ensures var s, s' := states[|steps|], longer[|steps| + 3];
            s'.guards == s.guards + {t} && s'.tasks.Keys == s.tasks.Keys + {t} && At(s', t, AwaitHandshake)
  {
    InvHolds(states, steps, |steps|);
    assert states[|steps|].active < 512;
    AcceptSteps(states[|steps|], t);
    AcceptKeys(states[|steps|], t);
    hide IsRun, Inv, Apply, Enabled, At;
    longer := Extend(states, steps, Accept(t));
    longer := Extend(longer, steps + [Accept(t)], Load(t));
    longer := Extend(longer, steps + [Accept(t)] + [Load(t)], Cas(t));
  }

  /** One accepted at 512 guards is turned away. */
  lemma TurnedAwayAtCap(states: seq<State>, steps: seq<Step>, t: nat) returns (longer: seq<State>)
    requires IsRun(states, steps) && t !in states[|steps|].tasks && |states[|steps|].guards| >= 512
    ensures IsRun(longer, steps + [Accept(t)] + [Load(t)])
    ensures longer[|steps| + 2].guards == states[|steps|].guards && At(longer[|steps| + 2], t, Finished)
  {
    InvHolds(states, steps, |steps|);
    assert states[|steps|].active >= 512;
    AcceptSteps(states[|steps|], t);
    hide IsRun, Inv, Apply, Enabled, At;
    longer := Extend(states, steps, Accept(t));
    longer := Extend(longer, steps + [Accept(t)], Load(t));
  }

  /** Some run holds any number of guards up to the cap at once. */
  lemma {:induction false} EveryCountReached(n: nat) returns (states: seq<State>, steps: seq<Step>)
    requires n <= 512
    ensures IsRun(states, steps) && states[|steps|].active == |states[|steps|].guards| == n
    ensures forall t | t in states[|steps|].tasks.Keys :: t < n
  {
    if n == 0 {
      states, steps := [INIT], [];
    } else {
      states, steps := EveryCountReached(n - 1);
      states, steps := OneMore(states, steps, n - 1);
      InvHolds(states, steps, |steps|);
    }
  }

  lemma OneMore(states: seq<State>, steps: seq<Step>, t: nat) returns (states': seq<State>, steps': seq<Step>)
    requires IsRun(states, steps) && |states[|steps|].guards| == t < 512
    requires forall u | u in states[|steps|].tasks.Keys :: u < t
    ensures IsRun(states', steps') && |states'[|steps'|].guards| == t + 1
    ensures forall u | u in states'[|steps'|].tasks.Keys :: u < t + 1
  {
    InvHolds(states, steps, |steps|);
    GuardsGrow(states[|steps|], t);
    ghost var s := states[|steps|];
    hide IsRun, Inv, Owned, Apply, Enabled, At;
    states' := AcceptedBelowCap(states, steps, t);
    steps' := steps + [Accept(t)] + [Load(t)] + [Cas(t)];
    assert |steps'| == |steps| + 3;
    assert forall u | u in s.tasks.Keys + {t} :: u < t + 1;
  }

  lemma GuardsGrow(s: State, t: nat)
    requires Inv(s) && t !in s.tasks.Keys
    ensures |s.guards + {t}| == |s.guards| + 1
  {
    assert !Owner(s, t);
    Joined(s.guards, t);
  }
}
