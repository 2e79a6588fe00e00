/** The cascade outbound: children tried top to bottom from a sticky active index. */
module Fallback {
  import opened Bytes
  import opened Sets

  datatype Attempt<Conn> =
    | Connected(conn: Conn)
    | Unknown(error: string)                                    // no outbound has the child's tag
    | Refused(error: string)
    | TimedOut

  function Reason<Conn>(attempt: Attempt<Conn>): string
    requires !attempt.Connected?
  {
    if attempt.TimedOut? then "fallback: dial timeout" else attempt.error
  }

  function Connects<Conn>(attempts: seq<Attempt<Conn>>): (r: seq<bool>)
    ensures |r| == |attempts|
  {
    seq(|attempts|, i requires 0 <= i < |attempts| => attempts[i].Connected?)
  }

  /** The first child at or after `start` that connects. */
  function First(connects: seq<bool>, start: nat): (r: Option<nat>)
    requires start <= |connects|
    ensures r.Some? ==> start <= r.value < |connects| && connects[r.value]
    ensures forall i | start <= i < (if r.Some? then r.value else |connects|) :: !connects[i]
    decreases |connects| - start
  {
    if start == |connects| then None
    else if connects[start] then Some(start)
    else First(connects, start + 1)
  }

  lemma {:induction false} FirstUnique(connects: seq<bool>, start: nat, i: nat)
    requires start <= i <= |connects|
    requires forall j | start <= j < i :: !connects[j]
    ensures First(connects, start) == if i < |connects| && connects[i] then Some(i) else First(connects, i)
    decreases i - start
  {
    if start < i {
      FirstUnique(connects, start + 1, i);
    }
  }

  // ---------------------------------------------------------------- one dial at a time

  /** The tag at an index, or the primary one when there is none. */
  function TagAt(outbounds: seq<string>, idx: nat): string
    requires outbounds != []
  {
    if idx < |outbounds| then outbounds[idx] else outbounds[0]
  }

  class FallbackState {
    const outbounds: seq<string>
    var activeIdx: nat
    ghost var best: nat      // the largest index a dial has returned

    ghost predicate Valid() reads this {
      activeIdx == best < |outbounds|
    }

    /** A policy without children is refused when it is read. */
    constructor (outbounds: seq<string>)
      requires outbounds != []
      ensures Valid() && this.outbounds == outbounds && best == 0
    {
      this.outbounds := outbounds;
      activeIdx, best := 0, 0;
    }

    /** The child furthest down the list that a dial has returned; the default is never needed. */
    method SelectedTag() returns (tag: string)
      requires Valid()
      ensures tag == outbounds[best]
    {
      tag := TagAt(outbounds, activeIdx);
    }

    method OnFailover(successIdx: nat)
      requires Valid() && successIdx < |outbounds|
      modifies this
      ensures Valid() && best == Max(old(best), successIdx)
    {
      best := Max(best, successIdx);
      var cur := activeIdx;
      if successIdx <= cur {
        return;
      }
      activeIdx := successIdx;
    }

    method DialOrder() returns (order: seq<nat>)
      requires Valid()
      ensures |order| == |outbounds| - activeIdx
      ensures forall i | 0 <= i < |order| :: order[i] == activeIdx + i
    {
      var n := |outbounds|;
      var active := if activeIdx < n - 1 then activeIdx else n - 1;
      order := seq(n - active, i requires 0 <= i < n - active => active + i);
    }

    /** The first connecting child from the active one on, which becomes the active one; else the last error. */
    method DialWithFailover<Conn>(attempts: seq<Attempt<Conn>>) returns (r: Result<Conn>)
      requires Valid() && |attempts| == |outbounds|
      modifies this
      ensures Valid()
      ensures match First(Connects(attempts), old(activeIdx))
              case Some(i) => r == Ok(attempts[i].conn) && activeIdx == i
              case None =>
                && !attempts[|attempts| - 1].Connected?
                && r == Err(Reason(attempts[|attempts| - 1])) && activeIdx == old(activeIdx)
    {
      var order := DialOrder();
      var lastErr: Option<string> := None;
      var activeBefore := activeIdx;
      var k := 0;
      while k < |order|
        invariant 0 <= k <= |order| && activeIdx == old(activeIdx) == activeBefore
        invariant forall j | 0 <= j < k :: !attempts[order[j]].Connected?
        invariant forall j | activeIdx <= j < activeIdx + k :: !Connects(attempts)[j]
        invariant k > 0 ==> lastErr == Some(Reason(attempts[order[k - 1]]))
      {
        var idx := order[k];
        if attempts[idx].Connected? {
          FirstUnique(Connects(attempts), activeIdx, idx);
          if idx > activeBefore {
            OnFailover(idx);
          }
          return Ok(attempts[idx].conn);
        }
        lastErr := Some(Reason(attempts[idx]));
        k := k + 1;
      }
      FirstUnique(Connects(attempts), activeIdx, |attempts|);
      return Err(lastErr.value);
    }
  }

  // ---------------------------------------------------------------- overlapping dials

  datatype Dial =
    | Ordered(start: nat)                                       // has its order, not yet the index to compare with
    | Trying(start: nat, before: nat, idx: nat)
    | Storing(start: nat, idx: nat)                             // inside `on_failover`, past its load

  datatype Outcome = Outcome(start: nat, child: Option<nat>)

  /** `best` is the largest index any dial has returned; dial identifiers are never reused. */
  datatype State = State(active: nat, best: nat, dials: map<nat, Dial>, results: map<nat, Outcome>)

  datatype Step = Begin(d: nat) | LoadBefore(d: nat) | Attempt(d: nat) | Store(d: nat)

  const INIT := State(0, 0, map[], map[])

  /** Which children connect, for each dial: any failure pattern whatever. */
  type Pattern = nat -> seq<bool>

  ghost predicate Wide(n: nat, ok: Pattern) {
    forall d :: |ok(d)| == n
  }

  predicate Enabled(n: nat, ok: Pattern, s: State, step: Step) {
    match step
    case Begin(d) => n > 0 && d !in s.dials && d !in s.results
    case LoadBefore(d) => d in s.dials && s.dials[d].Ordered?
    case Attempt(d) => d in s.dials && s.dials[d].Trying? && s.dials[d].idx < |ok(d)|
    case Store(d) => d in s.dials && s.dials[d].Storing?
  }

  function Max(a: nat, b: nat): nat {
    if a < b then b else a
  }

  function Finish(s: State, d: nat, outcome: Outcome): State {
    State(s.active, if outcome.child.Some? then Max(s.best, outcome.child.value) else s.best,
          s.dials - {d}, s.results[d := outcome])
  }

  function AfterAttempt(n: nat, ok: Pattern, s: State, d: nat, start: nat, before: nat, idx: nat): State
    requires idx < |ok(d)|
  {
    if !ok(d)[idx] then
      if idx + 1 < n then s.(dials := s.dials[d := Trying(start, before, idx + 1)])
      else Finish(s, d, Outcome(start, None))
    else if idx > before && idx > s.active then s.(dials := s.dials[d := Storing(start, idx)])
    else Finish(s, d, Outcome(start, Some(idx)))
  }

  function Apply(n: nat, ok: Pattern, s: State, step: Step): State
    requires Enabled(n, ok, s, step)
  {
    match step
    case Begin(d) => s.(dials := s.dials[d := Ordered(if s.active < n then s.active else n - 1)])
    case LoadBefore(d) =>
      var start := s.dials[d].start;
      s.(dials := s.dials[d := Trying(start, s.active, start)])
    case Attempt(d) => AfterAttempt(n, ok, s, d, s.dials[d].start, s.dials[d].before, s.dials[d].idx)
    case Store(d) =>
      Finish(s.(active := s.dials[d].idx), d, Outcome(s.dials[d].start, Some(s.dials[d].idx)))
  }

  ghost predicate IsRun(n: nat, ok: Pattern, states: seq<State>, steps: seq<Step>) {
    && |states| == |steps| + 1 && states[0] == INIT
    && (forall i | 0 <= i < |steps| ::
          Enabled(n, ok, states[i], steps[i]) && states[i + 1] == Apply(n, ok, states[i], steps[i]))
  }

  // What every interleaving keeps.

  ghost predicate DialInv(n: nat, connects: seq<bool>, dial: Dial)
    requires |connects| == n
  {
    && dial.start < n
    && (!dial.Ordered? ==> dial.start <= dial.idx < n && forall j | dial.start <= j < dial.idx :: !connects[j])
    && (dial.Storing? ==> connects[dial.idx])
  }

  ghost predicate OutcomeInv(n: nat, connects: seq<bool>, outcome: Outcome)
    requires |connects| == n
  {
    outcome.start < n && outcome.child == First(connects, outcome.start)
  }

  ghost predicate Inv(n: nat, ok: Pattern, s: State)
    requires Wide(n, ok)
  {
    && (s.active < n || s.active == 0)
    && (forall d | d in s.dials :: DialInv(n, ok(d), s.dials[d]))
    && (forall d | d in s.results :: OutcomeInv(n, ok(d), s.results[d]))
  }

  lemma AttemptKeepsInv(n: nat, ok: Pattern, s: State, d: nat)
    requires Wide(n, ok) && Inv(n, ok, s) && Enabled(n, ok, s, Attempt(d))
    ensures Inv(n, ok, Apply(n, ok, s, Attempt(d)))
  {
    var dial := s.dials[d];
    FirstUnique(ok(d), dial.start, dial.idx);
    if !ok(d)[dial.idx] {
      FirstUnique(ok(d), dial.start, dial.idx + 1);
    }
  }

  lemma StepKeepsInv(n: nat, ok: Pattern, s: State, step: Step)
    requires Wide(n, ok) && Inv(n, ok, s) && Enabled(n, ok, s, step)
    ensures Inv(n, ok, Apply(n, ok, s, step))
  {
    if step.Attempt? {
      AttemptKeepsInv(n, ok, s, step.d);
    } else if step.Store? {
      FirstUnique(ok(step.d), s.dials[step.d].start, s.dials[step.d].idx);
    }
  }

  lemma {:induction false} InvHolds(n: nat, ok: Pattern, states: seq<State>, steps: seq<Step>, i: nat)
    requires Wide(n, ok) && IsRun(n, ok, states, steps) && i < |states|
    ensures Inv(n, ok, states[i])
  {
    if i > 0 {
      InvHolds(n, ok, states, steps, i - 1);
      StepKeepsInv(n, ok, states[i - 1], steps[i - 1]);
    }
  }

  /**
   However dials overlap, the active index stays in range, and a finished dial returned the first child from its
   starting index on that connects for it; it failed exactly when none of them does.
   */
  lemma EveryDialTakesFirst(n: nat, ok: Pattern, states: seq<State>, steps: seq<Step>, i: nat, d: nat)
    requires n > 0 && Wide(n, ok) && IsRun(n, ok, states, steps) && i < |states|
    ensures states[i].active < n
    ensures d in states[i].results ==>
              var Outcome(start, child) := states[i].results[d];
              && start < n
              && (child.None? <==> forall j | start <= j < n :: !ok(d)[j])
              && (child.Some? ==> start <= child.value < n && ok(d)[child.value]
                                  && forall j | start <= j < child.value :: !ok(d)[j])
  {
    InvHolds(n, ok, states, steps, i);
  }

  // Stickiness, which a store racing with another one can break.

  /** A store whose load has been overtaken by a larger index. */
  predicate Stale(n: nat, ok: Pattern, s: State, step: Step)
    requires Enabled(n, ok, s, step)
  {
    step.Store? && s.dials[step.d].idx < s.active
  }

  ghost predicate NoStale(n: nat, ok: Pattern, states: seq<State>, steps: seq<Step>, i: nat)
    requires IsRun(n, ok, states, steps) && i < |states|
  {
    forall j | 0 <= j < i :: !Stale(n, ok, states[j], steps[j])
  }

  ghost predicate Sticky(s: State) {
    && s.active == s.best
    && (forall d | d in s.dials && s.dials[d].Trying? :: s.dials[d].before <= s.active)
  }

  lemma StepKeepsSticky(n: nat, ok: Pattern, s: State, step: Step)
    requires Enabled(n, ok, s, step) && Sticky(s)
    ensures var s' := Apply(n, ok, s, step);
            if Stale(n, ok, s, step) then s'.active < s'.best else Sticky(s') && s.active <= s'.active
  {
  }

  lemma {:induction false} StickyHolds(n: nat, ok: Pattern, states: seq<State>, steps: seq<Step>, i: nat)
    requires IsRun(n, ok, states, steps) && i < |states| && NoStale(n, ok, states, steps, i)
    ensures Sticky(states[i])
  {
    if i > 0 {
      StickyHolds(n, ok, states, steps, i - 1);
      StepKeepsSticky(n, ok, states[i - 1], steps[i - 1]);
    }
  }

  /** The dials between the load and the store of `on_failover`. */
  function Storers(s: State): set<nat> {
    set d | d in s.dials && s.dials[d].Storing?
  }

  /** At no time are more than `t` dials inside `on_failover`. */
  ghost predicate Overlap(t: nat, states: seq<State>) {
    forall i | 0 <= i < |states| :: |Storers(states[i])| <= t
  }

  ghost predicate Ahead(s: State) {
    forall d | d in s.dials && s.dials[d].Storing? :: s.active < s.dials[d].idx
  }

  lemma StepKeepsAhead(n: nat, ok: Pattern, s: State, step: Step)
    requires Enabled(n, ok, s, step) && Ahead(s)
    requires step.Store? ==> forall d | d in s.dials && s.dials[d].Storing? :: d == step.d
    ensures Ahead(Apply(n, ok, s, step))
  {
  }

  lemma OneStorer(s: State, c: nat, d: nat)
    requires |Storers(s)| <= 1 && c in Storers(s) && d in Storers(s)
    ensures c == d
  {
    Subset({c, d}, Storers(s));
  }

  lemma {:induction false} StorersAhead(n: nat, ok: Pattern, states: seq<State>, steps: seq<Step>, i: nat)
    requires IsRun(n, ok, states, steps) && i < |states| && Overlap(1, states)
    ensures Ahead(states[i])
  {
    if i > 0 {
      StorersAhead(n, ok, states, steps, i - 1);
      var s, step := states[i - 1], steps[i - 1];
      if step.Store? {
        forall d | d in s.dials && s.dials[d].Storing? ensures d == step.d {
          OneStorer(s, d, step.d);
        }
      }
      StepKeepsAhead(n, ok, s, step);
    }
  }

  /** A dial only stores an index above the one it started from. */
  ghost predicate StoresMove(s: State) {
    forall d | d in s.dials && s.dials[d].Storing? :: s.dials[d].idx >= 1
  }

  lemma StepKeepsStoresMove(n: nat, ok: Pattern, s: State, step: Step)
    requires Enabled(n, ok, s, step) && StoresMove(s)
    ensures StoresMove(Apply(n, ok, s, step))
  {
  }

  lemma {:induction false} StoresMoveHolds(n: nat, ok: Pattern, states: seq<State>, steps: seq<Step>, i: nat)
    requires IsRun(n, ok, states, steps) && i < |states|
    ensures StoresMove(states[i])
  {
    if i > 0 {
      StoresMoveHolds(n, ok, states, steps, i - 1);
      StepKeepsStoresMove(n, ok, states[i - 1], steps[i - 1]);
    }
  }

  /** With one dial at a time inside `on_failover`, or with no more than two children, no store is overtaken. */
  lemma NothingOvertaken(n: nat, t: nat, ok: Pattern, states: seq<State>, steps: seq<Step>)
    requires Wide(n, ok) && IsRun(n, ok, states, steps) && Overlap(t, states) && (t <= 1 || n <= 2)
    ensures NoStale(n, ok, states, steps, |steps|)
  {
    forall j | 0 <= j < |steps| ensures !Stale(n, ok, states[j], steps[j]) {
      if t <= 1 {
        StorersAhead(n, ok, states, steps, j);
      } else {
        InvHolds(n, ok, states, steps, j);
        StoresMoveHolds(n, ok, states, steps, j);
      }
    }
  }

  /** If dial `d` began after state `s`, it starts no higher up the list than the active index was then. */
  ghost predicate StartsAfter(s: State, later: State, d: nat) {
    d !in s.dials && d !in s.results ==>
      && (d in later.dials ==> s.active <= later.dials[d].start)
      && (d in later.results ==> s.active <= later.results[d].start)
  }

  ghost predicate StartsBelow(s: State, later: State) {
    s.active <= later.active && forall d :: StartsAfter(s, later, d)
  }

  lemma StepKeepsStartsAfter(n: nat, ok: Pattern, s: State, later: State, step: Step, d: nat)
    requires Wide(n, ok) && Inv(n, ok, later) && Enabled(n, ok, later, step)
    requires StartsAfter(s, later, d) && s.active <= later.active
    ensures StartsAfter(s, Apply(n, ok, later, step), d)
  {
  }

  lemma StepKeepsStartsBelow(n: nat, ok: Pattern, s: State, later: State, step: Step)
    requires Wide(n, ok) && Inv(n, ok, later) && Enabled(n, ok, later, step)
    requires StartsBelow(s, later) && later.active <= Apply(n, ok, later, step).active
    ensures StartsBelow(s, Apply(n, ok, later, step))
  {
    hide StartsAfter, Inv;
    forall d: nat ensures StartsAfter(s, Apply(n, ok, later, step), d) {
      StepKeepsStartsAfter(n, ok, s, later, step, d);
    }
  }

  lemma {:induction false} LaterDialsStartBelow(
    n: nat, ok: Pattern, states: seq<State>, steps: seq<Step>, i: nat, k: nat
  )
    requires Wide(n, ok) && IsRun(n, ok, states, steps) && i <= k < |states| && NoStale(n, ok, states, steps, k)
    ensures StartsBelow(states[i], states[k])
    decreases k
  {
    if i == k {
    } else {
      hide StartsBelow, Inv, Sticky, Apply;
      LaterDialsStartBelow(n, ok, states, steps, i, k - 1);
      StickyHolds(n, ok, states, steps, k - 1);
      StepKeepsSticky(n, ok, states[k - 1], steps[k - 1]);
      InvHolds(n, ok, states, steps, k - 1);
      StepKeepsStartsBelow(n, ok, states[i], states[k - 1], steps[k - 1]);
    }
  }

  ghost predicate Covers(s: State) {
    forall d | d in s.results && s.results[d].child.Some? :: s.results[d].child.value <= s.best
  }

  lemma StepKeepsCovers(n: nat, ok: Pattern, s: State, step: Step)
    requires Enabled(n, ok, s, step) && Covers(s)
    ensures Covers(Apply(n, ok, s, step))
  {
  }

  lemma {:induction false} BestCovers(n: nat, ok: Pattern, states: seq<State>, steps: seq<Step>, i: nat)
    requires IsRun(n, ok, states, steps) && i < |states|
    ensures Covers(states[i])
  {
    if i > 0 {
      BestCovers(n, ok, states, steps, i - 1);
      StepKeepsCovers(n, ok, states[i - 1], steps[i - 1]);
    }
  }

  /** Child `c` returned in state `s`, and what dial `d`, begun after that, returned in state `later`. */
  ghost predicate FailedBack(s: State, later: State, c: nat, d: nat) {
    && c in s.results && s.results[c].child.Some?
    && d !in s.dials && d !in s.results
    && d in later.results && later.results[d].child.Some?
    && later.results[d].child.value < s.results[c].child.value
  }

  lemma NoFailback(n: nat, ok: Pattern, states: seq<State>, steps: seq<Step>, i: nat, k: nat, c: nat, d: nat)
    requires Wide(n, ok) && IsRun(n, ok, states, steps) && i <= k < |states| && NoStale(n, ok, states, steps, k)
    ensures !FailedBack(states[i], states[k], c, d)
  {
    BestCovers(n, ok, states, steps, i);
    StickyHolds(n, ok, states, steps, i);
    LaterDialsStartBelow(n, ok, states, steps, i, k);
    assert StartsAfter(states[i], states[k], d);
    InvHolds(n, ok, states, steps, k);
  }

  /**
   What the cascade promises over a run: the active index is the largest one ever returned and never decreases, and
   no dial returns a child above one that had been returned before it began.
   */
  ghost predicate NeverFailsBack(states: seq<State>) {
    && (forall i | 0 <= i < |states| :: states[i].active == states[i].best)
    && (forall i, k | 0 <= i <= k < |states| :: states[i].active <= states[k].active)
    && (forall i, k, c, d | 0 <= i <= k < |states| :: !FailedBack(states[i], states[k], c, d))
  }

  lemma Sticks(n: nat, t: nat, ok: Pattern, states: seq<State>, steps: seq<Step>)
    requires Wide(n, ok) && IsRun(n, ok, states, steps) && Overlap(t, states) && (t <= 1 || n <= 2)
    ensures NeverFailsBack(states)
  {
    NothingOvertaken(n, t, ok, states, steps);
    forall i | 0 <= i < |states| ensures states[i].active == states[i].best {
      StickyHolds(n, ok, states, steps, i);
    }
    forall i, k | 0 <= i <= k < |states| ensures states[i].active <= states[k].active {
      LaterDialsStartBelow(n, ok, states, steps, i, k);
    }
    forall i, k, c, d | 0 <= i <= k < |states| ensures !FailedBack(states[i], states[k], c, d) {
      NoFailback(n, ok, states, steps, i, k, c, d);
    }
  }

  /** In every interleaving the selected tag is that of the active child: the default is never needed. */
  lemma SelectedTagIsActive(
    outbounds: seq<string>, ok: Pattern, states: seq<State>, steps: seq<Step>, i: nat, t: nat
  )
    requires outbounds != [] && Wide(|outbounds|, ok) && IsRun(|outbounds|, ok, states, steps) && i < |states|
    ensures states[i].active < |outbounds|
    ensures TagAt(outbounds, states[i].active) == outbounds[states[i].active]
    ensures Overlap(t, states) && (t <= 1 || |outbounds| <= 2) ==>
              states[i].best < |outbounds| && TagAt(outbounds, states[i].active) == outbounds[states[i].best]
  {
    InvHolds(|outbounds|, ok, states, steps, i);
    if Overlap(t, states) && (t <= 1 || |outbounds| <= 2) {
      Sticks(|outbounds|, t, ok, states, steps);
    }
  }

  // Three children and two overlapping dials are enough to break it.

  ghost predicate Reaches(n: nat, t: nat, ok: Pattern, s: State) {
    exists states: seq<State>, steps: seq<Step> ::
      IsRun(n, ok, states, steps) && Overlap(t, states) && states[|steps|] == s
  }

  lemma Extend(n: nat, t: nat, ok: Pattern, states: seq<State>, steps: seq<Step>, step: Step)
    requires IsRun(n, ok, states, steps) && Overlap(t, states) && Enabled(n, ok, states[|steps|], step)
    requires |Storers(Apply(n, ok, states[|steps|], step))| <= t
    ensures var longer := states + [Apply(n, ok, states[|steps|], step)];
            IsRun(n, ok, longer, steps + [step]) && Overlap(t, longer)
  {
    var longer, steps' := states + [Apply(n, ok, states[|steps|], step)], steps + [step];
    forall i | 0 <= i < |steps'|
      ensures Enabled(n, ok, longer[i], steps'[i]) && longer[i + 1] == Apply(n, ok, longer[i], steps'[i])
    {
      assert longer[i] == states[i];
      assert i < |steps| ==> longer[i + 1] == states[i + 1] && steps'[i] == steps[i];
    }
  }

  /** The first dial connects to the second child only, any other dial to the third. */
  function Racing(n: nat): Pattern {
    d => seq(n, i => if d == 0 then i == 1 else i == 2)
  }

  /** One step of a race of two dials with the first two numbers. */
  lemma RaceOn(n: nat, s: State, step: Step, s': State)
    requires n >= 3 && Reaches(n, 2, Racing(n), s) && Enabled(n, Racing(n), s, step)
    requires s' == Apply(n, Racing(n), s, step) && s'.dials.Keys <= {0, 1}
    ensures Reaches(n, 2, Racing(n), s')
  {
    Subset(Storers(s'), {0, 1});
    var states: seq<State>, steps: seq<Step> :|
      IsRun(n, Racing(n), states, steps) && Overlap(2, states) && states[|steps|] == s;
    Extend(n, 2, Racing(n), states, steps, step);
    assert (states + [s'])[|steps + [step]|] == s';
  }

  function Pair(a: Dial, b: Dial): State {
    State(0, 0, map[0 := a, 1 := b], map[])
  }

  lemma BothTrying(n: nat)
    requires n >= 3
    ensures Reaches(n, 2, Racing(n), Pair(Trying(0, 0, 0), Trying(0, 0, 0)))
  {
    assert Storers(INIT) == {};
    assert IsRun(n, Racing(n), [INIT], []) && Overlap(2, [INIT]) && [INIT][0] == INIT;
    assert Reaches(n, 2, Racing(n), INIT);
    hide Reaches;
    var s1 := INIT.(dials := map[0 := Ordered(0)]);
    RaceOn(n, INIT, Begin(0), s1);
    RaceOn(n, s1, Begin(1), Pair(Ordered(0), Ordered(0)));
    RaceOn(n, Pair(Ordered(0), Ordered(0)), LoadBefore(0), Pair(Trying(0, 0, 0), Ordered(0)));
    RaceOn(n, Pair(Trying(0, 0, 0), Ordered(0)), LoadBefore(1), Pair(Trying(0, 0, 0), Trying(0, 0, 0)));
  }

  lemma FirstStoring(n: nat)
    requires n >= 3
    ensures Reaches(n, 2, Racing(n), Pair(Storing(0, 1), Trying(0, 0, 0)))
  {
    hide Reaches;
    BothTrying(n);
    var other := Trying(0, 0, 0);
    RaceOn(n, Pair(Trying(0, 0, 0), other), Attempt(0), Pair(Trying(0, 0, 1), other));
    RaceOn(n, Pair(Trying(0, 0, 1), other), Attempt(0), Pair(Storing(0, 1), other));
  }

  lemma BothStoring(n: nat)
    requires n >= 3
    ensures Reaches(n, 2, Racing(n), Pair(Storing(0, 1), Storing(0, 2)))
  {
    hide Reaches;
    FirstStoring(n);
    var other := Storing(0, 1);
    RaceOn(n, Pair(other, Trying(0, 0, 0)), Attempt(1), Pair(other, Trying(0, 0, 1)));
    RaceOn(n, Pair(other, Trying(0, 0, 1)), Attempt(1), Pair(other, Trying(0, 0, 2)));
    RaceOn(n, Pair(other, Trying(0, 0, 2)), Attempt(1), Pair(other, Storing(0, 2)));
  }

  /** Two dials inside `on_failover` at once: the cascade moves back from the third child to the second. */
  lemma RacingStoresFailBack(n: nat) returns (states: seq<State>, steps: seq<Step>)
    requires n >= 3
    ensures Wide(n, Racing(n)) && IsRun(n, Racing(n), states, steps) && Overlap(2, states)
    ensures |states| >= 2 && states[|states| - 2].active == 2 && states[|states| - 1].active == 1
    ensures !NeverFailsBack(states)
  {
    BothStoring(n);
    var s := State(2, 2, map[0 := Storing(0, 1)], map[1 := Outcome(0, Some(2))]);
    RaceOn(n, Pair(Storing(0, 1), Storing(0, 2)), Store(1), s);
    states, steps :| IsRun(n, Racing(n), states, steps) && Overlap(2, states) && states[|steps|] == s;
    var s' := Apply(n, Racing(n), s, Store(0));
    Subset(Storers(s'), {0, 1});
    Extend(n, 2, Racing(n), states, steps, Store(0));
    states, steps := states + [s'], steps + [Store(0)];
    assert states[|states| - 2].active > states[|states| - 1].active;
  }

  /**
   The cascade keeps its promise in every run, whatever the failure pattern, exactly when dials are inside
   `on_failover` one at a time or there are at most two children.
   */
  lemma NeverFailsBackExactly(n: nat, t: nat)
    ensures (forall ok: Pattern, states: seq<State>, steps: seq<Step>
               | Wide(n, ok) && IsRun(n, ok, states, steps) && Overlap(t, states) :: NeverFailsBack(states))
            <==> t <= 1 || n <= 2
  {
    if t <= 1 || n <= 2 {
      forall ok: Pattern, states: seq<State>, steps: seq<Step>
        | Wide(n, ok) && IsRun(n, ok, states, steps) && Overlap(t, states)
        ensures NeverFailsBack(states)
      {
        Sticks(n, t, ok, states, steps);
      }
    } else {
      var states, steps := RacingStoresFailBack(n);
      assert Overlap(t, states);
    }
  }
}
