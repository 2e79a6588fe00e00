/**
 Concurrent callers of `acquire_user` for one user. The check of the connection limit and the increment are
 separate atomic steps, with the quota check between them.
 */
module UserLimit {
  import opened Bytes
  import opened Sets
  import opened UserRuntime

  /** The count, the callers past the limit check and those holding a session guard; other callers are outside. */
  datatype State = State(active: int, checked: set<nat>, guards: set<nat>)

  datatype Step = Load(c: nat) | Refuse(c: nat) | Increment(c: nat) | Release(c: nat)

  const INIT := State(0, {}, {})

  predicate Enabled(s: State, step: Step) {
    match step
    case Load(c) => c !in s.checked && c !in s.guards
    case Refuse(c) => c in s.checked
    case Increment(c) => c in s.checked
    case Release(c) => c in s.guards
  }

  function Apply(max: nat, s: State, step: Step): State {
    match step
    case Load(c) =>
      if Counters(0, 0, s.active).BelowConnections(Limits(Some(max), None))
      then s.(checked := s.checked + {c}) else s
    case Refuse(c) => s.(checked := s.checked - {c})                                   // over quota
    case Increment(c) => State(s.active + 1, s.checked - {c}, s.guards + {c})
    case Release(c) => State(s.active - 1, s.checked, s.guards - {c})
  }

  ghost predicate Next(max: nat, s: State, s': State) {
    exists step :: Enabled(s, step) && s' == Apply(max, s, step)
  }

  /**
   A caller that nobody interleaves with is admitted exactly below the limit, counts itself in once, and by dropping
   its guard leaves everything as it was; a refused one changes nothing, whether the limit or the quota refuses it.
   */
  lemma CallerAlone(max: nat, s: State, c: nat)
    requires c !in s.checked && c !in s.guards
    ensures var s1 := Apply(max, s, Load(c));
            if Counters(0, 0, s.active).BelowConnections(Limits(Some(max), None)) then
              && Enabled(s1, Increment(c)) && Enabled(s1, Refuse(c)) && Apply(max, s1, Refuse(c)) == s
              && var s2 := Apply(max, s1, Increment(c));
              && s2.active == s.active + 1 <= max && s2.guards == s.guards + {c} && s2.checked == s.checked
              && Enabled(s2, Release(c)) && Apply(max, s2, Release(c)) == s
            else s1 == s
  {
    assert s.checked + {c} - {c} == s.checked;
    assert s.guards + {c} - {c} == s.guards;
  }

  /** A run in which never more than `t` callers are past the check at once. */
  ghost predicate IsRun(max: nat, t: nat, run: seq<State>) {
    && run != [] && run[0] == INIT
    && (forall i | 0 < i < |run| :: Next(max, run[i - 1], run[i]))
    && (forall i | 0 <= i < |run| :: |run[i].checked| <= t)
  }

  function Bound(max: nat, t: nat): nat {
    if max == 0 || t == 0 then 0 else max + t - 1
  }

  ghost predicate Inv(max: nat, t: nat, s: State) {
    && s.checked !! s.guards
    && s.active == |s.guards|
    && s.active + |s.checked| <= Bound(max, t)
  }

  lemma StepKeepsInv(max: nat, t: nat, s: State, step: Step)
    requires Inv(max, t, s) && Enabled(s, step) && |Apply(max, s, step).checked| <= t
    ensures Inv(max, t, Apply(max, s, step))
  {
    match step {
      case Load(c) =>
        Joined(s.checked, c);
      case Refuse(c) =>
        Parted(s.checked, c);
      case Increment(c) =>
        Parted(s.checked, c);
        Joined(s.guards, c);
        Moved(s.checked, s.guards, c);
      case Release(c) =>
        Parted(s.guards, c);
    }
  }

  /**
   In every run the count equals the guards held, so it never underflows, and with at most `t` callers past the
   check it stays within max + t - 1 (and at zero when the limit is zero).
   */
  lemma {:induction false} CountBounded(max: nat, t: nat, run: seq<State>, i: nat)
    requires IsRun(max, t, run) && i < |run|
    ensures 0 <= run[i].active == |run[i].guards| <= Bound(max, t)
    ensures Inv(max, t, run[i])
  {
    if i > 0 {
      CountBounded(max, t, run, i - 1);
      assert Next(max, run[i - 1], run[i]);
      var step :| Enabled(run[i - 1], step) && run[i] == Apply(max, run[i - 1], step);
      StepKeepsInv(max, t, run[i - 1], step);
    }
  }

  // ---------------------------------------------------------------- the bound is reached

  function Range(lo: nat, hi: nat): (r: set<nat>)
    requires lo <= hi
    ensures |r| == hi - lo
    ensures forall i :: i in r <==> lo <= i < hi
    decreases hi
  {
    if lo == hi then {} else Range(lo, hi - 1) + {hi - 1}
  }

  /** `h` guards held by the first callers and `c` more callers past the check. */
  function Shape(h: nat, c: nat): State {
    State(h, Range(h, h + c), Range(0, h))
  }

  lemma ShapeLoads(max: nat, h: nat, c: nat)
    requires h < max
    ensures Next(max, Shape(h, c), Shape(h, c + 1))
  {
    hide Range;
    assert Enabled(Shape(h, c), Load(h + c)) && Shape(h, c + 1) == Apply(max, Shape(h, c), Load(h + c));
  }

  lemma ShapeCounts(max: nat, h: nat, c: nat)
    requires c > 0
    ensures Next(max, Shape(h, c), Shape(h + 1, c - 1))
  {
    hide Range;
    var s' := Apply(max, Shape(h, c), Increment(h));
    assert s'.checked == Range(h + 1, h + c) && s'.guards == Range(0, h + 1);
    assert Enabled(Shape(h, c), Increment(h)) && Shape(h + 1, c - 1) == s';
  }

  lemma Extend(max: nat, t: nat, run: seq<State>, s: State)
    requires IsRun(max, t, run) && Next(max, run[|run| - 1], s) && |s.checked| <= t
    ensures IsRun(max, t, run + [s]) && (run + [s])[|run|] == s
  {
    var longer := run + [s];
    forall i | 0 < i < |longer| ensures Next(max, longer[i - 1], longer[i]) {
      assert i < |run| ==> longer[i] == run[i];
      assert longer[i - 1] == run[i - 1];
    }
  }

  /** From `h` guards and none pending: `c` callers pass the check, all before any of them counts itself in. */
  lemma {:induction false} Crowd(max: nat, t: nat, run: seq<State>, h: nat, c: nat) returns (longer: seq<State>)
    requires IsRun(max, t, run) && run[|run| - 1] == Shape(h, 0) && h < max && c <= t
    ensures IsRun(max, t, longer) && longer[|longer| - 1] == Shape(h, c)
    decreases c
  {
    hide Range, Next;
    if c == 0 {
      longer := run;
    } else {
      longer := Crowd(max, t, run, h, c - 1);
      ShapeLoads(max, h, c - 1);
      Extend(max, t, longer, Shape(h, c));
      longer := longer + [Shape(h, c)];
    }
  }

  lemma {:induction false} CountIn(max: nat, t: nat, run: seq<State>, h: nat, c: nat) returns (longer: seq<State>)
    requires IsRun(max, t, run) && run[|run| - 1] == Shape(h, c) && c <= t
    ensures IsRun(max, t, longer) && longer[|longer| - 1] == Shape(h + c, 0)
    decreases c
  {
    hide Range, Next;
    if c == 0 {
      longer := run;
    } else {
      ShapeCounts(max, h, c);
      Extend(max, t, run, Shape(h + 1, c - 1));
      longer := CountIn(max, t, run + [Shape(h + 1, c - 1)], h + 1, c - 1);
    }
  }

  lemma {:induction false} OneByOne(max: nat, t: nat, h: nat) returns (run: seq<State>)
    requires h <= max && t >= 1
    ensures IsRun(max, t, run) && run[|run| - 1] == Shape(h, 0)
    decreases h
  {
    hide Next;
    if h == 0 {
      run := [INIT];
      assert Shape(0, 0) == INIT;
    } else {
      run := OneByOne(max, t, h - 1);
      run := Crowd(max, t, run, h - 1, 1);
      run := CountIn(max, t, run, h - 1, 1);
    }
  }

  lemma BoundIsReached(max: nat, t: nat) returns (run: seq<State>)
    ensures IsRun(max, t, run) && run[|run| - 1].active == Bound(max, t)
  {
    if max == 0 || t == 0 {
      run := [INIT];
    } else {
      run := OneByOne(max, t, max - 1);
      run := Crowd(max, t, run, max - 1, t);
      run := CountIn(max, t, run, max - 1, t);
    }
  }

  /** The configured limit holds in every run exactly when callers never overlap past the check, or it is zero. */
  lemma LimitRespectedExactlyWithoutOverlap(max: nat, t: nat)
    ensures (forall run: seq<State>, i: nat | IsRun(max, t, run) && i < |run| :: run[i].active <= max)
            <==> t <= 1 || max == 0
  {
    if t <= 1 || max == 0 {
      forall run: seq<State>, i: nat | IsRun(max, t, run) && i < |run| ensures run[i].active <= max {
        CountBounded(max, t, run, i);
      }
    } else {
      var run := BoundIsReached(max, t);
      assert run[|run| - 1].active > max;
    }
  }
}
