/**
 Relay halves of one user spending its traffic quota. A half reads a chunk, adds up the two counters with one load
 each, forwards the chunk if the sum is below the quota and then records it; statistics queries may reset either
 counter at any moment.
 */
module Quota {
  import opened Bytes
  import opened Sets
  import opened UserRuntime

  const CHUNK: nat := 16384

  function Chunks(n: nat): nat {
    16384 * n
  }

  type Chunk = n: nat | 1 <= n <= CHUNK witness 1

  /** A half between the two loads of its check: the chunk it holds and the uplink count it saw. */
  datatype Check = Check(chunk: Chunk, uplink: nat)

  datatype State = State(counters: Counters, reading: map<nat, Check>, pending: map<nat, Chunk>)

  datatype Step =
    | LoadUplink(h: nat, chunk: Chunk)
    | LoadDownlink(h: nat)
    | Record(h: nat, upward: bool)
    | Drop(h: nat)
    | Reset(upward: bool)

  ghost predicate Init(quota: nat, s: State) {
    s.counters.Total() < quota && s.reading == map[] && s.pending == map[]
  }

  predicate Enabled(s: State, step: Step) {
    match step
    case LoadUplink(h, _) => h !in s.reading && h !in s.pending
    case LoadDownlink(h) => h in s.reading
    case Record(h, _) => h in s.pending
    case Drop(h) => h in s.pending                                                     // the write failed
    case Reset(_) => true
  }

  function Apply(quota: nat, s: State, step: Step): State
    requires Enabled(s, step)
  {
    match step
    case LoadUplink(h, chunk) => s.(reading := s.reading[h := Check(chunk, s.counters.uplink)])
    case LoadDownlink(h) =>
      var seen := s.counters.(uplink := s.reading[h].uplink);
      s.(reading := s.reading - {h},
      pending := if seen.Total() < quota then s.pending[h := s.reading[h].chunk] else s.pending)
    case Record(h, upward) =>
      var n := s.pending[h];
      State(if upward then s.counters.Record(n, 0) else s.counters.Record(0, n), s.reading, s.pending - {h})
    case Drop(h) => s.(pending := s.pending - {h})
    case Reset(upward) => s.(counters := s.counters.Reset(upward))
  }

  /** A half that nobody interleaves with records its chunk exactly if the total is below the quota. */
  lemma HalfAlone(quota: nat, s: State, h: nat, chunk: Chunk, upward: bool)
    requires Enabled(s, LoadUplink(h, chunk))
    ensures var s1 := Apply(quota, s, LoadUplink(h, chunk));
            && Enabled(s1, LoadDownlink(h))
            && var s2 := Apply(quota, s1, LoadDownlink(h));
            if s.counters.BelowQuota(Limits(None, Some(quota))) then
              && Enabled(s2, Record(h, upward))
              && var s3 := Apply(quota, s2, Record(h, upward));
              && s3.counters.Total() == s.counters.Total() + chunk && s3.counters.active == s.counters.active
              && s3.reading == s.reading && s3.pending == s.pending
            else s2 == s
  {
    var s1 := Apply(quota, s, LoadUplink(h, chunk));
    assert s1.reading - {h} == s.reading;
    assert s.pending[h := chunk] - {h} == s.pending;
  }

  ghost predicate Next(quota: nat, s: State, s': State) {
    exists step :: Enabled(s, step) && s' == Apply(quota, s, step)
  }

  /** A run in which never more than `k` halves are between their read and their record. */
  ghost predicate IsRun(quota: nat, k: nat, run: seq<State>) {
    && run != [] && Init(quota, run[0])
    && (forall i | 0 < i < |run| :: Next(quota, run[i - 1], run[i]))
    && (forall i | 0 <= i < |run| :: |run[i].reading| + |run[i].pending| <= k)
  }

  /** The halves in mid-check that saw an uplink count below `bound`. */
  function Below(reading: map<nat, Check>, bound: int): set<nat> {
    set h | h in reading && reading[h].uplink < bound
  }

  lemma BelowShrinks(reading: map<nat, Check>, low: int, high: int)
    requires low <= high
    ensures |Below(reading, low)| <= |Below(reading, high)| <= |reading|
  {
    Subset(Below(reading, low), Below(reading, high));
    Subset(Below(reading, high), reading.Keys);
  }

  lemma BelowAdded(reading: map<nat, Check>, h: nat, check: Check, bound: int)
    requires h !in reading
    ensures |Below(reading[h := check], bound)| == |Below(reading, bound)| + if check.uplink < bound then 1 else 0
  {
    var more := if check.uplink < bound then {h} else {};
    assert Below(reading[h := check], bound) == Below(reading, bound) + more;
    if check.uplink < bound {
      Joined(Below(reading, bound), h);
    }
  }

  lemma BelowRemoved(reading: map<nat, Check>, h: nat, bound: int)
    requires h in reading
    ensures |Below(reading - {h}, bound)| == |Below(reading, bound)| - if reading[h].uplink < bound then 1 else 0
  {
    assert Below(reading - {h}, bound) == Below(reading, bound) - {h};
    if reading[h].uplink < bound {
      Parted(Below(reading, bound), h);
    } else {
      assert Below(reading, bound) - {h} == Below(reading, bound);
    }
  }

  /**
   Traffic recorded or still to be recorded. The second clause counts the halves that pass their check if the
   downlink counter stays as it is; the first counts those that could pass after it has been reset.
   */
  ghost predicate Inv(quota: nat, k: nat, s: State) {
    && s.counters.uplink + Chunks(|s.pending| + |Below(s.reading, quota)|) <= quota - 1 + Chunks(k)
    && s.counters.Total() + Chunks(|s.pending| + |Below(s.reading, quota - s.counters.downlink)|)
       <= quota - 1 + Chunks(k)
  }

  ghost predicate Kept(quota: nat, k: nat, s: State, step: Step)
    requires Enabled(s, step)
  {
    var s' := Apply(quota, s, step);
    Inv(quota, k, s) && |s'.reading| + |s'.pending| <= k ==> Inv(quota, k, s')
  }

  lemma FewerChunks(n: nat, m: nat)
    ensures n <= m ==> Chunks(n) <= Chunks(m)
  {
  }

  lemma LoadUplinkKeeps(quota: nat, k: nat, s: State, h: nat, chunk: Chunk)
    requires Enabled(s, LoadUplink(h, chunk))
    ensures Kept(quota, k, s, LoadUplink(h, chunk))
  {
    hide Below;
    var s' := Apply(quota, s, LoadUplink(h, chunk));
    BelowShrinks(s'.reading, quota - s'.counters.downlink, quota);
    BelowAdded(s.reading, h, s'.reading[h], quota);
    BelowAdded(s.reading, h, s'.reading[h], quota - s.counters.downlink);
  }

  /** Passing a check turns a half that may pass into one that will record; there are never more of both. */
  lemma CheckCounts(quota: nat, s: State, h: nat, bound: int)
    requires Enabled(s, LoadDownlink(h)) && quota - s.counters.downlink <= bound
    ensures var s' := Apply(quota, s, LoadDownlink(h));
            |s'.pending| + |Below(s'.reading, bound)| <= |s.pending| + |Below(s.reading, bound)|
  {
    hide Below;
    BelowRemoved(s.reading, h, bound);
    Inserted(s.pending, h, s.reading[h].chunk);
  }

  lemma LoadDownlinkKeeps(quota: nat, k: nat, s: State, h: nat)
    requires Enabled(s, LoadDownlink(h))
    ensures Kept(quota, k, s, LoadDownlink(h))
  {
    hide Below, Chunks;
    var s' := Apply(quota, s, LoadDownlink(h));
    var now := quota - s.counters.downlink;
    CheckCounts(quota, s, h, quota);
    CheckCounts(quota, s, h, now);
    FewerChunks(|s'.pending| + |Below(s'.reading, quota)|, |s.pending| + |Below(s.reading, quota)|);
    FewerChunks(|s'.pending| + |Below(s'.reading, now)|, |s.pending| + |Below(s.reading, now)|);
  }

  lemma RecordKeeps(quota: nat, k: nat, s: State, step: Step)
    requires (step.Record? || step.Drop?) && Enabled(s, step)
    ensures Kept(quota, k, s, step)
  {
    hide Below;
    var s' := Apply(quota, s, step);
    Removed(s.pending, step.h);
    BelowShrinks(s.reading, quota - s'.counters.downlink, quota - s.counters.downlink);
  }

  lemma ResetKeeps(quota: nat, k: nat, s: State, upward: bool)
    requires quota >= 1
    ensures Kept(quota, k, s, Reset(upward))
  {
    hide Below;
    BelowShrinks(s.reading, quota - s.counters.downlink, quota);
  }

  lemma StepKeepsInv(quota: nat, k: nat, s: State, step: Step)
    requires quota >= 1 && Enabled(s, step)
    ensures Kept(quota, k, s, step)
  {
    hide Kept;
    match step {
      case LoadUplink(h, chunk) => LoadUplinkKeeps(quota, k, s, h, chunk);
      case LoadDownlink(h) => LoadDownlinkKeeps(quota, k, s, h);
      case Record(_, _) => RecordKeeps(quota, k, s, step);
      case Drop(_) => RecordKeeps(quota, k, s, step);
      case Reset(upward) => ResetKeeps(quota, k, s, upward);
    }
  }

  lemma {:induction false} InvHolds(quota: nat, k: nat, run: seq<State>, i: nat)
    requires IsRun(quota, k, run) && i < |run|
    ensures Inv(quota, k, run[i])
  {
    if i > 0 {
      InvHolds(quota, k, run, i - 1);
      assert Next(quota, run[i - 1], run[i]);
      var step :| Enabled(run[i - 1], step) && run[i] == Apply(quota, run[i - 1], step);
      StepKeepsInv(quota, k, run[i - 1], step);
    }
  }

  /** From below the quota, every interleaving of checks, records and resets keeps the total within the overshoot. */
  lemma TotalBounded(quota: nat, k: nat, run: seq<State>, i: nat)
    requires IsRun(quota, k, run) && i < |run|
    ensures run[i].counters.Total() <= quota - 1 + Chunks(k)
  {
    InvHolds(quota, k, run, i);
  }

  // ---------------------------------------------------------------- the overshoot is reached

  function Full(lo: nat, hi: nat): (m: map<nat, Chunk>)
    requires lo <= hi
    ensures |m| == hi - lo
    ensures forall i :: i in m <==> lo <= i < hi
    ensures forall i | i in m :: m[i] == CHUNK
    decreases hi
  {
    if lo == hi then map[] else Full(lo, hi - 1)[hi - 1 := CHUNK]
  }

  /** `done` full chunks recorded past the last byte below the quota, and `p` more checked. */
  function Shape(quota: nat, done: nat, p: nat): State
    requires quota >= 1
  {
    State(Counters(quota - 1 + Chunks(done), 0, 0), map[], Full(done, done + p))
  }

  lemma Extend(quota: nat, k: nat, run: seq<State>, s: State)
    requires IsRun(quota, k, run) && Next(quota, run[|run| - 1], s) && |s.reading| + |s.pending| <= k
    ensures IsRun(quota, k, run + [s]) && (run + [s])[|run|] == s
  {
    var longer := run + [s];
    forall i | 0 < i < |longer| ensures Next(quota, longer[i - 1], longer[i]) {
      assert i < |run| ==> longer[i] == run[i];
      assert longer[i - 1] == run[i - 1];
    }
  }

  lemma ShapeChecks(quota: nat, p: nat) returns (between: State)
    requires quota >= 1
    ensures Next(quota, Shape(quota, 0, p), between) && |between.reading| == 1 && |between.pending| == p
    ensures Next(quota, between, Shape(quota, 0, p + 1))
  {
    var s := Shape(quota, 0, p);
    between := Apply(quota, s, LoadUplink(p, CHUNK));
    assert Enabled(s, LoadUplink(p, CHUNK));
    assert between.reading == map[p := Check(CHUNK, quota - 1)];
    assert Enabled(between, LoadDownlink(p));
    var after := Apply(quota, between, LoadDownlink(p));
    assert after.pending == Full(0, p + 1);
    assert after.reading == map[];
  }

  lemma ShapeRecords(quota: nat, done: nat, p: nat)
    requires quota >= 1 && p > 0
    ensures Next(quota, Shape(quota, done, p), Shape(quota, done + 1, p - 1))
  {
    hide Full;
    var s, s' := Shape(quota, done, p), Shape(quota, done + 1, p - 1);
    assert Enabled(s, Record(done, true));
    assert Apply(quota, s, Record(done, true)).pending == s'.pending;
    assert s' == Apply(quota, s, Record(done, true));
  }

  lemma {:induction false} AllCheck(quota: nat, k: nat, p: nat) returns (run: seq<State>)
    requires quota >= 1 && p <= k
    ensures IsRun(quota, k, run) && run[|run| - 1] == Shape(quota, 0, p)
    decreases p
  {
    if p == 0 {
      run := [Shape(quota, 0, 0)];
    } else {
      hide Next, Full;
      run := AllCheck(quota, k, p - 1);
      var between := ShapeChecks(quota, p - 1);
      Extend(quota, k, run, between);
      run := run + [between];
      Extend(quota, k, run, Shape(quota, 0, p));
      run := run + [Shape(quota, 0, p)];
    }
  }

  lemma {:induction false} AllRecord(quota: nat, k: nat, run: seq<State>, done: nat, p: nat)
    returns (longer: seq<State>)
    requires quota >= 1 && IsRun(quota, k, run) && run[|run| - 1] == Shape(quota, done, p) && p <= k
    ensures IsRun(quota, k, longer) && longer[|longer| - 1] == Shape(quota, done + p, 0)
    decreases p
  {
    if p == 0 {
      longer := run;
    } else {
      hide Next, Full;
      ShapeRecords(quota, done, p);
      Extend(quota, k, run, Shape(quota, done + 1, p - 1));
      longer := AllRecord(quota, k, run + [Shape(quota, done + 1, p - 1)], done + 1, p - 1);
    }
  }

  /** No smaller bound holds: `k` halves that all check before any of them records reach it exactly. */
  lemma BoundIsReached(quota: nat, k: nat) returns (run: seq<State>)
    requires quota >= 1
    ensures IsRun(quota, k, run) && run[|run| - 1].counters.Total() == quota - 1 + Chunks(k)
  {
    run := AllCheck(quota, k, k);
    run := AllRecord(quota, k, run, 0, k);
  }
}
