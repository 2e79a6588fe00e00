/** The token bucket that caps a user's bandwidth. Clock readings and tokens are real numbers. */
module RateLimit {

  datatype Bucket = Bucket(last: real, tokens: real)

  datatype Call = Call(now: real, nbytes: nat)

  /** What flows in over a stretch of time. */
  function Flow(rate: nat, t: real): real {
    t * rate as real
  }

  lemma FlowLaws(rate: nat, s: real, t: real)
    ensures Flow(rate, s) + Flow(rate, t) == Flow(rate, s + t)
    ensures s <= t ==> Flow(rate, s) <= Flow(rate, t)
    ensures Flow(rate, 0.0) == 0.0 && (0.0 <= t ==> 0.0 <= Flow(rate, t))
  {
  }

  /** Tokens grow at the rate since the last reading, up to twice the rate. */
  function Refill(rate: nat, b: Bucket, now: real): Bucket {
    var grown := b.tokens + Flow(rate, now - b.last);
    Bucket(now, if grown > 2.0 * rate as real then 2.0 * rate as real else grown)
  }

  predicate Admits(rate: nat, b: Bucket, c: Call) {
    rate == 0 || c.nbytes == 0 || Refill(rate, b, c.now).tokens >= c.nbytes as real
  }

  function After(rate: nat, b: Bucket, c: Call): Bucket {
    if rate == 0 || c.nbytes == 0 then b
    else
      var r := Refill(rate, b, c.now);
      if r.tokens >= c.nbytes as real then Bucket(c.now, r.tokens - c.nbytes as real) else Bucket(c.now, 0.0)
  }

  class RateLimiter {
    const bytesPerSec: nat
    var last: real
    var tokens: real

    constructor (bytesPerSec: nat, now: real)
      ensures this.bytesPerSec == bytesPerSec && State() == Bucket(now, bytesPerSec as real)
    {
      this.bytesPerSec, last, tokens := bytesPerSec, now, bytesPerSec as real;
    }

    function State(): Bucket reads this {
      Bucket(last, tokens)
    }

    /** How long to wait before `nbytes` may go; zero when they were admitted. */
    method AcquireWait(nbytes: nat, now: real) returns (wait: real)
      modifies this
      ensures State() == After(bytesPerSec, old(State()), Call(now, nbytes))
      ensures wait == 0.0 <==> Admits(bytesPerSec, old(State()), Call(now, nbytes))
      ensures wait >= 0.0
      ensures bytesPerSec > 0 && nbytes > 0 ==>
                var rate, n := bytesPerSec as real, nbytes as real;
                var grown := old(tokens) + (now - old(last)) * rate;
                var held := if grown > 2.0 * rate then 2.0 * rate else grown;
                && last == now
                && (n <= held ==> wait == 0.0 && tokens == held - n)
                && (n > held ==> tokens == 0.0 && wait * rate == n - held)
      ensures bytesPerSec == 0 || nbytes == 0 ==> wait == 0.0 && tokens == old(tokens) && last == old(last)
    {
      if bytesPerSec == 0 || nbytes == 0 {
        return 0.0;
      }
      var elapsed := now - last;
      tokens := tokens + elapsed * bytesPerSec as real;
      var cap := bytesPerSec as real * 2.0;
      if tokens > cap {
        tokens := cap;
      }
      last := now;
      if tokens >= nbytes as real {
        tokens := tokens - nbytes as real;
        wait := 0.0;
      } else {
        var deficit := nbytes as real - tokens;
        tokens := 0.0;
        wait := deficit / bytesPerSec as real;
      }
    }
  }

  /** After an idle time that lets enough flow in, a call for no more than two seconds' worth goes at once. */
  lemma IdleAdmits(rate: nat, b: Bucket, c: Call)
    requires c.nbytes as real <= 2.0 * rate as real
    requires c.nbytes as real <= b.tokens + (c.now - b.last) * rate as real
    ensures Admits(rate, b, c)
  {
  }

  /** More than two seconds' worth never goes, however long one waits. */
  lemma TooMuchIsNeverAdmitted(rate: nat, b: Bucket, c: Call)
    requires rate > 0 && c.nbytes as real > 2.0 * rate as real
    ensures !Admits(rate, b, c) && After(rate, b, c) == Bucket(c.now, 0.0)
  {
  }

  // ---------------------------------------------------------------- runs

  function AfterAll(rate: nat, b: Bucket, calls: seq<Call>): Bucket
    decreases |calls|
  {
    if calls == [] then b else AfterAll(rate, After(rate, b, calls[0]), calls[1..])
  }

  /** Bytes admitted over a run of calls. */
  function Admitted(rate: nat, b: Bucket, calls: seq<Call>): nat
    decreases |calls|
  {
    if calls == [] then 0
    else
      (if Admits(rate, b, calls[0]) then calls[0].nbytes else 0)
      + Admitted(rate, After(rate, b, calls[0]), calls[1..])
  }

  /** Clock readings from `from` on never go back and stay within `to`. */
  ghost predicate Timed(from: real, calls: seq<Call>, to: real)
    decreases |calls|
  {
    && from <= to
    && (calls != [] ==> from <= calls[0].now && Timed(calls[0].now, calls[1..], to))
  }

  ghost predicate Within(rate: nat, b: Bucket) {
    0.0 <= b.tokens <= 2.0 * rate as real
  }

  lemma StepBound(rate: nat, b: Bucket, c: Call)
    requires rate > 0 && Within(rate, b) && b.last <= c.now
    ensures var b' := After(rate, b, c);
            var admitted := if Admits(rate, b, c) then c.nbytes else 0;
            && Within(rate, b') && b.last <= b'.last <= c.now
            && admitted as real + b'.tokens <= b.tokens + Flow(rate, b'.last - b.last)
  {
    hide Flow;
    FlowLaws(rate, 0.0, c.now - b.last);
  }

  /** What was admitted plus what is left never exceeds what was there plus what has flowed in. */
  lemma {:induction false} RunBound(rate: nat, b: Bucket, calls: seq<Call>, to: real)
    requires rate > 0 && Within(rate, b) && Timed(b.last, calls, to)
    ensures var b' := AfterAll(rate, b, calls);
            && Within(rate, b') && b.last <= b'.last <= to
            && Admitted(rate, b, calls) as real + b'.tokens <= b.tokens + Flow(rate, b'.last - b.last)
    decreases |calls|
  {
    hide Flow, After, Admits, Within;
    FlowLaws(rate, 0.0, 0.0);
    if calls != [] {
      StepBound(rate, b, calls[0]);
      var mid := After(rate, b, calls[0]);
      TimedEarlier(mid.last, calls[0].now, calls[1..], to);
      RunBound(rate, mid, calls[1..], to);
      var end := AfterAll(rate, mid, calls[1..]);
      FlowLaws(rate, mid.last - b.last, end.last - mid.last);
    }
  }

  lemma TimedEarlier(a: real, b: real, calls: seq<Call>, to: real)
    requires a <= b && Timed(b, calls, to)
    ensures Timed(a, calls, to)
  {
  }

  /** A bucket that has been idle until `t` is as good as one refilled at `t`. */
  lemma RefillTwice(rate: nat, b: Bucket, t: real, now: real)
    requires b.last <= t <= now
    ensures Refill(rate, Refill(rate, b, t), now) == Refill(rate, b, now)
  {
    hide Flow;
    FlowLaws(rate, t - b.last, now - t);
  }

  lemma {:induction false} IdleIsRefill(rate: nat, b: Bucket, t: real, calls: seq<Call>, to: real)
    requires rate > 0 && b.last <= t && Timed(t, calls, to)
    ensures Admitted(rate, Refill(rate, b, t), calls) == Admitted(rate, b, calls)
    decreases |calls|
  {
    hide Refill;
    if calls != [] {
      RefillTwice(rate, b, t, calls[0].now);
      if calls[0].nbytes == 0 {
        TimedEarlier(t, calls[0].now, calls[1..], to);
        IdleIsRefill(rate, b, t, calls[1..], to);
      }
    }
  }

  // ---------------------------------------------------------------- the bounds

  /** Tokens stay between 0 and twice the rate, whatever is asked and whenever. */
  lemma TokensBounded(rate: nat, start: real, calls: seq<Call>, to: real)
    requires rate > 0 && Timed(start, calls, to)
    ensures 0.0 <= AfterAll(rate, Bucket(start, rate as real), calls).tokens <= 2.0 * rate as real
  {
    RunBound(rate, Bucket(start, rate as real), calls, to);
  }

  /** From creation, at most the rate plus the rate times the elapsed time is admitted. */
  lemma AdmittedSinceCreation(rate: nat, start: real, calls: seq<Call>, to: real)
    requires rate > 0 && Timed(start, calls, to)
    ensures Admitted(rate, Bucket(start, rate as real), calls) as real <= rate as real + Flow(rate, to - start)
  {
    hide Flow, Admitted, AfterAll, Timed;
    var b := Bucket(start, rate as real);
    RunBound(rate, b, calls, to);
    FlowLaws(rate, AfterAll(rate, b, calls).last - start, to - start);
  }

  /** In any later window, at most twice the rate plus the rate times the window's length. */
  lemma AdmittedInWindow(rate: nat, start: real, before: seq<Call>, from: real, window: seq<Call>, to: real)
    requires rate > 0 && Timed(start, before, from) && Timed(from, window, to)
    ensures Admitted(rate, AfterAll(rate, Bucket(start, rate as real), before), window) as real
         <= 2.0 * rate as real + Flow(rate, to - from)
  {
    hide Flow, Admitted, AfterAll, Timed;
    RunBound(rate, Bucket(start, rate as real), before, from);
    var b := AfterAll(rate, Bucket(start, rate as real), before);
    FlowLaws(rate, 0.0, from - b.last);
    var r := Refill(rate, b, from);
    IdleIsRefill(rate, b, from, window, to);
    RunBound(rate, r, window, to);
    FlowLaws(rate, AfterAll(rate, r, window).last - from, to - from);
  }
}
