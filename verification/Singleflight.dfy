/**
 Concurrent DNS lookups: a positive cache with a five-minute lifetime, and one gate per host so that callers missing
 the cache share a resolve. Every access to a shared map is one step; callers interleave freely between them.
 */
module Singleflight {
  import opened Bytes

  // ---------------------------------------------------------------- the cache

  const TTL := 300.0

  datatype Entry = Entry(addrs: seq<Ip>, at: real)

  type Cache = map<string, Entry>

  predicate Fresh(cache: Cache, key: string, now: real) {
    key in cache && now - cache[key].at < TTL && cache[key].addrs != []
  }

  function AsciiLower(c: char): char {
    if 'A' <= c <= 'Z' then c - 'A' + 'a' else c
  }

  function Key(host: string): string {
    seq(|host|, i requires 0 <= i < |host| => AsciiLower(host[i]))
  }

  /** The same letter up to ASCII case. */
  predicate SameLetter(x: char, y: char) {
    || x == y
    || ('A' <= x <= 'Z' && y as int == x as int + 32)
    || ('A' <= y <= 'Z' && x as int == y as int + 32)
  }

  /** The same host name up to ASCII case. */
  ghost predicate SameName(a: string, b: string) {
    |a| == |b| && forall i | 0 <= i < |a| :: SameLetter(a[i], b[i])
  }

  lemma LowerSame(x: char, y: char)
    ensures AsciiLower(x) == AsciiLower(y) <==> SameLetter(x, y)
  {
  }

  /** Hosts share a key exactly if they are the same name. */
  lemma KeysTellNames(a: string, b: string)
    ensures Key(a) == Key(b) <==> SameName(a, b)
  {
    if |a| == |b| {
      forall i | 0 <= i < |a| ensures Key(a)[i] == Key(b)[i] <==> SameLetter(a[i], b[i]) {
        LowerSame(a[i], b[i]);
      }
      if SameName(a, b) {
        assert Key(a) == Key(b);
      }
    }
  }

  class LookupCache {
    var entries: Cache

    /** Serves only a fresh entry, and leaves no entry that it would not serve. */
    method CacheGet(key: string, now: real) returns (r: Option<seq<Ip>>)
      modifies this
      ensures r.Some? <==> key in old(entries) && old(entries)[key].addrs != [] && now - old(entries)[key].at < 300.0
      ensures r.Some? ==> r.value == old(entries)[key].addrs && entries == old(entries)
      ensures r.None? ==> entries == old(entries) - {key}
    {
      if key in entries {
        var entry := entries[key];
        if now - entry.at < TTL && entry.addrs != [] {
          return Some(entry.addrs);
        }
      }
      entries := entries - {key};
      return None;
    }

    method CachePut(key: string, addrs: seq<Ip>, now: real)
      modifies this
      ensures entries == old(entries)[key := Entry(addrs, now)]
      ensures addrs != [] ==> Fresh(entries, key, now)
    {
      entries := entries[key := Entry(addrs, now)];
    }
  }

  // ---------------------------------------------------------------- callers

  datatype Gate = Gate(key: string, id: nat)

  datatype Caller =
    | Missed(host: string)                                      // past the first look in the cache
    | Waiting(host: string, gate: Gate)
    | Locked(host: string, gate: Gate)                          // about to look again
    | Resolving(host: string, gate: Gate)
    | Answered(host: string, gate: Gate, addrs: seq<Ip>)        // about to fill the cache
    | Removing(host: string, gate: Gate)                        // about to remove the gate from the map
    | Leaving(host: string, gate: Gate)                         // about to unlock
  {
    predicate Holds() {
      !Missed? && !Waiting?
    }

    predicate Busy() {
      Resolving? || Answered? || Removing?
    }
  }

  datatype State = State(
    now: real, cache: Cache, inflight: map<string, Gate>, nextGate: nat, callers: map<nat, Caller>)

  const INIT := State(0.0, map[], map[], 0, map[])

  /** Whether resolves may succeed with no address, and whether entries may expire while callers depend on them. */
  datatype Env = Env(empties: bool, expiries: bool)

  datatype Step =
    | Start(c: nat, host: string)
    | TakeGate(c: nat)
    | Lock(c: nat)
    | LookAgain(c: nat)
    | Resolve(c: nat, addrs: seq<Ip>)
    | Fail(c: nat)                                              // the resolve fails, or its caller is cancelled
    | Abandon(c: nat)                                           // cancelled while waiting
    | Put(c: nat)
    | Remove(c: nat)
    | Unlock(c: nat)
    | Tick(elapsed: real)

  predicate Current(s: State, gate: Gate) {
    gate.key in s.inflight && s.inflight[gate.key] == gate
  }

  /** A caller that will look in the cache on a gate no longer in the map, or that is about to remove its own. */
  predicate Exposed(s: State, caller: Caller) {
    caller.Removing? || ((caller.Waiting? || caller.Locked?) && !Current(s, caller.gate))
  }

  ghost predicate TickAllowed(env: Env, s: State, elapsed: real) {
    && elapsed >= 0.0
    && (env.expiries || forall c | c in s.callers && Exposed(s, s.callers[c]) ::
          var key := s.callers[c].gate.key;
          Fresh(s.cache, key, s.now) ==> Fresh(s.cache, key, s.now + elapsed))
  }

  ghost predicate Enabled(env: Env, s: State, step: Step) {
    match step
    case Start(c, _) => c !in s.callers
    case TakeGate(c) => c in s.callers && s.callers[c].Missed?
    case Lock(c) =>
      && c in s.callers && s.callers[c].Waiting?
      && forall d | d in s.callers && s.callers[d].Holds() :: s.callers[d].gate != s.callers[c].gate
    case LookAgain(c) => c in s.callers && s.callers[c].Locked?
    case Resolve(c, addrs) => c in s.callers && s.callers[c].Resolving? && (addrs != [] || env.empties)
    case Fail(c) => c in s.callers && s.callers[c].Resolving?
    case Abandon(c) => c in s.callers && s.callers[c].Waiting?
    case Put(c) => c in s.callers && s.callers[c].Answered?
    case Remove(c) => c in s.callers && s.callers[c].Removing?
    case Unlock(c) => c in s.callers && s.callers[c].Leaving?
    case Tick(elapsed) => TickAllowed(env, s, elapsed)
  }

  function To(s: State, c: nat, caller: Caller): State {
    s.(callers := s.callers[c := caller])
  }

  /** `cache_get` when the entry is not served. */
  function Evict(s: State, key: string): State {
    s.(cache := s.cache - {key})
  }

  function TakeGateOf(s: State, c: nat, host: string): State {
    var key := Key(host);
    if key in s.inflight then To(s, c, Waiting(host, s.inflight[key]))
    else
      var gate := Gate(key, s.nextGate);
      To(s, c, Waiting(host, gate)).(inflight := s.inflight[key := gate], nextGate := s.nextGate + 1)
  }

  ghost function Apply(env: Env, s: State, step: Step): State
    requires Enabled(env, s, step)
  {
    match step
    case Start(c, host) =>
      if Fresh(s.cache, Key(host), s.now) then s else To(Evict(s, Key(host)), c, Missed(host))
    case TakeGate(c) => TakeGateOf(s, c, s.callers[c].host)
    case Lock(c) => To(s, c, Locked(s.callers[c].host, s.callers[c].gate))
    case LookAgain(c) =>
      var Locked(host, gate) := s.callers[c];
      if Fresh(s.cache, Key(host), s.now) then To(s, c, Leaving(host, gate))
      else To(Evict(s, Key(host)), c, Resolving(host, gate))
    case Resolve(c, addrs) => To(s, c, Answered(s.callers[c].host, s.callers[c].gate, addrs))
    case Fail(c) => To(s, c, Leaving(s.callers[c].host, s.callers[c].gate))
    case Abandon(c) => s.(callers := s.callers - {c})
    case Put(c) =>
      var Answered(host, gate, addrs) := s.callers[c];
      var put := if addrs == [] then s.cache else s.cache[Key(host) := Entry(addrs, s.now)];
      To(s, c, Removing(host, gate)).(cache := put)
    case Remove(c) =>
      To(s, c, Leaving(s.callers[c].host, s.callers[c].gate)).(inflight := s.inflight - {Key(s.callers[c].host)})
    case Unlock(c) => s.(callers := s.callers - {c})
    case Tick(elapsed) => s.(now := s.now + elapsed)
  }

  ghost predicate IsRun(env: Env, states: seq<State>, steps: seq<Step>) {
    && |states| == |steps| + 1 && states[0] == INIT
    && (forall i | 0 <= i < |steps| ::
          Enabled(env, states[i], steps[i]) && states[i + 1] == Apply(env, states[i], steps[i]))
  }

  // ---------------------------------------------------------------- one resolve per host

  /** Gates carry their key and an identity that was handed out; busy callers hold the gate in the map. */
  ghost predicate CallerInv(s: State, caller: Caller) {
    && (!caller.Missed? ==> caller.gate.key == Key(caller.host) && caller.gate.id < s.nextGate)
    && (caller.Busy() ==> Current(s, caller.gate))
    && (caller.Answered? ==> caller.addrs != [])
    && (Exposed(s, caller) ==> Fresh(s.cache, caller.gate.key, s.now))
  }

  ghost predicate Inv(s: State) {
    && (forall c | c in s.callers :: CallerInv(s, s.callers[c]))
    && (forall key | key in s.inflight :: s.inflight[key].key == key && s.inflight[key].id < s.nextGate)
    && (forall c, d | c in s.callers && d in s.callers && s.callers[c].Holds() && s.callers[d].Holds()
                      && s.callers[c].gate == s.callers[d].gate :: c == d)
  }

  const STRICT := Env(false, false)

  ghost predicate Kept(s: State, step: Step)
    requires Enabled(STRICT, s, step)
  {
    Inv(s) ==> Inv(Apply(STRICT, s, step))
  }

  lemma StartKeeps(s: State, c: nat, host: string)
    requires Enabled(STRICT, s, Start(c, host))
    ensures Kept(s, Start(c, host))
  {
    hide Key;
  }

  lemma TakeGateKeeps(s: State, c: nat)
    requires Enabled(STRICT, s, TakeGate(c))
    ensures Kept(s, TakeGate(c))
  {
    hide Key;
  }

  lemma LookAgainKeeps(s: State, c: nat)
    requires Enabled(STRICT, s, LookAgain(c))
    ensures Kept(s, LookAgain(c))
  {
    hide Key;
  }

  lemma PutKeeps(s: State, c: nat)
    requires Enabled(STRICT, s, Put(c))
    ensures Kept(s, Put(c))
  {
    hide Key;
  }

  lemma RemoveKeeps(s: State, c: nat)
    requires Enabled(STRICT, s, Remove(c))
    ensures Kept(s, Remove(c))
  {
    hide Key;
  }

  lemma MoveKeeps(s: State, step: Step)
    requires step.Lock? || step.Resolve? || step.Fail?
    requires Enabled(STRICT, s, step)
    ensures Kept(s, step)
  {
    hide Key;
  }

  lemma LeaveKeeps(s: State, step: Step)
    requires step.Abandon? || step.Unlock? || step.Tick?
    requires Enabled(STRICT, s, step)
    ensures Kept(s, step)
  {
    hide Key;
  }

  lemma StepKeepsInv(s: State, step: Step)
    requires Enabled(STRICT, s, step)
    ensures Kept(s, step)
  {
    hide Kept;
    match step {
      case Start(c, host) => StartKeeps(s, c, host);
      case TakeGate(c) => TakeGateKeeps(s, c);
      case LookAgain(c) => LookAgainKeeps(s, c);
      case Put(c) => PutKeeps(s, c);
      case Remove(c) => RemoveKeeps(s, c);
      case Lock(_) => MoveKeeps(s, step);
      case Resolve(_, _) => MoveKeeps(s, step);
      case Fail(_) => MoveKeeps(s, step);
      case Abandon(_) => LeaveKeeps(s, step);
      case Unlock(_) => LeaveKeeps(s, step);
      case Tick(_) => LeaveKeeps(s, step);
    }
  }

  lemma {:induction false} InvHolds(states: seq<State>, steps: seq<Step>, i: nat)
    requires IsRun(STRICT, states, steps) && i < |states|
    ensures Inv(states[i])
  {
    if i > 0 {
      InvHolds(states, steps, i - 1);
      StepKeepsInv(states[i - 1], steps[i - 1]);
    }
  }

  ghost predicate OneResolvePerHost(s: State) {
    forall c, d | c in s.callers && d in s.callers && s.callers[c].Resolving? && s.callers[d].Resolving?
                  && SameName(s.callers[c].host, s.callers[d].host) :: c == d
  }

  /** Resolves that fail or find an address, and no expiry under a waiting caller: one resolve per host at a time. */
  lemma AtMostOneResolve(states: seq<State>, steps: seq<Step>, i: nat)
    requires IsRun(STRICT, states, steps) && i < |states|
    ensures OneResolvePerHost(states[i])
  {
    InvHolds(states, steps, i);
    hide Key, SameName;
    var s := states[i];
    forall c, d | c in s.callers && d in s.callers && s.callers[c].Resolving? && s.callers[d].Resolving?
                  && SameName(s.callers[c].host, s.callers[d].host) ensures c == d
    {
      KeysTellNames(s.callers[c].host, s.callers[d].host);
    }
  }

  // ---------------------------------------------------------------- where served answers come from

  /** The addresses a step takes out of the cache, and the host they are for. */
  function Served(s: State, step: Step): Option<(string, seq<Ip>)> {
    if step.Start? && Fresh(s.cache, Key(step.host), s.now) then
      Some((step.host, s.cache[Key(step.host)].addrs))
    else if step.LookAgain? && step.c in s.callers && s.callers[step.c].Locked?
            && Fresh(s.cache, Key(s.callers[step.c].host), s.now) then
      Some((s.callers[step.c].host, s.cache[Key(s.callers[step.c].host)].addrs))
    else None
  }

  /** A served caller is done: it never resolves, and no one else is disturbed. */
  lemma ServedCallersAreDone(env: Env, s: State, step: Step)
    requires Enabled(env, s, step) && Served(s, step).Some?
    ensures var s' := Apply(env, s, step);
            && s'.cache == s.cache && s'.inflight == s.inflight
            && (step.Start? ==> s' == s)
            && (step.LookAgain? ==> s'.callers[step.c].Leaving? && s'.callers.Keys == s.callers.Keys)
            && forall d | d in s.callers && (step.Start? || d != step.c) ::
                 d in s'.callers && s'.callers[d] == s.callers[d]
  {
  }

  /** Step `r` is a caller's resolve of a host with this key, answered with `addrs`. */
  ghost predicate ResolvedAt(states: seq<State>, steps: seq<Step>, r: nat, c: nat, key: string, addrs: seq<Ip>) {
    && r < |steps| && r < |states| && steps[r] == Resolve(c, addrs) && c in states[r].callers
    && states[r].callers[c].Resolving? && Key(states[r].callers[c].host) == key
  }

  /** Step `r` is a caller's resolve of that very host, up to ASCII case, answered with `addrs`. */
  ghost predicate ResolvedFor(states: seq<State>, steps: seq<Step>, r: nat, c: nat, host: string, addrs: seq<Ip>) {
    && r < |steps| && r < |states| && steps[r] == Resolve(c, addrs) && c in states[r].callers
    && states[r].callers[c].Resolving? && SameName(states[r].callers[c].host, host)
  }

  ghost predicate ResolvedBefore(states: seq<State>, steps: seq<Step>, i: nat, c: nat, key: string, addrs: seq<Ip>) {
    exists r: nat :: r < i && ResolvedAt(states, steps, r, c, key, addrs)
  }

  /** Step `j` fills the cache with an answer that its caller had resolved before. */
  ghost predicate PutAt(states: seq<State>, steps: seq<Step>, j: nat, key: string, entry: Entry) {
    && j < |steps| && j < |states| && steps[j].Put? && states[j].now == entry.at
    && ResolvedBefore(states, steps, j, steps[j].c, key, entry.addrs)
  }

  ghost predicate PutBefore(states: seq<State>, steps: seq<Step>, i: nat, key: string, entry: Entry) {
    exists j: nat :: j < i && PutAt(states, steps, j, key, entry)
  }

  ghost predicate Sourced(states: seq<State>, steps: seq<Step>, i: nat)
    requires i < |states|
  {
    var s := states[i];
    && (forall key | key in s.cache ::
          s.cache[key].at <= s.now && PutBefore(states, steps, i, key, s.cache[key]))
    && (forall c | c in s.callers && s.callers[c].Answered? ::
          ResolvedBefore(states, steps, i, c, Key(s.callers[c].host), s.callers[c].addrs))
  }

  lemma CacheChange(env: Env, s: State, step: Step, key: string)
    requires Enabled(env, s, step) && key in Apply(env, s, step).cache
    ensures var s' := Apply(env, s, step);
            && s.now <= s'.now
            && (|| (key in s.cache && s'.cache[key] == s.cache[key])
                || (step.Put? && key == Key(s.callers[step.c].host)
                    && s'.cache[key] == Entry(s.callers[step.c].addrs, s.now)))
  {
    hide Key;
  }

  lemma AnswerChange(env: Env, s: State, step: Step, c: nat)
    requires Enabled(env, s, step) && c in Apply(env, s, step).callers && Apply(env, s, step).callers[c].Answered?
    ensures var caller := Apply(env, s, step).callers[c];
            || (c in s.callers && s.callers[c] == caller)
            || (step == Resolve(c, caller.addrs) && s.callers[c].host == caller.host)
  {
    hide Key;
  }

  lemma SourcedStep(env: Env, states: seq<State>, steps: seq<Step>, i: nat)
    requires IsRun(env, states, steps) && 0 < i < |states| && Sourced(states, steps, i - 1)
    ensures Sourced(states, steps, i)
  {
    hide Key, Apply;
    var s, s', step := states[i - 1], states[i], steps[i - 1];
    forall key | key in s'.cache ensures s'.cache[key].at <= s'.now && PutBefore(states, steps, i, key, s'.cache[key]) {
      CacheChange(env, s, step, key);
      if !(key in s.cache && s'.cache[key] == s.cache[key]) {
        assert PutAt(states, steps, i - 1, key, s'.cache[key]);
      }
    }
    forall c | c in s'.callers && s'.callers[c].Answered?
      ensures ResolvedBefore(states, steps, i, c, Key(s'.callers[c].host), s'.callers[c].addrs)
    {
      AnswerChange(env, s, step, c);
      if !(c in s.callers && s.callers[c] == s'.callers[c]) {
        assert ResolvedAt(states, steps, i - 1, c, Key(s'.callers[c].host), s'.callers[c].addrs);
      }
    }
  }

  lemma {:induction false} SourcedHolds(env: Env, states: seq<State>, steps: seq<Step>, i: nat)
    requires IsRun(env, states, steps) && i < |states|
    ensures Sourced(states, steps, i)
  {
    if i > 0 {
      SourcedHolds(env, states, steps, i - 1);
      SourcedStep(env, states, steps, i);
    }
  }

  /**
   In every run whatever: an answer served from the cache was put there less than 300 seconds before, by a caller
   that had resolved a host with the same lowercase name to exactly those addresses.
   */
  lemma ServedAnswersAreRecent(env: Env, states: seq<State>, steps: seq<Step>, i: nat) returns (j: nat, r: nat)
    requires IsRun(env, states, steps) && i < |steps| && Served(states[i], steps[i]).Some?
    ensures var (host, addrs) := Served(states[i], steps[i]).value;
            && addrs != [] && r < j < i && steps[j].Put?
            && states[j].now <= states[i].now < states[j].now + TTL
            && ResolvedFor(states, steps, r, steps[j].c, host, addrs)
  {
    SourcedHolds(env, states, steps, i);
    hide Key, SameName, Apply, IsRun;
    var (host, addrs) := Served(states[i], steps[i]).value;
    var entry := states[i].cache[Key(host)];
    assert PutBefore(states, steps, i, Key(host), entry);
    j :| j < i && PutAt(states, steps, j, Key(host), entry);
    r :| r < j && ResolvedAt(states, steps, r, steps[j].c, Key(host), entry.addrs);
    KeysTellNames(states[r].callers[steps[j].c].host, host);
  }

  /**
   An answer is shared: once put, it is served for 300 seconds to any caller asking for the same name, and after that
   to none; what callers of other names are served does not change.
   */
  lemma AnswerIsShared(env: Env, s: State, c: nat, d: nat, host: string, elapsed: real)
    requires Enabled(env, s, Put(c)) && s.callers[c].addrs != []
    ensures var s' := Apply(env, s, Put(c)).(now := s.now + elapsed);
            if !SameName(s.callers[c].host, host) then
              Served(s', Start(d, host)) == Served(s.(now := s.now + elapsed), Start(d, host))
            else if elapsed < 300.0 then Served(s', Start(d, host)) == Some((host, s.callers[c].addrs))
            else Served(s', Start(d, host)) == None
  {
    KeysTellNames(s.callers[c].host, host);
    hide Key, SameName;
  }

  // ---------------------------------------------------------------- both conditions are needed

  ghost predicate Reaches(env: Env, s: State) {
    exists states: seq<State>, steps: seq<Step> :: IsRun(env, states, steps) && states[|steps|] == s
  }

  lemma ReachesNext(env: Env, s: State, step: Step, s': State)
    requires Reaches(env, s) && Enabled(env, s, step) && s' == Apply(env, s, step)
    ensures Reaches(env, s')
  {
    var states: seq<State>, steps: seq<Step> :| IsRun(env, states, steps) && states[|steps|] == s;
    var states', steps' := states + [s'], steps + [step];
    forall i | 0 <= i < |steps'|
      ensures Enabled(env, states'[i], steps'[i]) && states'[i + 1] == Apply(env, states'[i], steps'[i])
    {
      assert states'[i] == states[i];
      assert i < |steps| ==> states'[i + 1] == states[i + 1] && steps'[i] == steps[i];
    }
    assert IsRun(env, states', steps') && states'[|steps'|] == s';
  }

  const HOST := "a"
  const G0 := Gate(HOST, 0)
  const G1 := Gate(HOST, 1)

  /** Callers of one host; the first gate is in the map. */
  function Scene(callers: map<nat, Caller>): State {
    State(0.0, map[], map[HOST := G0], 1, callers)
  }

  lemma OneResolves(env: Env)
    ensures Reaches(env, Scene(map[0 := Resolving(HOST, G0)]))
  {
    assert IsRun(env, [INIT], []) && [INIT][0] == INIT;
    assert Reaches(env, INIT);
    assert Key(HOST) == HOST;
    hide Reaches, Key;
    var s1 := INIT.(callers := map[0 := Missed(HOST)]);
    ReachesNext(env, INIT, Start(0, HOST), s1);
    ReachesNext(env, s1, TakeGate(0), Scene(map[0 := Waiting(HOST, G0)]));
    ReachesNext(env, Scene(map[0 := Waiting(HOST, G0)]), Lock(0), Scene(map[0 := Locked(HOST, G0)]));
    ReachesNext(env, Scene(map[0 := Locked(HOST, G0)]), LookAgain(0), Scene(map[0 := Resolving(HOST, G0)]));
  }

  lemma OneResolvesOneWaits(env: Env)
    ensures Reaches(env, Scene(map[0 := Resolving(HOST, G0), 1 := Waiting(HOST, G0)]))
  {
    OneResolves(env);
    assert Key(HOST) == HOST;
    hide Reaches, Key;
    var s1 := Scene(map[0 := Resolving(HOST, G0), 1 := Missed(HOST)]);
    ReachesNext(env, Scene(map[0 := Resolving(HOST, G0)]), Start(1, HOST), s1);
    ReachesNext(env, s1, TakeGate(1), Scene(map[0 := Resolving(HOST, G0), 1 := Waiting(HOST, G0)]));
  }

  function Cached(addrs: seq<Ip>): Cache {
    if addrs == [] then map[] else map[HOST := Entry(addrs, 0.0)]
  }

  lemma AnswerHandled(env: Env, addrs: seq<Ip>)
    requires addrs == [] ==> env.empties
    ensures Reaches(env, Scene(map[0 := Removing(HOST, G0), 1 := Waiting(HOST, G0)]).(cache := Cached(addrs)))
  {
    OneResolvesOneWaits(env);
    assert Key(HOST) == HOST;
    hide Reaches, Key;
    var waits := Waiting(HOST, G0);
    var s1 := Scene(map[0 := Answered(HOST, G0, addrs), 1 := waits]);
    ReachesNext(env, Scene(map[0 := Resolving(HOST, G0), 1 := waits]), Resolve(0, addrs), s1);
    ReachesNext(env, s1, Put(0), Scene(map[0 := Removing(HOST, G0), 1 := waits]).(cache := Cached(addrs)));
  }

  /** The first gate has left the map. */
  function Left(now: real, cache: Cache, callers: map<nat, Caller>): State {
    State(now, cache, map[], 1, callers)
  }

  lemma GateRemoved(env: Env, addrs: seq<Ip>)
    requires addrs == [] ==> env.empties
    ensures Reaches(env, Left(0.0, Cached(addrs), map[1 := Waiting(HOST, G0)]))
  {
    AnswerHandled(env, addrs);
    assert Key(HOST) == HOST;
    hide Reaches, Key, Cached;
    var waits := Waiting(HOST, G0);
    var s1 := Left(0.0, Cached(addrs), map[0 := Leaving(HOST, G0), 1 := waits]);
    ReachesNext(env, Scene(map[0 := Removing(HOST, G0), 1 := waits]).(cache := Cached(addrs)), Remove(0), s1);
    ReachesNext(env, s1, Unlock(0), Left(0.0, Cached(addrs), map[1 := waits]));
  }

  /** Five minutes later the waiting caller finds nothing to serve it. */
  lemma WaiterResolves(env: Env, addrs: seq<Ip>)
    requires if addrs == [] then env.empties else env.expiries
    ensures Reaches(env, Left(TTL, map[], map[1 := Resolving(HOST, G0)]))
  {
    GateRemoved(env, addrs);
    assert Key(HOST) == HOST;
    hide Reaches, Key;
    var waits := map[1 := Waiting(HOST, G0)];
    assert TickAllowed(env, Left(0.0, Cached(addrs), waits), TTL);
    ReachesNext(env, Left(0.0, Cached(addrs), waits), Tick(TTL), Left(TTL, Cached(addrs), waits));
    var s1 := Left(TTL, Cached(addrs), map[1 := Locked(HOST, G0)]);
    ReachesNext(env, Left(TTL, Cached(addrs), waits), Lock(1), s1);
    ReachesNext(env, s1, LookAgain(1), Left(TTL, map[], map[1 := Resolving(HOST, G0)]));
  }

  /** A new gate is in the map beside the caller on the old one. */
  function Split(caller: Caller): State {
    State(TTL, map[], map[HOST := G1], 2, map[1 := Resolving(HOST, G0), 2 := caller])
  }

  lemma NewGateTaken(env: Env, addrs: seq<Ip>)
    requires if addrs == [] then env.empties else env.expiries
    ensures Reaches(env, Split(Waiting(HOST, G1)))
  {
    WaiterResolves(env, addrs);
    assert Key(HOST) == HOST;
    hide Reaches, Key;
    var other := Resolving(HOST, G0);
    var s1 := Left(TTL, map[], map[1 := other, 2 := Missed(HOST)]);
    ReachesNext(env, Left(TTL, map[], map[1 := other]), Start(2, HOST), s1);
    ReachesNext(env, s1, TakeGate(2), Split(Waiting(HOST, G1)));
  }

  lemma TwoResolve(env: Env, addrs: seq<Ip>)
    requires if addrs == [] then env.empties else env.expiries
    ensures Reaches(env, Split(Resolving(HOST, G1))) && !OneResolvePerHost(Split(Resolving(HOST, G1)))
  {
    NewGateTaken(env, addrs);
    assert Key(HOST) == HOST;
    hide Reaches, Key;
    ReachesNext(env, Split(Waiting(HOST, G1)), Lock(2), Split(Locked(HOST, G1)));
    ReachesNext(env, Split(Locked(HOST, G1)), LookAgain(2), Split(Resolving(HOST, G1)));
    var s := Split(Resolving(HOST, G1));
    assert s.callers[1].Resolving? && s.callers[2].Resolving?;
  }

  /** The gates hold back a second resolve in every run exactly when neither empties nor such expiries can happen. */
  lemma SingleflightExactly(env: Env)
    ensures (forall s | Reaches(env, s) :: OneResolvePerHost(s)) <==> !env.empties && !env.expiries
  {
    if !env.empties && !env.expiries {
      forall s | Reaches(env, s) ensures OneResolvePerHost(s) {
        var states: seq<State>, steps: seq<Step> :| IsRun(env, states, steps) && states[|steps|] == s;
        AtMostOneResolve(states, steps, |steps|);
      }
    } else {
      TwoResolve(env, if env.empties then [] else [V4([127, 0, 0, 1])]);
    }
  }
}
