/** A panel user's counters, and the checks and updates that sessions make on them. */
module UserRuntime {
  import opened Bytes

  datatype Limits = Limits(maxConnections: Option<nat>, maxTraffic: Option<nat>)

  datatype Counters = Counters(uplink: nat, downlink: nat, active: int) {
    function Total(): nat {
      uplink + downlink
    }

    predicate BelowConnections(limits: Limits) {
      limits.maxConnections.None? || active < limits.maxConnections.value
    }

    predicate BelowQuota(limits: Limits) {
      limits.maxTraffic.None? || Total() < limits.maxTraffic.value
    }

    function Record(up: nat, down: nat): Counters {
      Counters(uplink + up, downlink + down, active)
    }

    function Reset(up: bool): Counters {
      if up then Counters(0, downlink, active) else Counters(uplink, 0, active)
    }
  }

  /** One user's counters, used by one caller at a time: they count the live sessions and the bytes recorded. */
  class Runtime {
    var uplink: nat
    var downlink: nat
    var active: int
    ghost var sessions: nat    // guards handed out and not dropped
    ghost var recorded: nat    // bytes recorded, both ways

    ghost predicate Valid() reads this {
      active == sessions && uplink + downlink == recorded
    }

    function State(): Counters reads this {
      Counters(uplink, downlink, active)
    }

    constructor ()
      ensures Valid() && sessions == 0 && recorded == 0
    {
      uplink, downlink, active, sessions, recorded := 0, 0, 0, 0, 0;
    }

    /** Admits a session exactly below both limits, so the sessions never pass theirs. */
    method AcquireUser(limits: Limits) returns (r: Result<()>)
      requires Valid()
      modifies this
      ensures Valid() && recorded == old(recorded)
      ensures r.Ok? <==> old(State()).BelowConnections(limits) && old(State()).BelowQuota(limits)
      ensures sessions == old(sessions) + if r.Ok? then 1 else 0
      ensures r.Ok? && limits.maxConnections.Some? ==> sessions <= limits.maxConnections.value
    {
      if limits.maxConnections.Some? {
        if active >= limits.maxConnections.value {
          return Err("connection limit reached");
        }
      }
      if limits.maxTraffic.Some? {
        if uplink + downlink >= limits.maxTraffic.value {
          return Err("traffic quota exceeded");
        }
      }
      active, sessions := active + 1, sessions + 1;
      return Ok(());
    }

    /** Drops a guard: a counted one belongs to a live session, a detached one to none. */
    method DropGuard(detached: bool)
      requires Valid() && (detached || sessions > 0)
      modifies this
      ensures Valid() && recorded == old(recorded)
      ensures sessions == old(sessions) - if detached then 0 else 1
    {
      if !detached {
        active, sessions := active - 1, sessions - 1;
      }
    }

    method RecordTraffic(up: nat, down: nat)
      requires Valid()
      modifies this
      ensures Valid() && sessions == old(sessions) && recorded == old(recorded) + up + down
    {
      uplink := uplink + up;
      downlink := downlink + down;
      recorded := recorded + up + down;
    }

    method UserQuotaOk(limits: Limits) returns (ok: bool)
      requires Valid()
      ensures ok <==> limits.maxTraffic.Some? ==> recorded < limits.maxTraffic.value
    {
      ok := limits.maxTraffic.None? || uplink + downlink < limits.maxTraffic.value;
    }
  }
}
