/** The fake-IP pool: each new domain gets the next address of a network, and a reverse table names it again. */
module FakeIp {
  import opened Bytes
  import opened Bits

  const MAX: u32 := 0xffff_ffff

  type Prefix = p: int | 0 <= p < 256

  /** How far the mask is shifted; a shift by 32, where it is not refused, is one by 0. */
  function HostBits(p: Prefix): nat {
    if p >= 32 then 0 else (32 - p) % 32
  }

  /** `u32::MAX`, or `u32::MAX << (32 - p)`, which drops what leaves the 32 bits. */
  function Mask(p: Prefix): nat {
    if p >= 32 then MAX else Low(MAX * Pow2(HostBits(p)), 32)
  }

  /** `(base & mask) | (offset & !mask)` */
  function Combine(base: nat, mask: nat, offset: nat): nat
    requires mask <= MAX
  {
    Or(And(base, mask), And(offset, MAX - mask))
  }

  lemma Pow2At32()
    ensures Pow2(32) == 0x1_0000_0000
  {
    assert Pow2(8) == 256;
    assert Pow2(16) == 256 * Pow2(8);
    assert Pow2(24) == 256 * Pow2(16);
    assert Pow2(32) == 256 * Pow2(24);
  }

  lemma MaskValue(p: Prefix)
    ensures Pow2(HostBits(p)) <= Pow2(32) && Mask(p) == Pow2(32) - Pow2(HostBits(p))
  {
    Pow2At32();
    var k := HostBits(p);
    AndHigh(0, 32, k);
    if p < 32 {
      var x := MAX * Pow2(k);
      var q := LowDivides(x, 32);
      LowRange(x, 32);
      hide Low, Pow2;
      assert x == (Pow2(k) - 1) * Pow2(32) + (Pow2(32) - Pow2(k));
      RemainderUnique(q, Pow2(k) - 1, Low(x, 32), Pow2(32) - Pow2(k), Pow2(32));
    }
  }

  lemma RemainderUnique(q: int, r: int, a: nat, b: nat, p: nat)
    requires q * p + a == r * p + b && a < p && b < p
    ensures a == b && q == r
  {
    var t := r - q;
    assert t * p == a - b;
    assert t >= 1 ==> t * p >= p;
    assert t <= -1 ==> (t + 1) * p <= 0;
  }

  // ---------------------------------------------------------------- the i-th address

  /** The address of the i-th domain: the network's base plus the low bits of i + 1. */
  function Slot(base: u32, p: Prefix, i: nat): nat {
    LowRange(base, HostBits(p));
    base - Low(base, HostBits(p)) + Low(1 + i, HostBits(p))
  }

  /** In plain arithmetic: the i-th domain has number i + 1 in the network, modulo its size. */
  lemma SlotInNumbers(base: u32, p: Prefix, i: nat)
    ensures var size := Pow2(if 1 <= p <= 32 then 32 - p else 0);
            Slot(base, p, i) == base - base % size + (i + 1) % size
  {
    assert HostBits(p) == if 1 <= p <= 32 then 32 - p else 0;
    hide Low, Pow2, HostBits;
    LowIsRemainder(base, HostBits(p));
    LowIsRemainder(1 + i, HostBits(p));
  }

  lemma LowIsRemainder(x: nat, k: nat)
    ensures Low(x, k) == x % Pow2(k)
  {
    var q := LowDivides(x, k);
    LowRange(x, k);
    hide Low, Pow2;
    RemainderUnique(x / Pow2(k), q, x % Pow2(k), Low(x, k), Pow2(k));
  }

  lemma CombineIsSlot(base: u32, p: Prefix, i: nat)
    ensures Mask(p) <= MAX && Combine(base, Mask(p), Low(1 + i, 32)) == Slot(base, p, i)
  {
    hide And, Or, Low, Pow2, Mask;
    var k := HostBits(p);
    Pow2At32();
    MaskValue(p);
    AndHigh(base, 32, k);
    AndLow(Low(1 + i, 32), k);
    LowOfWrapped(1 + i, 32, k);
    LowCleared(base, k);
    LowRange(1 + i, k);
    OrDisjoint(base - Low(base, k), Low(1 + i, k), k);
  }

  /** Every address lies in the network: its masked part is that of the base. */
  lemma SlotInside(base: u32, p: Prefix, i: nat)
    ensures Slot(base, p, i) <= MAX && And(Slot(base, p, i), Mask(p)) == And(base, Mask(p))
  {
    hide And, Or, Low, Pow2, Mask;
    var k := HostBits(p);
    Pow2At32();
    MaskValue(p);
    LowCleared(base, k);
    LowRange(1 + i, k);
    OrDisjoint(base - Low(base, k), Low(1 + i, k), k);
    SlotBelow(base, k, Low(1 + i, k));
    AndHigh(base, 32, k);
    AndHigh(Slot(base, p, i), 32, k);
  }

  lemma SlotBelow(base: u32, k: nat, low: nat)
    requires k <= 32 && low < Pow2(k)
    ensures Low(base, k) <= base && base - Low(base, k) + low <= MAX
  {
    Pow2At32();
    LowRange(base, k);
    var q := LowDivides(base, k);
    Pow2Sum(k, 32 - k);
    hide Low, Pow2;
    QuotientBelow(q, Low(base, k), Pow2(k), Pow2(32 - k), low);
  }

  lemma {:induction false} Pow2Sum(a: nat, b: nat)
    ensures Pow2(a + b) == Pow2(a) * Pow2(b)
  {
    if a > 0 {
      Pow2Sum(a - 1, b);
    }
  }

  lemma QuotientBelow(q: nat, r: nat, p: nat, m: nat, low: nat)
    requires q * p + r < p * m && low < p
    ensures q * p + low < p * m
  {
    assert q >= m ==> q * p >= m * p;
    assert (q + 1) * p == q * p + p;
    assert q + 1 <= m ==> (q + 1) * p <= m * p;
  }

  /** Within one period the addresses differ; one period on they repeat. */
  lemma SlotsCycle(base: u32, p: Prefix, i: nat, j: nat)
    requires i <= j <= i + Pow2(HostBits(p))
    ensures Slot(base, p, i) == Slot(base, p, j) <==> i == j || j == i + Pow2(HostBits(p))
  {
    LowAfterAdding(1 + i, j - i, HostBits(p));
  }

  // ---------------------------------------------------------------- the pool

  lemma WrapStep(x: nat)
    ensures Low(x + 1, 32) == if Low(x, 32) == MAX then 0 else Low(x, 32) + 1
  {
    Pow2At32();
    LowRange(x, 32);
    LowRange(x + 1, 32);
    var q := LowDivides(x, 32);
    var r := LowDivides(x + 1, 32);
    hide Low, Pow2;
    if Low(x, 32) == MAX {
      RemainderUnique(q + 1, r, 0, Low(x + 1, 32), Pow2(32));
    } else {
      RemainderUnique(q, r, Low(x, 32) + 1, Low(x + 1, 32), Pow2(32));
    }
  }

  ghost predicate Distinct(order: seq<string>) {
    forall i, j | 0 <= i < j < |order| :: order[i] != order[j]
  }

  class FakeIpPool {
    const base: u32
    const prefix: Prefix
    const mask: nat
    var next: u32
    var domainMap: map<string, nat>
    ghost var order: seq<string>  // the domains, in the order they were first seen

    constructor (base: u32, prefix: Prefix)
      ensures Valid() && order == [] && this.base == base && this.prefix == prefix
    {
      hide Low, Mask, Slot;
      LowRange(1, 32);
      Pow2At32();
      this.base, this.prefix, mask := base, prefix, Mask(prefix);
      next, domainMap, order := 1, map[], [];
    }

    /** In a build with overflow checks the shift by 32 for prefix 0 stops the program. */
    static method Create(base: u32, prefix: Prefix, checked: bool) returns (r: Result<FakeIpPool>)
      ensures !r.Err? && (r.Panic? <==> checked && prefix == 0)
      ensures r.Ok? ==> fresh(r.value) && r.value.Valid() && r.value.order == []
                        && r.value.base == base && r.value.prefix == prefix
    {
      if checked && prefix == 0 {
        return Panic;
      }
      var pool := new FakeIpPool(base, prefix);
      return Ok(pool);
    }

    ghost predicate Valid() reads this {
      && mask == Mask(prefix)
      && next == Low(1 + |order|, 32)
      && Distinct(order)
      && (forall d :: d in domainMap <==> d in order)
      && (forall i | 0 <= i < |order| :: order[i] in domainMap && domainMap[order[i]] == Slot(base, prefix, i))
    }

    /** A known domain keeps its address; a new one gets the next slot. */
    method Allocate(domain: string) returns (ip: nat)
      requires Valid()
      modifies this
      ensures Valid()
      ensures domain in domainMap && ip == domainMap[domain]
      ensures forall d | d in old(domainMap) :: d in domainMap && domainMap[d] == old(domainMap)[d]
      ensures order == if domain in old(order) then old(order) else old(order) + [domain]
    {
      if domain in domainMap {
        return domainMap[domain];
      }
      var offset := next;
      WrapStep(1 + |order|);
      next := if next == MAX then 0 else next + 1;
      CombineIsSlot(base, prefix, |order|);
      ip := Combine(base, mask, offset);
      domainMap := domainMap[domain := ip];
      order := order + [domain];
    }
  }

  /** The fake-IP branch of the DNS router: answers from the pool and remembers who an address stands for. */
  class Router {
    const pool: FakeIpPool
    var reverseFake: map<nat, string>

    constructor (base: u32, prefix: Prefix)
      ensures Valid() && fresh(pool) && pool.order == [] && pool.base == base && pool.prefix == prefix
    {
      pool := new FakeIpPool(base, prefix);
      reverseFake := map[];
    }

    ghost predicate Valid() reads this, pool {
      && pool.Valid()
      && (forall d | d in pool.domainMap :: pool.domainMap[d] in reverseFake)
      && (forall ip | ip in reverseFake ::
            reverseFake[ip] in pool.domainMap && pool.domainMap[reverseFake[ip]] == ip)
    }

    method LookupFake(host: string) returns (ip: nat)
      requires Valid()
      modifies this, pool
      ensures Valid()
      ensures host in pool.domainMap && ip == pool.domainMap[host]
      ensures forall d | d in old(pool.domainMap) ::
                d in pool.domainMap && pool.domainMap[d] == old(pool.domainMap)[d]
      ensures pool.order == if host in old(pool.order) then old(pool.order) else old(pool.order) + [host]
      ensures reverseFake == old(reverseFake)[ip := host]
    {
      ip := pool.Allocate(host);
      reverseFake := reverseFake[ip := host];
    }

    method ReverseLookup(ip: nat) returns (host: Option<string>)
      requires Valid()
      ensures host.Some? <==> exists d :: d in pool.domainMap && pool.domainMap[d] == ip
      ensures host.Some? ==> host.value in pool.domainMap && pool.domainMap[host.value] == ip
    {
      host := if ip in reverseFake then Some(reverseFake[ip]) else None;
    }

    /** The reverse table undoes the forward map, both ways. */
    ghost predicate Inverse() reads this, pool {
      forall d, ip ::
        (d in pool.domainMap && pool.domainMap[d] == ip) <==> (ip in reverseFake && reverseFake[ip] == d)
    }
  }

  /** The reverse table is the exact inverse as long as the addresses have not wrapped, and only then. */
  lemma InverseUntilWrap(r: Router)
    requires r.Valid()
    ensures r.Inverse() <==> |r.pool.order| <= Pow2(HostBits(r.pool.prefix))
  {
    var pool, period := r.pool, Pow2(HostBits(r.pool.prefix));
    if |pool.order| <= period {
      forall d, ip
        ensures (d in pool.domainMap && pool.domainMap[d] == ip) <==> (ip in r.reverseFake && r.reverseFake[ip] == d)
      {
        if d in pool.domainMap && pool.domainMap[d] == ip {
          SameAddressSameDomain(pool, d, r.reverseFake[ip]);
        }
      }
    } else {
      SlotsCycle(pool.base, pool.prefix, 0, period);
      var a, b := pool.order[0], pool.order[period];
      assert a != b && pool.domainMap[a] == pool.domainMap[b];
    }
  }

  lemma SameAddressSameDomain(pool: FakeIpPool, d: string, e: string)
    requires pool.Valid() && |pool.order| <= Pow2(HostBits(pool.prefix))
    requires d in pool.domainMap && e in pool.domainMap && pool.domainMap[d] == pool.domainMap[e]
    ensures d == e
  {
    hide Slot;
    var i :| 0 <= i < |pool.order| && pool.order[i] == d;
    var j :| 0 <= j < |pool.order| && pool.order[j] == e;
    if i <= j {
      SlotsCycle(pool.base, pool.prefix, i, j);
    } else {
      SlotsCycle(pool.base, pool.prefix, j, i);
    }
  }
}
