/** Byte strings, big-endian integers, socket addresses and chunked streams. */
module Bytes {

  newtype byte = b: int | 0 <= b < 256
  type bytes = seq<byte>

  type Bytes4 = s: bytes | |s| == 4 witness [0, 0, 0, 0]
  type Bytes8 = s: bytes | |s| == 8 witness seq(8, i => 0)
  type Bytes16 = s: bytes | |s| == 16 witness seq(16, i => 0)
  type Bytes32 = s: bytes | |s| == 32 witness seq(32, i => 0)
  type u16 = n: int | 0 <= n < 0x1_0000
  type u32 = n: int | 0 <= n < 0x1_0000_0000
  type u64 = n: int | 0 <= n < 0x1_0000_0000_0000_0000

  datatype Option<+T> = None | Some(value: T)

  /** Outcome of an operation that can fail, or stop the task on an out-of-range index. */
  datatype Result<+T> = Ok(value: T) | Err(error: string) | Panic {
    predicate IsFailure() {
      !Ok?
    }

    function PropagateFailure<U>(): Result<U>
      requires IsFailure()
    {
      if Panic? then Panic else Err(error)
    }

    function Extract(): T
      requires !IsFailure()
    {
      value
    }
  }

  /** A check that either passes or ends the surrounding operation with an error. */
  datatype Check = Pass | Fail(error: string) {
    predicate IsFailure() {
      Fail?
    }

    function PropagateFailure<U>(): Result<U>
      requires IsFailure()
    {
      Err(error)
    }
  }

  function Need(condition: bool, error: string): Check {
    if condition then Pass else Fail(error)
  }

  /** An IP address by its octets. */
  datatype Ip = V4(v4: Bytes4) | V6(v6: Bytes16) {
    function Octets(): bytes {
      if V4? then v4 else v6
    }
  }

  datatype SocketAddr = SocketAddr(ip: Ip, port: u16)

  /** The bytes of an ASCII string. */
  function Ascii(s: string): (a: bytes)
    ensures |a| == |s|
  {
    seq(|s|, i requires 0 <= i < |s| => (s[i] as int % 256) as byte)
  }

  function Zeros(n: nat): (z: bytes)
    ensures |z| == n
  {
    seq(n, i => 0)
  }

  /** `u16::to_be_bytes` */
  function U16(n: u16): (s: bytes)
    ensures |s| == 2 && FromU16(s[0], s[1]) == n
  {
    [(n / 256) as byte, (n % 256) as byte]
  }

  /** `u16::from_be_bytes` */
  function FromU16(hi: byte, lo: byte): u16 {
    hi as int * 256 + lo as int
  }

  function Pow256(w: nat): (p: nat)
    ensures p > 0
  {
    if w == 0 then 1 else 256 * Pow256(w - 1)
  }

  /** The `w`-byte big-endian form of the low bytes of `n`. */
  function ToBe(n: nat, w: nat): (s: bytes)
    ensures |s| == w
  {
    if w == 0 then [] else ToBe(n / 256, w - 1) + [(n % 256) as byte]
  }

  function FromBe(s: bytes): nat {
    if s == [] then 0 else FromBe(s[..|s| - 1]) * 256 + s[|s| - 1] as int
  }

  lemma {:induction false} BeRoundTrip(n: nat, w: nat)
    requires n < Pow256(w)
    ensures FromBe(ToBe(n, w)) == n
  {
    if w > 0 {
      BeRoundTrip(n / 256, w - 1);
      assert ToBe(n, w)[..w - 1] == ToBe(n / 256, w - 1);
    }
  }

  /** Big-endian: the first byte weighs most. */
  lemma FourBytes(s: bytes)
    requires |s| == 4
    ensures FromBe(s) == ((s[0] as int * 256 + s[1] as int) * 256 + s[2] as int) * 256 + s[3] as int
  {
    assert s[..3][..2] == s[..2] && s[..2][..1] == s[..1] && s[..1][..0] == [];
    assert FromBe(s[..1]) == s[0] as int;
    assert FromBe(s[..2]) == FromBe(s[..1]) * 256 + s[1] as int;
    assert FromBe(s[..3]) == FromBe(s[..2]) * 256 + s[2] as int;
  }

  lemma FromBeBound(s: bytes)
    ensures FromBe(s) < Pow256(|s|)
  {
    if s != [] {
      FromBeBound(s[..|s| - 1]);
    }
  }

  lemma Assoc(a: bytes, b: bytes, c: bytes)
    ensures (a + b) + c == a + (b + c)
  {
  }

  lemma Assoc4(a: bytes, b: bytes, c: bytes, d: bytes)
    ensures a + b + c + d == a + (b + c + d)
  {
    Assoc(a, b, c);
    Assoc(a, b + c, d);
  }

  lemma Nothing(a: bytes)
    ensures [] + a == a && a + [] == a
  {
  }

  lemma Halves(a: bytes, b: bytes)
    ensures (a + b)[..|a|] == a && (a + b)[|a|..] == b
  {
  }

  lemma SameFront(s: bytes, more: bytes, lo: nat, hi: nat)
    requires lo <= hi <= |s|
    ensures (s + more)[lo..hi] == s[lo..hi] && (s + more)[..hi] == s[..hi]
  {
  }

  lemma Thirds(a: bytes, b: bytes, c: bytes)
    ensures var t := a + (b + c);
            t[..|a|] == a && t[|a|..|a| + |b|] == b && t[|a| + |b|..] == c
  {
  }

  lemma FrontThen(a: bytes, b: bytes, c: bytes, d: bytes, rest: bytes)
    ensures (a + b + c + d + rest)[..|a|] == a
    ensures (a + b + c + d + rest)[|a|..] == b + c + d + rest
  {
    Assoc4(a, b, c, d);
    Assoc(a, b + c + d, rest);
    Halves(a, b + c + d + rest);
  }

  lemma ThreeParts(b: bytes, c: bytes, d: bytes, rest: bytes)
    ensures var t := b + c + d + rest;
            && t[..|b|] == b && t[|b|..|b| + |c|] == c && t[|b| + |c|..|b| + |c| + |d|] == d
  {
  }

  /** `part` stands in `buf` at `offset`. */
  ghost predicate At(buf: bytes, offset: nat, part: bytes) {
    offset + |part| <= |buf| && forall i {:trigger part[i]} | 0 <= i < |part| :: buf[offset + i] == part[i]
  }

  lemma AtWhole(s: bytes)
    ensures At(s, 0, s)
  {
  }

  lemma AtSplit(buf: bytes, offset: nat, a: bytes, b: bytes)
    requires At(buf, offset, a + b)
    ensures At(buf, offset, a) && At(buf, offset + |a|, b)
  {
    assert forall i | 0 <= i < |a| :: a[i] == (a + b)[i];
    forall i | 0 <= i < |b|
      ensures buf[offset + |a| + i] == b[i]
    {
      assert b[i] == (a + b)[|a| + i];
    }
  }

  lemma AtByte(buf: bytes, offset: nat, part: bytes, i: nat)
    requires At(buf, offset, part) && i < |part|
    ensures buf[offset + i] == part[i]
  {
  }

  lemma AtSlice(buf: bytes, offset: nat, part: bytes)
    requires At(buf, offset, part)
    ensures buf[offset..offset + |part|] == part
  {
  }

  /** Two ways of cutting the same stream, the first cut being the later one. */
  lemma Recut(a: bytes, b: bytes, c: bytes, d: bytes)
    requires a + b == c + d && |c| <= |a|
    ensures a[..|c|] == c && a[|c|..] + b == d
  {
    assert a[..|c|] == (a + b)[..|c|];
    assert a[|c|..] + b == (a + b)[|c|..];
    Halves(c, d);
  }

  /** The byte stream that a sequence of reads delivers. */
  function Flatten(chunks: seq<bytes>): bytes {
    if chunks == [] then [] else chunks[0] + Flatten(chunks[1..])
  }

  lemma {:induction false} FlattenSnoc(chunks: seq<bytes>, c: bytes)
    ensures Flatten(chunks + [c]) == Flatten(chunks) + c
  {
    if chunks == [] {
      assert chunks + [c] == [c];
    } else {
      assert (chunks + [c])[1..] == chunks[1..] + [c];
      FlattenSnoc(chunks[1..], c);
      Assoc(chunks[0], Flatten(chunks[1..]), c);
    }
  }

  lemma FlattenAppend(a: seq<bytes>, b: seq<bytes>)
    ensures Flatten(a + b) == Flatten(a) + Flatten(b)
  {
    if a == [] {
      assert a + b == b;
    } else {
      assert (a + b)[1..] == a[1..] + b;
      FlattenAppend(a[1..], b);
    }
  }
}
