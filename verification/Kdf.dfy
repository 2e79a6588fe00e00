/**
 The VMess key derivation: HMAC (section 2 of RFC 2104) nested along a key path, computed by a tower of
 stateful hash objects each built from two objects of the level below. SHA-256 is any function to 32 bytes.
 */
module Kdf {
  import opened Bytes
  import Bits

  type Digest = bytes -> Bytes32

  /** How to make a hash object: plain SHA-256, or HMAC under `key` over the parent's hash. */
  datatype Factory = Sha256 | Hmac(key: bytes, parent: Factory)

  function Xor(a: byte, b: byte): byte {
    ByteXor(a, b);
    Bits.Xor(a as int, b as int) as byte
  }

  lemma ByteXor(a: byte, b: byte)
    ensures Bits.Xor(a as int, b as int) < 256
  {
    assert Bits.Pow2(8) == 256;
    Bits.XorBound(a as int, b as int, 8);
  }

  /** Each binary digit of the result is one exactly where those of the two bytes differ; the digits spell it. */
  lemma XorIsBitwise(a: byte, b: byte, j: nat)
    ensures Bits.Digit(Xor(a, b) as int, j)
            == if Bits.Digit(a as int, j) == Bits.Digit(b as int, j) then 0 else 1
    ensures Bits.Spelt(Xor(a, b) as int, 8) == Xor(a, b) as int
  {
    Bits.XorDigits(a as int, b as int, j);
    assert Bits.Pow2(8) == 256;
    Bits.DigitsSpell(Xor(a, b) as int, 8);
  }

  lemma XorCancels(mask: byte, a: byte, b: byte)
    ensures Xor(mask, a) == Xor(mask, b) ==> a == b
  {
    Bits.XorTwice(mask as int, a as int);
    Bits.XorTwice(mask as int, b as int);
  }

  const IPAD: byte := 0x36
  const OPAD: byte := 0x5c

  /** The key, hashed if longer than a block, filled up with zeros to a block. */
  function KeyBlock(sha: Digest, key: bytes): (k: bytes)
    ensures |k| == 64
  {
    var short: bytes := if |key| > 64 then sha(key) else key;
    short + Zeros(64 - |short|)
  }

  /** K XOR ipad, K XOR opad. */
  function Padded(sha: Digest, key: bytes, pad: byte): (p: bytes)
    ensures |p| == 64
  {
    seq(64, i requires 0 <= i < 64 => Xor(pad, KeyBlock(sha, key)[i]))
  }

  /**
   `pad` is a 64-byte block of `mask`, with the key xored into its front; a key longer than the block counts by its
   hash (section 2 of RFC 2104).
   */
  ghost predicate IsPad(sha: Digest, key: bytes, mask: byte, pad: bytes) {
    var k: bytes := if |key| > 64 then sha(key) else key;
    && |pad| == 64
    && forall i | 0 <= i < 64 :: pad[i] == if i < |k| then Xor(mask, k[i]) else mask
  }

  lemma PaddedIsPad(sha: Digest, key: bytes, pad: byte)
    ensures IsPad(sha, key, pad, Padded(sha, key, pad))
  {
    hide Xor;
    XorZero(pad);
  }

  /** There is only one such pad, and different keys of one length have different ones. */
  lemma PadsTellKeysApart(sha: Digest, a: bytes, b: bytes, mask: byte, p: bytes, q: bytes)
    requires |a| == |b| <= 64 && IsPad(sha, a, mask, p) && IsPad(sha, b, mask, q)
    ensures p == q <==> a == b
  {
    hide Xor;
    if p == q {
      forall i | 0 <= i < |a| ensures a[i] == b[i] {
        XorCancels(mask, a[i], b[i]);
        assert p[i] == q[i];
      }
    }
  }

  /** The hash a factory's objects compute. */
  function Compute(sha: Digest, f: Factory, m: bytes): Bytes32 {
    match f
    case Sha256 => sha(m)
    case Hmac(key, parent) =>
      Compute(sha, parent, Padded(sha, key, OPAD) + Compute(sha, parent, Padded(sha, key, IPAD) + m))
  }

  lemma XorZero(a: byte)
    ensures Xor(a, 0) == a
  {
    Bits.XorZero(a as int);
  }

  method IpadOpad(sha: Digest, key: bytes) returns (ipad: bytes, opad: bytes)
    ensures IsPad(sha, key, 0x36, ipad) && IsPad(sha, key, 0x5c, opad)
    ensures ipad == Padded(sha, key, IPAD) && opad == Padded(sha, key, OPAD)
  {
    hide Xor;
    ipad, opad := seq(64, i => IPAD), seq(64, i => OPAD);
    var keyBlock: bytes := if |key| > 64 then sha(key) else key;
    for i := 0 to |keyBlock|
      invariant |ipad| == |opad| == 64
      invariant forall j | 0 <= j < i :: ipad[j] == Xor(IPAD, keyBlock[j]) && opad[j] == Xor(OPAD, keyBlock[j])
      invariant forall j | i <= j < 64 :: ipad[j] == IPAD && opad[j] == OPAD
    {
      ipad := ipad[i := Xor(ipad[i], keyBlock[i])];
      opad := opad[i := Xor(opad[i], keyBlock[i])];
    }
    XorZero(IPAD);
    XorZero(OPAD);
  }

  /** A running hash: SHA-256 with its input so far, or HMAC with its two hashes of the level below. */
  class HashState {
    const sha: Digest
    const factory: Factory
    var absorbed: bytes
    var opad: bytes
    var inner: HashState?
    var outer: HashState?
    ghost var Message: bytes  // the bytes taken in since the last reset
    ghost var Repr: set<object>

    ghost predicate Valid()
      reads this, Repr
      ensures Valid() ==> this in Repr
      decreases factory, 1
    {
      && this in Repr
      && (factory.Hmac? ==>
            && inner != null && outer != null
            && Below(inner) && Below(outer) && inner.Repr !! outer.Repr
            && opad == Padded(sha, factory.key, OPAD)
            && inner.Message == Padded(sha, factory.key, IPAD) + Message
            && outer.Message == [])
      && (factory.Sha256? ==> Message == absorbed)
    }

    ghost predicate Below(h: HashState)
      reads this, Repr
      requires factory.Hmac? && this in Repr
      decreases factory, 0
    {
      && h in Repr && h.Repr <= Repr && this !in h.Repr
      && h.sha == sha && h.factory == factory.parent
      && h.Valid()
    }

    constructor (sha: Digest, factory: Factory)
      ensures Valid() && fresh(Repr)
      ensures this.sha == sha && this.factory == factory && Message == []
      decreases factory, 1
    {
      this.sha, this.factory := sha, factory;
      absorbed, opad, Message := [], [], [];
      if factory.Hmac? {
        var ip, op := IpadOpad(sha, factory.key);
        var i, o := NewMac(sha, factory.parent, ip);
        inner, outer, opad, Repr := i, o, op, {this} + i.Repr + o.Repr;
      } else {
        inner, outer, Repr := null, null, {this};
      }
    }

    static method NewMac(sha: Digest, parent: Factory, ipad: bytes) returns (inner: HashState, outer: HashState)
      ensures inner.Valid() && fresh(inner.Repr) && outer.Valid() && fresh(outer.Repr) && inner.Repr !! outer.Repr
      ensures inner.sha == outer.sha == sha && inner.factory == outer.factory == parent
      ensures inner.Message == ipad && outer.Message == []
      decreases parent, 2
    {
      inner := new HashState(sha, parent);
      inner.Reset();
      inner.Update(ipad);
      outer := new HashState(sha, parent);
      outer.Reset();
    }

    /** Installs a new mac; whoever called still has the old one. */
    method Renew()
      requires Valid() && factory.Hmac?
      modifies this
      ensures Valid() && fresh(Repr - {this}) && Message == []
      decreases factory, 0
    {
      hide Padded, IsPad, Compute;
      var ip, op := IpadOpad(sha, factory.key);
      inner, outer := NewMac(sha, factory.parent, ip);
      opad, Repr, Message := op, {this} + inner.Repr + outer.Repr, [];
    }

    method Reset()
      requires Valid()
      modifies Repr
      ensures Valid() && fresh(Repr - old(Repr))
      ensures Message == []
      decreases factory, 1
    {
      if factory.Hmac? {
        Renew();
      } else {
        absorbed, Message := [], [];
      }
    }

    method Update(data: bytes)
      requires Valid()
      modifies Repr
      ensures Valid() && fresh(Repr - old(Repr))
      ensures Message == old(Message) + data
      decreases factory, 0
    {
      if factory.Hmac? {
        inner.Update(data);
        Repr := Repr + inner.Repr;
      } else {
        absorbed := absorbed + data;
      }
      Message := Message + data;
    }

    /** Returns the hash of the bytes taken in and starts afresh. */
    method Finalize() returns (digest: Bytes32)
      requires Valid()
      modifies Repr
      ensures Valid() && fresh(Repr - old(Repr))
      ensures digest == Compute(sha, factory, old(Message))
      ensures Message == []
      decreases factory, 1
    {
      if factory.Hmac? {
        var macInner, macOuter, macOpad := inner, outer, opad;
        Renew();
        digest := Sum(macInner, macOuter, macOpad);
      } else {
        digest := sha(absorbed);
        absorbed, Message := [], [];
      }
    }

    static method Sum(inner: HashState, outer: HashState, opad: bytes) returns (digest: Bytes32)
      requires inner.Valid() && outer.Valid() && inner.Repr !! outer.Repr
      requires inner.sha == outer.sha && inner.factory == outer.factory
      modifies inner.Repr, outer.Repr
      ensures digest == Compute(outer.sha, outer.factory,
                                opad + old(Compute(inner.sha, inner.factory, inner.Message)))
      decreases inner.factory, 2
    {
      var innerDigest := inner.Finalize();
      outer.Reset();
      outer.Update(opad);
      outer.Update(innerDigest);
      assert outer.Message == opad + innerDigest;
      digest := outer.Finalize();
    }
  }

  /** Hashing a message piece by piece, in any pieces: the result is that of the whole, and the object is as new. */
  method HashPieces(h: HashState, pieces: seq<bytes>) returns (digest: Bytes32)
    requires h.Valid()
    modifies h.Repr
    ensures h.Valid() && fresh(h.Repr - old(h.Repr)) && h.Message == []
    ensures digest == Compute(h.sha, h.factory, Flatten(pieces))
  {
    h.Reset();
    for i := 0 to |pieces|
      invariant h.Valid() && fresh(h.Repr - old(h.Repr))
      invariant h.Message == Flatten(pieces[..i])
    {
      FlattenSnoc(pieces[..i], pieces[i]);
      assert pieces[..i + 1] == pieces[..i] + [pieces[i]];
      h.Update(pieces[i]);
    }
    assert pieces[..|pieces|] == pieces;
    digest := h.Finalize();
  }

  const KDF_ROOT: bytes := Ascii("VMess AEAD KDF")

  /** The factory for a key path: one HMAC level per key over the root level. */
  function Chain(path: seq<bytes>): Factory {
    if path == [] then Hmac(KDF_ROOT, Sha256) else Hmac(path[|path| - 1], Chain(path[..|path| - 1]))
  }

  function KdfOf(sha: Digest, key: bytes, path: seq<bytes>): Bytes32 {
    Compute(sha, Chain(path), key)
  }

  method BuildKdfChain(path: seq<bytes>) returns (f: Factory)
    ensures f == Chain(path)
  {
    f := Hmac(KDF_ROOT, Sha256);
    for i := 0 to |path|
      invariant f == Chain(path[..i])
    {
      assert path[..i + 1][..i] == path[..i];
      f := Hmac(path[i], f);
    }
    assert path[..|path|] == path;
  }

  method VmessAeadKdf(sha: Digest, key: bytes, path: seq<bytes>) returns (digest: Bytes32)
    ensures digest == KdfOf(sha, key, path)
  {
    var f := BuildKdfChain(path);
    var h := new HashState(sha, f);
    h.Reset();
    h.Update(key);
    assert h.Message == key;
    digest := h.Finalize();
  }

  lemma PadsAre(sha: Digest, key: bytes, ipad: bytes, opad: bytes)
    requires IsPad(sha, key, 0x36, ipad) && IsPad(sha, key, 0x5c, opad)
    ensures ipad == Padded(sha, key, IPAD) && opad == Padded(sha, key, OPAD)
  {
    hide Padded;
    PaddedIsPad(sha, key, IPAD);
    PaddedIsPad(sha, key, OPAD);
  }

  /** The empty path: HMAC over SHA-256 under the fixed root key. */
  lemma KdfRoot(sha: Digest, m: bytes, ipad: bytes, opad: bytes)
    requires IsPad(sha, Ascii("VMess AEAD KDF"), 0x36, ipad) && IsPad(sha, Ascii("VMess AEAD KDF"), 0x5c, opad)
    ensures KdfOf(sha, m, []) == sha(opad + sha(ipad + m))
  {
    hide IsPad, Padded;
    PadsAre(sha, KDF_ROOT, ipad, opad);
    assert Compute(sha, Sha256, ipad + m) == sha(ipad + m);
    assert Compute(sha, Sha256, opad + sha(ipad + m)) == sha(opad + sha(ipad + m));
    assert Chain([]) == Hmac(KDF_ROOT, Sha256);
  }

  /** Level i of the derivation in terms of level i - 1, as HMAC prescribes. */
  lemma KdfLevel(sha: Digest, m: bytes, path: seq<bytes>, p: bytes, ipad: bytes, opad: bytes)
    requires IsPad(sha, p, 0x36, ipad) && IsPad(sha, p, 0x5c, opad)
    ensures KdfOf(sha, m, path + [p]) == KdfOf(sha, opad + KdfOf(sha, ipad + m, path), path)
  {
    hide IsPad, Padded;
    PadsAre(sha, p, ipad, opad);
    assert (path + [p])[..|path|] == path;
  }
}
