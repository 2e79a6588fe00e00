/**
 The REALITY ServerHello rebuild: the destination's ServerHello (section 4.1.3 of RFC 8446) with the client's
 session id and our key in the X25519 key share (section 4.2.8), everything else kept.
 */
module Reality {
  import opened Bytes

  // ---------------------------------------------------------------- finding the key share

  const X25519: u16 := 0x001d
  const KEY_SHARE: u16 := 0x0033

  function U16At(s: bytes, i: nat): u16
    requires i + 2 <= |s|
  {
    FromU16(s[i], s[i + 1])
  }

  /** The 32 bytes at `w` are preceded by the X25519 group and the length 32. */
  predicate KeyWindow(s: bytes, w: nat) {
    4 <= w && w + 32 <= |s| && s[w - 4] == 0 && s[w - 3] == 0x1d && s[w - 2] == 0 && s[w - 1] == 0x20
  }

  /** The key of the first X25519 entry of a client-style list, from entry offset `k` on. */
  function FindInList(data: bytes, k: nat, end: nat): (w: Option<nat>)
    requires end <= |data|
    ensures w.Some? ==> k + 4 <= w.value && KeyWindow(data, w.value)
    decreases |data| - k
  {
    if k + 4 > end then None
    else
      var len := U16At(data, k + 2) as int;
      if k + 4 + len > |data| then None
      else if U16At(data, k) == X25519 && len == 32 then Some(k + 4)
      else FindInList(data, k + 4 + len, end)
  }

  /** Where the X25519 key stands in a key_share value, as a single entry or in a list. */
  function FindEntry(data: bytes): (w: Option<nat>)
    ensures w.Some? ==> KeyWindow(data, w.value)
  {
    if |data| >= 36 && U16At(data, 0) == X25519 && U16At(data, 2) == 32 then Some(4)
    else if |data| < 2 then None
    else
      var end := 2 + U16At(data, 0) as int;
      FindInList(data, 2, if end <= |data| then end else |data|)
  }

  /** Where the X25519 key stands if the extension at `i` is a key_share that has one. */
  function InExtension(ext: bytes, i: nat): (w: Option<nat>)
    requires i + 4 <= |ext|
    ensures w.Some? ==> i + 8 <= w.value && KeyWindow(ext, w.value)
  {
    var len, v := U16At(ext, i + 2) as int, i + 4;
    if U16At(ext, i) == KEY_SHARE && len >= 4 && v + len <= |ext| then
      var e := FindEntry(ext[v..v + len]);
      if e.Some? then Some(v + e.value) else None
    else None
  }

  /** Where the X25519 key stands in the extensions, from extension offset `i` on. */
  function FindKeyShare(ext: bytes, i: nat): (w: Option<nat>)
    ensures w.Some? ==> i + 8 <= w.value && KeyWindow(ext, w.value)
    decreases |ext| - i
  {
    if i + 4 > |ext| then None
    else if InExtension(ext, i).Some? then InExtension(ext, i)
    else FindKeyShare(ext, i + 4 + U16At(ext, i + 2) as int)
  }

  function Patched(s: bytes, w: nat, key: Bytes32): bytes
    requires w + 32 <= |s|
  {
    s[..w] + key + s[w + 32..]
  }

  // ---------------------------------------------------------------- patching in place

  method CopyKey(a: array<byte>, w: nat, key: Bytes32)
    requires w + 32 <= a.Length
    modifies a
    ensures a[..] == Patched(old(a[..]), w, key)
  {
    forall j | 0 <= j < 32 {
      a[w + j] := key[j];
    }
  }

  /** Patches the client-style list in the key_share value at a[lo..hi]. */
  method PatchList(a: array<byte>, lo: nat, hi: nat, listEnd: nat, key: Bytes32) returns (found: bool)
    requires lo <= hi <= a.Length && listEnd <= hi - lo
    modifies a
    ensures var w := FindInList(old(a[..])[lo..hi], 2, listEnd);
            && found == w.Some?
            && a[..] == if found then Patched(old(a[..]), lo + w.value, key) else old(a[..])
  {
    hide Patched;
    ghost var all, data := a[..], a[..][lo..hi];
    var k := 2;
    while k + 4 <= listEnd
      invariant a[..] == all
      invariant FindInList(data, 2, listEnd) == FindInList(data, k, listEnd)
      decreases hi - k
    {
      var group, keyLen := FromU16(a[lo + k], a[lo + k + 1]), FromU16(a[lo + k + 2], a[lo + k + 3]) as int;
      assert U16At(data, k) == group && U16At(data, k + 2) == keyLen;
      k := k + 4;
      if k + keyLen > hi - lo {
        break;
      }
      if group == X25519 && keyLen == 32 {
        CopyKey(a, lo + k, key);
        return true;
      }
      k := k + keyLen;
    }
    return false;
  }

  /** Patches the key_share value at a[lo..hi]: a single entry as servers send it, else a list. */
  method PatchKeyShareEntries(a: array<byte>, lo: nat, hi: nat, key: Bytes32) returns (found: bool)
    requires lo <= hi <= a.Length
    modifies a
    ensures var w := FindEntry(old(a[..])[lo..hi]);
            && found == w.Some?
            && a[..] == if found then Patched(old(a[..]), lo + w.value, key) else old(a[..])
  {
    hide Patched, FindInList;
    ghost var data := a[..][lo..hi];
    var n := hi - lo;
    if n >= 36 {
      var group, keyLen := FromU16(a[lo], a[lo + 1]), FromU16(a[lo + 2], a[lo + 3]);
      assert U16At(data, 0) == group && U16At(data, 2) == keyLen;
      if group == X25519 && keyLen == 32 && n >= 4 + keyLen {
        CopyKey(a, lo + 4, key);
        return true;
      }
    }
    if n < 2 {
      return false;
    }
    var listLen := FromU16(a[lo], a[lo + 1]) as int;
    assert U16At(data, 0) == listLen;
    found := PatchList(a, lo, hi, if 2 + listLen <= n then 2 + listLen else n, key);
  }

  /** Patches the extension at `i` of type `extType` with a value of `len` bytes, if it is a key_share. */
  method PatchExtension(a: array<byte>, i: nat, extType: u16, len: nat, key: Bytes32) returns (found: bool)
    requires i + 4 <= a.Length && extType == U16At(a[..], i) && len == U16At(a[..], i + 2)
    modifies a
    ensures var w := InExtension(old(a[..]), i);
            && found == w.Some?
            && a[..] == if found then Patched(old(a[..]), w.value, key) else old(a[..])
  {
    hide FindEntry, Patched, KeyWindow;
    found := false;
    if extType == KEY_SHARE && len >= 4 && i + 4 + len <= a.Length {
      found := PatchKeyShareEntries(a, i + 4, i + 4 + len, key);
    }
  }

  method PatchKeyShare(a: array<byte>, key: Bytes32) returns (found: bool)
    modifies a
    ensures var w := FindKeyShare(old(a[..]), 0);
            && found == w.Some?
            && a[..] == if found then Patched(old(a[..]), w.value, key) else old(a[..])
  {
    hide InExtension, Patched, KeyWindow;
    ghost var ext := a[..];
    var i := 0;
    while i + 4 <= a.Length
      invariant a[..] == ext
      invariant FindKeyShare(ext, 0) == FindKeyShare(ext, i)
      decreases a.Length - i
    {
      var extType, len := FromU16(a[i], a[i + 1]), FromU16(a[i + 2], a[i + 3]) as int;
      var done := PatchExtension(a, i, extType, len, key);
      if done {
        return true;
      }
      i := i + 4 + len;
    }
    return false;
  }

  // ---------------------------------------------------------------- the search sees only what precedes the key

  lemma {:induction false} ListStable(a: bytes, b: bytes, k: nat, end: nat, w: nat)
    requires |a| == |b| && end <= |a| && w <= |a| && a[..w] == b[..w]
    requires FindInList(a, k, end) == Some(w)
    ensures FindInList(b, k, end) == Some(w)
    decreases |a| - k
  {
    forall i | 0 <= i < w
      ensures a[i] == b[i]
    {
      assert a[..w][i] == b[..w][i];
    }
    var len := U16At(a, k + 2) as int;
    if !(U16At(a, k) == X25519 && len == 32) {
      ListStable(a, b, k + 4 + len, end, w);
    }
  }

  lemma EntryStable(a: bytes, b: bytes, w: nat)
    requires |a| == |b| && w <= |a| && a[..w] == b[..w] && FindEntry(a) == Some(w)
    ensures FindEntry(b) == Some(w)
  {
    forall i | 0 <= i < w
      ensures a[i] == b[i]
    {
      assert a[..w][i] == b[..w][i];
    }
    if !(|a| >= 36 && U16At(a, 0) == X25519 && U16At(a, 2) == 32) {
      var end := 2 + U16At(a, 0) as int;
      ListStable(a, b, 2, if end <= |a| then end else |a|, w);
    }
  }

  lemma SameSlice(a: bytes, b: bytes, w: nat, lo: nat, hi: nat)
    requires w <= |a| && w <= |b| && a[..w] == b[..w] && lo <= hi <= w
    ensures a[lo..hi] == b[lo..hi]
  {
    assert a[lo..hi] == a[..w][lo..hi];
    assert b[lo..hi] == b[..w][lo..hi];
  }

  lemma ExtensionStable(a: bytes, b: bytes, i: nat, w: nat)
    requires |a| == |b| && i + 8 <= w <= |a| && a[..w] == b[..w]
    requires i + 4 + U16At(a, i + 2) as int <= w || InExtension(a, i) == Some(w)
    ensures InExtension(b, i) == InExtension(a, i) && U16At(b, i + 2) == U16At(a, i + 2) && U16At(b, i) == U16At(a, i)
  {
    hide FindEntry, KeyWindow;
    SameSlice(a, b, w, i, i + 4);
    assert a[i..i + 4][0] == a[i] && a[i..i + 4][1] == a[i + 1];
    assert a[i..i + 4][2] == a[i + 2] && a[i..i + 4][3] == a[i + 3];
    var len, v := U16At(a, i + 2) as int, i + 4;
    if v + len <= w {
      SameSlice(a, b, w, v, v + len);
    } else {
      SameSlice(a, b, w, v, w);
      var x, y := a[v..v + len], b[v..v + len];
      assert x[..w - v] == a[v..w] && y[..w - v] == b[v..w];
      EntryStable(x, y, w - v);
    }
  }

  /** Changing bytes from the key on does not move the key. */
  lemma {:induction false} KeyShareStable(a: bytes, b: bytes, i: nat, w: nat)
    requires |a| == |b| && w <= |a| && a[..w] == b[..w]
    requires FindKeyShare(a, i) == Some(w)
    ensures FindKeyShare(b, i) == Some(w)
    decreases |a| - i
  {
    hide InExtension;
    ExtensionStable(a, b, i, w);
    if InExtension(a, i).None? {
      KeyShareStable(a, b, i + 4 + U16At(a, i + 2) as int, w);
    }
  }

  lemma PatchedParts(s: bytes, w: nat, key: Bytes32)
    requires w + 32 <= |s|
    ensures var p := Patched(s, w, key);
            && |p| == |s| && p[..w] == s[..w] && p[w..w + 32] == key && p[w + 32..] == s[w + 32..]
            && Patched(p, w, key) == p
  {
  }

  // ---------------------------------------------------------------- parsing and rebuilding

  datatype ServerHello = ServerHello(random: Bytes32, cipher: u16, compression: byte, extensions: bytes)

  function ParseServerHelloBody(hs: bytes): (r: Result<ServerHello>)
    ensures r.Ok? ==> |r.value.extensions| < 0x1_0000
  {
    if hs == [] || hs[0] != 2 then Err("not ServerHello handshake")
    else if |hs| <= 38 then Panic
    else
      var i := 39 + hs[38] as int;
      if i + 3 > |hs| then Err("server hello truncated before cipher")
      else if i + 5 > |hs| then Err("server hello missing extensions")
      else
        var extLen := U16At(hs, i + 3) as int;
        if i + 5 + extLen > |hs| then Err("server hello extensions truncated")
        else Ok(ServerHello(hs[6..38], U16At(hs, i), hs[i + 2], hs[i + 5..i + 5 + extLen]))
  }

  predicate Tls13(cipher: u16) {
    cipher == 0x1301 || cipher == 0x1302 || cipher == 0x1303
  }

  /** The handshake message after its 4-byte header. */
  function HelloRest(h: ServerHello, sid: bytes): bytes {
    [3, 3] + h.random + [(|sid| % 256) as byte] + sid
      + (U16(h.cipher) + [h.compression] + U16(|h.extensions| % 0x1_0000) + h.extensions)
  }

  function HelloBody(h: ServerHello, sid: bytes): bytes {
    [2] + ToBe(|HelloRest(h, sid)|, 3) + HelloRest(h, sid)
  }

  function HelloRecord(h: ServerHello, sid: bytes): bytes {
    [0x16, 3, 3] + U16(|HelloBody(h, sid)| % 0x1_0000) + HelloBody(h, sid)
  }

  function Rebuild(record: bytes, sid: bytes, key: Bytes32): Result<(bytes, u16)> {
    if |record| < 5 then Panic
    else
      var h :- ParseServerHelloBody(record[5..]);
      if !Tls13(h.cipher) then Err("dest cipher not TLS1.3")
      else
        var w := FindKeyShare(h.extensions, 0);
        if w.None? then Err("X25519 key_share not found in dest ServerHello")
        else Ok((HelloRecord(h.(extensions := Patched(h.extensions, w.value, key)), sid), h.cipher))
  }

  /** The rebuild runs out of range exactly on records cut before the message, or inside a ServerHello's fixed part. */
  lemma RebuildPanicsExactly(record: bytes, sid: bytes, key: Bytes32)
    ensures Rebuild(record, sid, key).Panic? <==> |record| < 5 || (6 <= |record| <= 43 && record[5] == 2)
  {
  }

  method RebuildServerHello(record: bytes, sid: bytes, key: Bytes32) returns (r: Result<(bytes, u16)>)
    ensures r == Rebuild(record, sid, key)
  {
    if |record| < 5 {
      return Panic;
    }
    var parsed :- ParseServerHelloBody(record[5..]);
    if !Tls13(parsed.cipher) {
      return Err("dest cipher not TLS1.3");
    }
    var ext := new byte[|parsed.extensions|](i requires 0 <= i < |parsed.extensions| => parsed.extensions[i]);
    assert ext[..] == parsed.extensions;
    var found := PatchKeyShare(ext, key);
    if !found {
      return Err("X25519 key_share not found in dest ServerHello");
    }
    var hello := BuildHello(parsed.(extensions := ext[..]), sid);
    return Ok((hello, parsed.cipher));
  }

  /** Appends the message with a placeholder length, then fills the length in. */
  method BuildHello(h: ServerHello, sid: bytes) returns (record: bytes)
    ensures record == HelloRecord(h, sid)
  {
    var rest := [3, 3];
    rest := rest + h.random;
    rest := rest + [(|sid| % 256) as byte];
    rest := rest + sid;
    ghost var front := rest;
    rest := rest + U16(h.cipher);
    rest := rest + [h.compression];
    rest := rest + U16(|h.extensions| % 0x1_0000);
    rest := rest + h.extensions;
    TailGrouped(front, U16(h.cipher), [h.compression], U16(|h.extensions| % 0x1_0000), h.extensions);
    var body := [2] + [0, 0, 0] + rest;
    var bodyLen := |body| - 4;
    body := body[1 := (bodyLen / 0x1_0000 % 256) as byte];
    body := body[2 := (bodyLen / 256 % 256) as byte];
    body := body[3 := (bodyLen % 256) as byte];
    BackPatched(bodyLen, rest);
    record := [0x16, 3, 3];
    record := record + U16(|body| % 0x1_0000);
    record := record + body;
  }

  lemma TailGrouped(a: bytes, b: bytes, c: bytes, d: bytes, e: bytes)
    ensures a + b + c + d + e == a + (b + c + d + e)
  {
    Assoc4(a, b, c, d);
    Assoc(a, b + c + d, e);
  }

  lemma BackPatched(n: nat, rest: bytes)
    ensures ToBe(n, 3) == [(n / 0x1_0000 % 256) as byte, (n / 256 % 256) as byte, (n % 256) as byte]
    ensures ([2] + [0, 0, 0] + rest)[1 := (n / 0x1_0000 % 256) as byte][2 := (n / 256 % 256) as byte]
            [3 := (n % 256) as byte] == [2] + ToBe(n, 3) + rest
  {
    assert n / 256 / 256 == n / 0x1_0000;
    assert ToBe(n / 256 / 256, 1) == [(n / 0x1_0000 % 256) as byte];
    assert ToBe(n / 256, 2) == ToBe(n / 256 / 256, 1) + [(n / 256 % 256) as byte];
  }

  // ---------------------------------------------------------------- what the rebuilt record says

  /** The parts of a ServerHello message at their offsets. */
  ghost predicate Laid(b: bytes, h: ServerHello, sid: bytes) {
    var i := 39 + |sid|;
    && |b| == 44 + |sid| + |h.extensions|
    && b[0] == 2 && At(b, 1, ToBe(|b| - 4, 3))
    && At(b, 6, h.random) && b[38] as int == |sid|
    && At(b, 39, sid) && U16At(b, i) == h.cipher && b[i + 2] == h.compression
    && U16At(b, i + 3) == |h.extensions| && At(b, i + 5, h.extensions)
  }

  lemma HelloLaid(h: ServerHello, sid: bytes)
    requires |sid| < 256 && |h.extensions| < 0x1_0000
    ensures Laid(HelloBody(h, sid), h, sid)
  {
    hide HelloRest, ToBe, At, FromU16;
    var b, rest := HelloBody(h, sid), HelloRest(h, sid);
    AtWhole(b);
    AtSplit(b, 0, [2] + ToBe(|rest|, 3), rest);
    AtSplit(b, 0, [2], ToBe(|rest|, 3));
    AtByte(b, 0, [2], 0);
    RestOffsets(b, h, sid);
  }

  lemma RestOffsets(b: bytes, h: ServerHello, sid: bytes)
    requires |sid| < 256 && |h.extensions| < 0x1_0000 && At(b, 4, HelloRest(h, sid))
    ensures var i := 39 + |sid|;
            && |HelloRest(h, sid)| == 40 + |sid| + |h.extensions|
            && At(b, 6, h.random) && b[38] as int == |sid|
            && At(b, 39, sid) && U16At(b, i) == h.cipher && b[i + 2] == h.compression
            && U16At(b, i + 3) == |h.extensions| && At(b, i + 5, h.extensions)
  {
    hide At, U16, FromU16;
    assert |h.extensions| % 0x1_0000 == |h.extensions| && |sid| % 256 == |sid|;
    var front := [3, 3] + h.random + [(|sid| % 256) as byte];
    var fixed := U16(h.cipher) + [h.compression] + U16(|h.extensions| % 0x1_0000);
    var i := 39 + |sid|;
    AtSplit(b, 4, front + sid, fixed + h.extensions);
    AtSplit(b, 4, front, sid);
    AtSplit(b, 4, [3, 3] + h.random, [(|sid| % 256) as byte]);
    AtSplit(b, 4, [3, 3], h.random);
    AtSplit(b, i, fixed, h.extensions);
    AtByte(b, 38, [(|sid| % 256) as byte], 0);
    FixedOffsets(b, i, h.cipher, h.compression, |h.extensions| % 0x1_0000);
  }

  lemma FixedOffsets(b: bytes, i: nat, cipher: u16, compression: byte, n: u16)
    requires At(b, i, U16(cipher) + [compression] + U16(n))
    ensures U16At(b, i) == cipher && b[i + 2] == compression && U16At(b, i + 3) == n
  {
    var fixed := U16(cipher) + [compression] + U16(n);
    AtByte(b, i, fixed, 0);
    AtByte(b, i, fixed, 1);
    AtByte(b, i, fixed, 2);
    AtByte(b, i, fixed, 3);
    AtByte(b, i, fixed, 4);
  }

  lemma ParseInvertsBuild(h: ServerHello, sid: bytes)
    requires |sid| < 256 && |h.extensions| < 0x1_0000
    ensures ParseServerHelloBody(HelloBody(h, sid)) == Ok(h)
  {
    var b := HelloBody(h, sid);
    HelloLaid(h, sid);
    hide HelloBody, At, FromU16, ToBe;
    AtSlice(b, 6, h.random);
    AtSlice(b, 44 + |sid|, h.extensions);
  }

  ghost predicate OnlyKeyChanged(before: ServerHello, after: ServerHello, key: Bytes32) {
    && var w := FindKeyShare(before.extensions, 0);
    && w.Some? && KeyWindow(before.extensions, w.value)
    && after == before.(extensions := Patched(before.extensions, w.value, key))
  }

  /**
   A successful rebuild keeps random, cipher and compression, carries the client's session id and true lengths,
   and changes the extensions only in one 32-byte window, the first X25519 key share, which now holds our key.
   Rebuilding its result with the same arguments gives it back.
   */
  lemma RebuildFaithful(dest: bytes, sid: bytes, key: Bytes32, record: bytes, cipher: u16)
    requires Rebuild(dest, sid, key) == Ok((record, cipher))
    requires |sid| < 256 && |record| < 5 + 0x1_0000
    ensures |record| >= 49 + |sid| && |dest| >= 5
    ensures var before, after := ParseServerHelloBody(dest[5..]), ParseServerHelloBody(record[5..]);
            && before.Ok? && after.Ok? && cipher == before.value.cipher
            && OnlyKeyChanged(before.value, after.value, key)
    ensures record[..3] == [0x16, 3, 3] && U16At(record, 3) == |record| - 5
    ensures record[5] == 2 && FromBe(record[6..9]) == |record| - 9
    ensures record[43] as int == |sid| && record[44..44 + |sid|] == sid
    ensures Rebuild(record, sid, key) == Ok((record, cipher))
  {
    var h := ParseServerHelloBody(dest[5..]).value;
    var w := FindKeyShare(h.extensions, 0).value;
    var h' := h.(extensions := Patched(h.extensions, w, key));
    PatchedParts(h.extensions, w, key);
    KeyShareStable(h.extensions, h'.extensions, 0, w);
    RecordParts(h', sid);
    ParseInvertsBuild(h', sid);
  }

  lemma RecordParts(h: ServerHello, sid: bytes)
    requires |sid| < 256 && |h.extensions| < 0x1_0000 && |HelloRecord(h, sid)| < 5 + 0x1_0000
    ensures var r := HelloRecord(h, sid);
            && |r| >= 49 + |sid| && r[5..] == HelloBody(h, sid)
            && r[..3] == [0x16, 3, 3] && U16At(r, 3) == |r| - 5
            && r[5] == 2 && FromBe(r[6..9]) == |r| - 9
            && r[43] as int == |sid| && r[44..44 + |sid|] == sid
  {
    var r, b := HelloRecord(h, sid), HelloBody(h, sid);
    HelloLaid(h, sid);
    hide HelloBody, At, ToBe, FromBe;
    RecordOffsets(b);
    AtSlice(b, 1, ToBe(|b| - 4, 3));
    AtSlice(b, 39, sid);
    assert r[6..9] == r[5..][1..4] && r[44..44 + |sid|] == r[5..][39..39 + |sid|];
    assert Pow256(3) == 0x100_0000;
    BeRoundTrip(|b| - 4, 3);
  }

  /** The lengths in a rebuilt record are the true ones exactly if the session id and the record fit them. */
  lemma LengthsTrueExactly(dest: bytes, sid: bytes, key: Bytes32, record: bytes, cipher: u16)
    requires Rebuild(dest, sid, key) == Ok((record, cipher))
    ensures |record| > 43
    ensures U16At(record, 3) == |record| - 5 && record[43] as int == |sid| <==> |record| < 5 + 0x1_0000 && |sid| < 256
  {
    hide HelloRecord, ParseServerHelloBody, FindKeyShare, Patched;
    var h := ParseServerHelloBody(dest[5..]).value;
    var w := FindKeyShare(h.extensions, 0).value;
    RecordLengths(h.(extensions := Patched(h.extensions, w, key)), sid);
  }

  lemma RecordLengths(h: ServerHello, sid: bytes)
    ensures var r := HelloRecord(h, sid);
            |r| > 43 && U16At(r, 3) == (|r| - 5) % 0x1_0000 && r[43] as int == |sid| % 256
  {
  }

  lemma RecordOffsets(b: bytes)
    requires |b| < 0x1_0000
    ensures var r := [0x16, 3, 3] + U16(|b| % 0x1_0000) + b;
            r[5..] == b && r[..3] == [0x16, 3, 3] && U16At(r, 3) == |b|
  {
  }

  // ---------------------------------------------------------------- which hellos are rebuilt

  type Value = s: bytes | |s| < 0x1_0000

  function TwoBytes(n: u16): (s: bytes)
    ensures |s| == 2
  {
    [(n / 256) as byte, (n % 256) as byte]
  }

  datatype Extension = Extension(kind: u16, value: Value)

  function EncodeExtension(e: Extension): bytes {
    TwoBytes(e.kind) + TwoBytes(|e.value|) + e.value
  }

  function EncodeExtensions(es: seq<Extension>): bytes {
    if es == [] then [] else EncodeExtension(es[0]) + EncodeExtensions(es[1..])
  }

  /** One entry of a client's list of key shares. */
  datatype Entry = Entry(group: u16, key: Value)

  function EncodeEntry(e: Entry): bytes {
    TwoBytes(e.group) + TwoBytes(|e.key|) + e.key
  }

  function EncodeEntries(es: seq<Entry>): bytes {
    if es == [] then [] else EncodeEntry(es[0]) + EncodeEntries(es[1..])
  }

  /** A tag, a length and as many bytes, somewhere in a buffer. */
  lemma TaggedAt(buf: bytes, i: nat, tag: u16, value: Value)
    requires At(buf, i, TwoBytes(tag) + TwoBytes(|value|) + value)
    ensures i + 4 + |value| <= |buf| && U16At(buf, i) == tag && U16At(buf, i + 2) == |value|
    ensures buf[i + 4..i + 4 + |value|] == value
  {
    var head := TwoBytes(tag) + TwoBytes(|value|);
    AtSplit(buf, i, head, value);
    AtByte(buf, i, head, 0);
    AtByte(buf, i, head, 1);
    AtByte(buf, i, head, 2);
    AtByte(buf, i, head, 3);
    AtSlice(buf, i + 4, value);
  }

  lemma OtherPassed(ext: bytes, i: nat, e: Extension)
    requires At(ext, i, EncodeExtension(e)) && e.kind != 0x33
    ensures FindKeyShare(ext, i) == FindKeyShare(ext, i + |EncodeExtension(e)|)
  {
    hide At, TwoBytes, U16At, FindEntry;
    TaggedAt(ext, i, e.kind, e.value);
  }

  /** The search passes over extensions of other kinds. */
  lemma {:induction false} OthersPassed(ext: bytes, i: nat, es: seq<Extension>)
    requires At(ext, i, EncodeExtensions(es)) && forall k | 0 <= k < |es| :: es[k].kind != 0x33
    ensures FindKeyShare(ext, i) == FindKeyShare(ext, i + |EncodeExtensions(es)|)
    decreases |es|
  {
    hide At, EncodeExtension, FindKeyShare;
    if es != [] {
      AtSplit(ext, i, EncodeExtension(es[0]), EncodeExtensions(es[1..]));
      OtherPassed(ext, i, es[0]);
      OthersPassed(ext, i + |EncodeExtension(es[0])|, es[1..]);
    }
  }

  lemma ShareFound(ext: bytes, i: nat, value: Value, w: nat)
    requires At(ext, i, EncodeExtension(Extension(0x33, value))) && FindEntry(value) == Some(w)
    ensures FindKeyShare(ext, i) == Some(i + 4 + w)
  {
    hide At, TwoBytes, U16At, FindEntry;
    TaggedAt(ext, i, 0x33, value);
  }

  /** The form that servers send: group, length, share. */
  lemma SingleFound(share: Bytes32, extra: bytes)
    ensures FindEntry([0, 0x1d, 0, 0x20] + share + extra) == Some(4)
  {
  }

  predicate IsX25519(e: Entry) {
    e.group == 0x1d && |e.key| == 32
  }

  lemma EntryPassed(data: bytes, k: nat, e: Entry)
    requires At(data, k, EncodeEntry(e)) && !IsX25519(e)
    ensures FindInList(data, k, |data|) == FindInList(data, k + |EncodeEntry(e)|, |data|)
  {
    hide At, TwoBytes, U16At;
    TaggedAt(data, k, e.group, e.key);
  }

  lemma {:induction false} EntriesPassed(data: bytes, k: nat, es: seq<Entry>)
    requires At(data, k, EncodeEntries(es)) && forall i | 0 <= i < |es| :: !IsX25519(es[i])
    ensures FindInList(data, k, |data|) == FindInList(data, k + |EncodeEntries(es)|, |data|)
    decreases |es|
  {
    hide At, EncodeEntry, FindInList, IsX25519;
    if es != [] {
      AtSplit(data, k, EncodeEntry(es[0]), EncodeEntries(es[1..]));
      EntryPassed(data, k, es[0]);
      EntriesPassed(data, k + |EncodeEntry(es[0])|, es[1..]);
    }
  }

  /** The client's form: a length and entries, of which the first X25519 one counts. */
  lemma ListFound(before: seq<Entry>, share: Bytes32, after: bytes)
    requires forall i | 0 <= i < |before| :: !IsX25519(before[i])
    requires |EncodeEntries(before)| + 36 + |after| < 0x1_0000
    ensures var list := EncodeEntries(before) + ([0, 0x1d, 0, 0x20] + share) + after;
            FindEntry(TwoBytes(|list|) + list) == Some(2 + |EncodeEntries(before)| + 4)
  {
    hide EncodeEntries, At, FindInList, KeyWindow, U16At;
    var first, entry := EncodeEntries(before), [0, 0x1d, 0, 0x20] + share;
    var list := first + entry + after;
    var data := TwoBytes(|list|) + list;
    ListLength(list);
    AtWhole(data);
    AtSplit(data, 0, TwoBytes(|list|), list);
    AtSplit(data, 2, first + entry, after);
    AtSplit(data, 2, first, entry);
    EntriesPassed(data, 2, before);
    EntryFound(data, 2 + |first|, share);
  }

  lemma ListLength(list: Value)
    ensures U16At(TwoBytes(|list|) + list, 0) == |list|
  {
  }

  lemma EntryFound(data: bytes, k: nat, share: Bytes32)
    requires At(data, k, [0, 0x1d, 0, 0x20] + share)
    ensures FindInList(data, k, |data|) == Some(k + 4)
  {
    assert TwoBytes(0x1d) + TwoBytes(32) + share == [0, 0x1d, 0, 0x20] + share;
    hide At, TwoBytes, U16At;
    TaggedAt(data, k, 0x1d, share);
  }

  type Bytes5 = s: bytes | |s| == 5 witness Zeros(5)

  /** All of a destination's record but its extensions: what the source reads, and what it passes over. */
  datatype Dest = Dest(
    recordHead: Bytes5, lead: Bytes5, random: Bytes32, sid: bytes, cipher: u16, compression: byte, rest: bytes)

  /** The message of a destination with these extensions, in bytes, and the record that carries it. */
  function DestMessage(d: Dest, ext: Value): bytes
    requires |d.sid| < 256
  {
    ([2] + d.lead + d.random + [|d.sid| as byte])
      + (d.sid + ((TwoBytes(d.cipher) + [d.compression] + TwoBytes(|ext|)) + (ext + d.rest)))
  }

  function DestRecord(d: Dest, ext: Value): bytes
    requires |d.sid| < 256
  {
    d.recordHead + DestMessage(d, ext)
  }

  lemma MessageAt(d: Dest, ext: Value)
    requires |d.sid| < 256
    ensures var hs, i := DestMessage(d, ext), 39 + |d.sid|;
            && At(hs, 0, [2] + d.lead + d.random + [|d.sid| as byte])
            && At(hs, i, TwoBytes(d.cipher) + [d.compression] + TwoBytes(|ext|)) && At(hs, i + 5, ext)
  {
    hide At, TwoBytes;
    var front := [2] + d.lead + d.random + [|d.sid| as byte];
    var fixed := TwoBytes(d.cipher) + [d.compression] + TwoBytes(|ext|);
    var hs, i := DestMessage(d, ext), 39 + |d.sid|;
    AtWhole(hs);
    AtSplit(hs, 0, front, d.sid + (fixed + (ext + d.rest)));
    AtSplit(hs, 39, d.sid, fixed + (ext + d.rest));
    AtSplit(hs, i, fixed, ext + d.rest);
    AtSplit(hs, i + 5, ext, d.rest);
  }

  lemma MessageLaid(d: Dest, ext: Value)
    requires |d.sid| < 256
    ensures var hs, i := DestMessage(d, ext), 39 + |d.sid|;
            && |hs| >= i + 5 + |ext| && hs[0] == 2 && hs[6..38] == d.random && hs[38] as int == |d.sid|
            && U16At(hs, i) == d.cipher && hs[i + 2] == d.compression && U16At(hs, i + 3) == |ext|
            && hs[i + 5..i + 5 + |ext|] == ext
  {
    hide DestMessage, TwoBytes, U16At;
    var hs, i := DestMessage(d, ext), 39 + |d.sid|;
    MessageAt(d, ext);
    AtSlice(hs, i + 5, ext);
    assert |hs| >= i + 5 + |ext|;
    hide At;
    FrontOffsets(hs, d);
    FixedFive(hs, i, d.cipher, d.compression, |ext|);
  }

  lemma DestParsed(d: Dest, ext: Value)
    requires |d.sid| < 256
    ensures |DestRecord(d, ext)| >= 5
    ensures ParseServerHelloBody(DestRecord(d, ext)[5..]) == Ok(ServerHello(d.random, d.cipher, d.compression, ext))
  {
    hide DestMessage, U16At;
    Halves(d.recordHead, DestMessage(d, ext));
    MessageLaid(d, ext);
  }

  lemma FrontOffsets(hs: bytes, d: Dest)
    requires |d.sid| < 256 && At(hs, 0, [2] + d.lead + d.random + [|d.sid| as byte])
    ensures hs[0] == 2 && hs[6..38] == d.random && hs[38] as int == |d.sid|
  {
    var front := [2] + d.lead + d.random + [|d.sid| as byte];
    AtSlice(hs, 0, front);
    assert front[6..38] == d.random;
    assert hs[6..38] == hs[0..39][6..38];
  }

  lemma FixedFive(b: bytes, i: nat, cipher: u16, compression: byte, n: u16)
    requires At(b, i, TwoBytes(cipher) + [compression] + TwoBytes(n))
    ensures U16At(b, i) == cipher && b[i + 2] == compression && U16At(b, i + 3) == n
  {
    var fixed := TwoBytes(cipher) + [compression] + TwoBytes(n);
    AtByte(b, i, fixed, 0);
    AtByte(b, i, fixed, 1);
    AtByte(b, i, fixed, 2);
    AtByte(b, i, fixed, 3);
    AtByte(b, i, fixed, 4);
  }

  /** Rebuilt exactly for the three TLS 1.3 ciphers, into a record that carries the extensions `ext`. */
  ghost predicate RebuiltWith(d: Dest, sid: bytes, ext: bytes, r: Result<(bytes, u16)>) {
    if 0x1301 <= d.cipher <= 0x1303 then
      r == Ok((HelloRecord(ServerHello(d.random, d.cipher, d.compression, ext), sid), d.cipher))
    else r.Err?
  }

  lemma WindowRebuilt(d: Dest, ext: Value, w: nat, sid: bytes, key: Bytes32)
    requires |d.sid| < 256 && w + 32 <= |ext| && FindKeyShare(ext, 0) == Some(w)
    ensures RebuiltWith(d, sid, Patched(ext, w, key), Rebuild(DestRecord(d, ext), sid, key))
  {
    DestParsed(d, ext);
    hide DestRecord, ParseServerHelloBody, FindKeyShare, Patched, HelloRecord;
  }

  /** The extensions of a hello: others, a key_share with this value, and anything. */
  function WithShare(before: seq<Extension>, value: Value, after: bytes): bytes {
    EncodeExtensions(before) + (EncodeExtension(Extension(0x33, value)) + after)
  }

  lemma ValueRebuilt(
    d: Dest, before: seq<Extension>, front: bytes, share: Bytes32, back: bytes, after: bytes, sid: bytes, key: Bytes32)
    requires |d.sid| < 256 && forall k | 0 <= k < |before| :: before[k].kind != 0x33
    requires |front| + 32 + |back| < 0x1_0000 && FindEntry(front + share + back) == Some(|front|)
    requires |WithShare(before, front + share + back, after)| < 0x1_0000
    ensures RebuiltWith(d, sid, WithShare(before, front + key + back, after),
                        Rebuild(DestRecord(d, WithShare(before, front + share + back, after)), sid, key))
  {
    hide EncodeExtensions, WithShare, FindKeyShare, FindEntry, DestRecord, Rebuild, RebuiltWith, Patched;
    var value := front + share + back;
    ShareInExtensions(before, value, after, |front|);
    PatchedValue(before, front, share, back, after, key);
    WindowRebuilt(d, WithShare(before, value, after), |EncodeExtensions(before)| + 4 + |front|, sid, key);
  }

  lemma ShareInExtensions(before: seq<Extension>, value: Value, after: bytes, w: nat)
    requires FindEntry(value) == Some(w) && forall k | 0 <= k < |before| :: before[k].kind != 0x33
    ensures FindKeyShare(WithShare(before, value, after), 0) == Some(|EncodeExtensions(before)| + 4 + w)
  {
    hide FindKeyShare, FindEntry, At, EncodeExtensions, EncodeExtension, KeyWindow;
    var ext, e := WithShare(before, value, after), EncodeExtension(Extension(0x33, value));
    AtWhole(ext);
    AtSplit(ext, 0, EncodeExtensions(before), e + after);
    AtSplit(ext, |EncodeExtensions(before)|, e, after);
    OthersPassed(ext, 0, before);
    ShareFound(ext, |EncodeExtensions(before)|, value, w);
  }

  lemma PatchedValue(
    before: seq<Extension>, front: bytes, share: Bytes32, back: bytes, after: bytes, key: Bytes32)
    requires |front| + 32 + |back| < 0x1_0000
    ensures var w := |EncodeExtensions(before)| + 4 + |front|;
            var ext := WithShare(before, front + share + back, after);
            w + 32 <= |ext| && Patched(ext, w, key) == WithShare(before, front + key + back, after)
  {
    hide EncodeExtensions, TwoBytes;
    var a := EncodeExtensions(before) + (TwoBytes(0x33) + TwoBytes(|front| + 32 + |back|)) + front;
    assert WithShare(before, front + share + back, after) == a + share + (back + after);
    assert WithShare(before, front + key + back, after) == a + key + (back + after);
  }

  /**
   A hello with the key share in the servers' form is rebuilt exactly for the TLS 1.3 ciphers, with our key in the
   place of the share and every other byte of the extensions kept.
   */
  lemma ServerShareRebuilt(
    d: Dest, before: seq<Extension>, share: Bytes32, extra: bytes, after: bytes, sid: bytes, key: Bytes32)
    requires |d.sid| < 256 && 36 + |extra| < 0x1_0000 && forall k | 0 <= k < |before| :: before[k].kind != 0x33
    requires |WithShare(before, [0, 0x1d, 0, 0x20] + share + extra, after)| < 0x1_0000
    ensures RebuiltWith(d, sid, WithShare(before, [0, 0x1d, 0, 0x20] + key + extra, after),
                        Rebuild(DestRecord(d, WithShare(before, [0, 0x1d, 0, 0x20] + share + extra, after)), sid, key))
  {
    SingleFound(share, extra);
    hide FindEntry, WithShare, DestRecord, Rebuild, RebuiltWith;
    ValueRebuilt(d, before, [0, 0x1d, 0, 0x20], share, extra, after, sid, key);
  }

  /** The front of a list of key shares whose first X25519 share comes after `entries` and before `tail`. */
  function ListFront(entries: seq<Entry>, tail: nat): bytes
    requires |EncodeEntries(entries)| + 36 + tail < 0x1_0000
  {
    TwoBytes(|EncodeEntries(entries)| + 36 + tail) + EncodeEntries(entries) + [0, 0x1d, 0, 0x20]
  }

  /** So is one with a list in the clients' form, at its first X25519 share. */
  lemma ListShareRebuilt(
    d: Dest, before: seq<Extension>, entries: seq<Entry>, share: Bytes32, tail: bytes, after: bytes, sid: bytes,
    key: Bytes32)
    requires |d.sid| < 256 && forall k | 0 <= k < |before| :: before[k].kind != 0x33
    requires forall k | 0 <= k < |entries| :: !IsX25519(entries[k])
    requires |EncodeEntries(entries)| + 38 + |tail| < 0x1_0000
    requires |WithShare(before, ListFront(entries, |tail|) + share + tail, after)| < 0x1_0000
    ensures RebuiltWith(d, sid, WithShare(before, ListFront(entries, |tail|) + key + tail, after),
                        Rebuild(DestRecord(d, WithShare(before, ListFront(entries, |tail|) + share + tail, after)),
                                sid, key))
  {
    ListFound(entries, share, tail);
    ListRegrouped(entries, share, tail);
    hide FindEntry, WithShare, DestRecord, Rebuild, RebuiltWith, EncodeEntries;
    ValueRebuilt(d, before, ListFront(entries, |tail|), share, tail, after, sid, key);
  }

  lemma ListRegrouped(entries: seq<Entry>, share: Bytes32, tail: bytes)
    requires |EncodeEntries(entries)| + 36 + |tail| < 0x1_0000
    ensures var list := EncodeEntries(entries) + ([0, 0x1d, 0, 0x20] + share) + tail;
            TwoBytes(|list|) + list == ListFront(entries, |tail|) + share + tail
  {
    hide EncodeEntries, TwoBytes;
  }

  /** A hello without a key_share is refused. */
  lemma WithoutShareRefused(d: Dest, es: seq<Extension>, sid: bytes, key: Bytes32)
    requires |d.sid| < 256 && |EncodeExtensions(es)| < 0x1_0000
    requires forall k | 0 <= k < |es| :: es[k].kind != 0x33
    ensures Rebuild(DestRecord(d, EncodeExtensions(es)), sid, key).Err?
  {
    hide DestRecord, ParseServerHelloBody, EncodeExtensions, At, InExtension;
    var ext := EncodeExtensions(es);
    assert FindKeyShare(ext, |ext|) == None;
    AtWhole(ext);
    OthersPassed(ext, 0, es);
    DestParsed(d, ext);
  }

  /** A ServerHello from its version on, at offset 9 of a record, in bytes. */
  ghost predicate HelloAt9(r: bytes, h: ServerHello, sid: bytes) {
    var i := 44 + |sid|;
    && |r| == i + 5 + |h.extensions| && r[9..11] == [3, 3]
    && r[11..43] == h.random && r[43] as int == |sid| % 256 && r[44..i] == sid
    && r[i] as int * 256 + r[i + 1] as int == h.cipher && r[i + 2] == h.compression
    && r[i + 3] as int * 256 + r[i + 4] as int == |h.extensions| && r[i + 5..] == h.extensions
  }

  /** A rebuilt record in bytes. */
  lemma RecordOnTheWire(h: ServerHello, sid: bytes)
    requires |h.extensions| < 0x1_0000
    ensures var r := HelloRecord(h, sid);
            && HelloAt9(r, h, sid) && |r| >= 9 && r[..3] == [22, 3, 3] && r[5] == 2
            && r[3] as int * 256 + r[4] as int == (|r| - 5) % 0x1_0000
  {
    hide At, ToBe, U16, HelloRest, HelloAt9;
    var rest, body, r := HelloRest(h, sid), HelloBody(h, sid), HelloRecord(h, sid);
    AtWhole(r);
    AtSplit(r, 0, [0x16, 3, 3] + U16(|body| % 0x1_0000), body);
    AtSplit(r, 5, [2] + ToBe(|rest|, 3), rest);
    HeadBytes(r, |body| % 0x1_0000);
    LeadBytes(r, ToBe(|rest|, 3));
    RestOnTheWire(r, h, sid);
  }

  lemma HeadBytes(r: bytes, n: u16)
    requires At(r, 0, [0x16, 3, 3] + U16(n))
    ensures r[..3] == [22, 3, 3] && r[3] as int * 256 + r[4] as int == n
  {
    AtSlice(r, 0, [0x16, 3, 3] + U16(n));
    assert r[0..5][0] == r[0] && r[0..5][1] == r[1] && r[0..5][2] == r[2] && r[0..5][3] == r[3] && r[0..5][4] == r[4];
  }

  lemma LeadBytes(r: bytes, len: bytes)
    requires |len| == 3 && At(r, 5, [2] + len)
    ensures r[5] == 2
  {
    AtByte(r, 5, [2] + len, 0);
  }

  lemma RestOnTheWire(r: bytes, h: ServerHello, sid: bytes)
    requires |h.extensions| < 0x1_0000 && At(r, 9, HelloRest(h, sid)) && |r| == 9 + |HelloRest(h, sid)|
    ensures HelloAt9(r, h, sid)
  {
    hide At, U16, FromU16;
    var front := [3, 3] + h.random + [(|sid| % 256) as byte];
    var fixed := U16(h.cipher) + [h.compression] + U16(|h.extensions|);
    var i := 44 + |sid|;
    AtSplit(r, 9, front + sid, fixed + h.extensions);
    AtSplit(r, 9, front, sid);
    AtSplit(r, 9, [3, 3] + h.random, [(|sid| % 256) as byte]);
    AtSplit(r, 9, [3, 3], h.random);
    AtSplit(r, i, fixed, h.extensions);
    AtByte(r, 43, [(|sid| % 256) as byte], 0);
    AtSlice(r, 9, [3, 3]);
    AtSlice(r, 11, h.random);
    AtSlice(r, 44, sid);
    AtSlice(r, i + 5, h.extensions);
    FixedBytes(r, i, h.cipher, h.compression, |h.extensions|);
  }

  lemma FixedBytes(r: bytes, i: nat, cipher: u16, compression: byte, n: u16)
    requires At(r, i, U16(cipher) + [compression] + U16(n))
    ensures r[i] as int * 256 + r[i + 1] as int == cipher && r[i + 2] == compression
    ensures r[i + 3] as int * 256 + r[i + 4] as int == n
  {
    FixedOffsets(r, i, cipher, compression, n);
  }
}
