/** XUDP: datagrams with their addresses framed on one stream. */
module Xudp {
  import opened Bytes
  import opened Address

  const STATUS_NEW: byte := 1
  const STATUS_KEEP: byte := 2
  const OPT_DATA: byte := 1
  const NET_UDP: byte := 2

  // ---------------------------------------------------------------- frames

  function EncodeAddress(ip: Ip): bytes {
    [Atyp(ip)] + ip.Octets()
  }

  function Meta(dest: SocketAddr, globalId: Bytes8, isNew: bool): bytes {
    [0, 0, if isNew then STATUS_NEW else STATUS_KEEP, OPT_DATA, NET_UDP]
      + U16(dest.port) + EncodeAddress(dest.ip) + if isNew then globalId else []
  }

  /** `payload.len() as u16` */
  function WireLen(payload: bytes): (n: u16)
    ensures n <= |payload| && (n == |payload| <==> |payload| < 0x1_0000)
  {
    |payload| % 0x1_0000
  }

  function EncodeFrame(payload: bytes, dest: SocketAddr, globalId: Bytes8, isNew: bool): bytes {
    var meta := Meta(dest, globalId, isNew);
    U16(WireLen(meta)) + meta + U16(WireLen(payload)) + payload
  }

  method EncodeXudpFrame(payload: bytes, dest: SocketAddr, globalId: Bytes8, isNew: bool) returns (out: bytes)
    ensures out == EncodeFrame(payload, dest, globalId, isNew)
  {
    var meta := [0, 0];
    meta := meta + [if isNew then STATUS_NEW else STATUS_KEEP];
    meta := meta + [OPT_DATA];
    meta := meta + [NET_UDP];
    assert meta == [0, 0, if isNew then STATUS_NEW else STATUS_KEEP, OPT_DATA, NET_UDP];
    meta := meta + U16(dest.port);
    meta := meta + EncodeAddress(dest.ip);
    if isNew {
      meta := meta + globalId;
    } else {
      assert meta + [] == meta;
    }
    out := U16(WireLen(meta));
    out := out + meta;
    out := out + U16(WireLen(payload));
    out := out + payload;
  }

  function DecodeAddress(utf8: bytes -> bool, buf: bytes): (r: Result<(Host, nat)>)
    ensures r.Ok? ==> r.value.1 <= |buf|
  {
    if buf == [] then Err("empty address")
    else if buf[0] == ATYP_V4 && |buf| >= 5 then Ok((Literal(V4(buf[1..5])), 5))
    else if buf[0] == ATYP_DOMAIN then
      if |buf| < 2 then Panic
      else
        var len := buf[1] as int;
        if |buf| < 2 + len then Err("short domain")
        else if !utf8(buf[2..2 + len]) then Err("invalid utf-8")
        else Ok((Domain(buf[2..2 + len]), 2 + len))
    else if buf[0] == ATYP_V6 && |buf| >= 17 then Ok((Literal(V6(buf[1..17])), 17))
    else Err("bad atyp")
  }

  /** The world outside: which bytes are text, and what names resolve to. */
  datatype Env = Env(utf8: bytes -> bool, resolve: (bytes, u16) -> Option<SocketAddr>)

  datatype Datagram = Datagram(payload: bytes, addr: SocketAddr)

  /** A frame read: a datagram, or nothing when the frame is not UDP; and the stream after it. */
  datatype Read = Read(datagram: Option<Datagram>, rest: bytes)

  function ReadPayload(s: bytes): Result<(bytes, bytes)> {
    if |s| < 2 then Err("unexpected eof")
    else
      var n := FromU16(s[0], s[1]) as int;
      if |s| < 2 + n then Err("unexpected eof") else Ok((s[2..2 + n], s[2 + n..]))
  }

  function Resolve(env: Env, host: Host, port: u16): Result<SocketAddr> {
    match host
    case Literal(ip) => Ok(SocketAddr(ip, port))
    case Domain(name) =>
      var found := env.resolve(name, port);
      if found.Some? then Ok(found.value) else Err("resolve xudp dest")
  }

  function ReadXudpFrame(env: Env, s: bytes): Result<Read> {
    var n := |s|;
    :- Need(n >= 2, "unexpected eof");
    var end := 2 + FromU16(s[0], s[1]) as int;
    :- Need(n >= end, "unexpected eof");
    var meta := s[2..end];
    :- Need(|meta| >= 6, "short xudp meta");
    if meta[4] != NET_UDP then
      var (_, rest) :- ReadPayload(s[end..]);
      Ok(Read(None, rest))
    else
      :- Need(|meta| >= 8, "short xudp header");
      var (host, _) :- DecodeAddress(env.utf8, meta[7..]);
      var (payload, rest) :- ReadPayload(s[end..]);
      var addr :- Resolve(env, host, FromU16(meta[5], meta[6]));
      Ok(Read(Some(Datagram(payload, addr)), rest))
  }

  /** The reader runs out of range exactly on a meta of eight bytes that ends with the type byte of a name. */
  lemma ReadPanicsExactly(env: Env, s: bytes)
    ensures ReadXudpFrame(env, s).Panic?
            <==> |s| >= 10 && FromU16(s[0], s[1]) == 8 && s[6] == NET_UDP && s[9] == ATYP_DOMAIN
  {
  }

  lemma MetaFields(env: Env, dest: SocketAddr, globalId: Bytes8, isNew: bool)
    ensures var m := Meta(dest, globalId, isNew);
            && 12 <= |m| <= 32 && m[4] == NET_UDP && FromU16(m[5], m[6]) == dest.port
            && m[2] == (if isNew then STATUS_NEW else STATUS_KEEP)
            && (isNew ==> m[|m| - 8..] == globalId)
            && DecodeAddress(env.utf8, m[7..]) == Ok((Literal(dest.ip), 1 + |dest.ip.Octets()|))
  {
    var m := Meta(dest, globalId, isNew);
    var tail := if isNew then globalId else [];
    assert m[7..] == EncodeAddress(dest.ip) + tail;
    var octets := dest.ip.Octets();
    assert (EncodeAddress(dest.ip) + tail)[1..1 + |octets|] == octets;
  }

  lemma FrameParts(payload: bytes, dest: SocketAddr, globalId: Bytes8, isNew: bool, rest: bytes)
    ensures var m := Meta(dest, globalId, isNew);
            var s := EncodeFrame(payload, dest, globalId, isNew) + rest;
            |m| < 0x1_0000 ==>
              && |s| >= 2 + |m| && FromU16(s[0], s[1]) == |m| && s[2..2 + |m|] == m
              && s[2 + |m|..] == U16(WireLen(payload)) + payload + rest
  {
    hide Meta, WireLen, U16, FromU16;
    var m := Meta(dest, globalId, isNew);
    SplitFrame(U16(WireLen(m)), m, U16(WireLen(payload)), payload, rest);
  }

  lemma SplitFrame(len: bytes, m: bytes, body: bytes, payload: bytes, rest: bytes)
    requires |len| == 2
    ensures var s := len + m + body + payload + rest;
            s[0] == len[0] && s[1] == len[1] && s[2..2 + |m|] == m && s[2 + |m|..] == body + payload + rest
  {
    var s := len + m + body + payload + rest;
    FrontThen(len, m, body, payload, rest);
    Assoc4(m, body, payload, rest);
    Halves(m, body + payload + rest);
    assert s[2..2 + |m|] == s[2..][..|m|] && s[2 + |m|..] == s[2..][|m|..];
  }

  lemma PayloadRead(payload: bytes, rest: bytes)
    ensures var n := WireLen(payload);
            ReadPayload(U16(n) + payload + rest) == Ok((payload[..n], payload[n..] + rest))
  {
    var n := WireLen(payload);
    var s := U16(n) + payload + rest;
    assert s[2..2 + n] == payload[..n];
    assert s[2 + n..] == payload[n..] + rest;
  }

  /** A frame reads back its target and as much payload as its 16-bit length says. */
  lemma FrameRead(env: Env, payload: bytes, dest: SocketAddr, globalId: Bytes8, isNew: bool, rest: bytes)
    ensures var n := WireLen(payload);
            ReadXudpFrame(env, EncodeFrame(payload, dest, globalId, isNew) + rest)
            == Ok(Read(Some(Datagram(payload[..n], dest)), payload[n..] + rest))
  {
    hide Meta, EncodeFrame, DecodeAddress, FromU16, ReadPayload;
    MetaFields(env, dest, globalId, isNew);
    FrameParts(payload, dest, globalId, isNew, rest);
    PayloadRead(payload, rest);
  }

  /** ... which is the whole payload exactly when it is shorter than 65536 bytes. */
  lemma FrameRoundTrip(env: Env, payload: bytes, dest: SocketAddr, globalId: Bytes8, isNew: bool, rest: bytes)
    ensures var r := ReadXudpFrame(env, EncodeFrame(payload, dest, globalId, isNew) + rest);
            r == Ok(Read(Some(Datagram(payload, dest)), rest)) <==> |payload| < 0x1_0000
  {
    FrameRead(env, payload, dest, globalId, isNew, rest);
    hide ReadXudpFrame, EncodeFrame;
    if |payload| < 0x1_0000 {
      assert payload[..|payload|] == payload && payload[|payload|..] + rest == rest;
    } else {
      assert |payload[..WireLen(payload)]| < |payload|;
    }
  }

  /** A frame of any meta, in bytes. */
  function Framed(meta: bytes, payload: bytes): bytes
    requires |meta| < 0x1_0000 && |payload| < 0x1_0000
  {
    [(|meta| / 256) as byte, (|meta| % 256) as byte] + meta
    + [(|payload| / 256) as byte, (|payload| % 256) as byte] + payload
  }

  lemma FramedParts(meta: bytes, payload: bytes, rest: bytes)
    requires |meta| < 0x1_0000 && |payload| < 0x1_0000
    ensures var s := Framed(meta, payload) + rest;
            && |s| >= 2 + |meta| && FromU16(s[0], s[1]) == |meta| && s[2..2 + |meta|] == meta
            && ReadPayload(s[2 + |meta|..]) == Ok((payload, rest))
  {
    var len, n := [(|meta| / 256) as byte, (|meta| % 256) as byte], U16(|payload|);
    SplitFrame(len, meta, n, payload, rest);
    PayloadRead(payload, rest);
    assert payload[..|payload|] == payload && payload[|payload|..] + rest == rest;
  }

  /** Frames of another network are skipped whole, too short a meta is an error. */
  lemma OtherFrames(env: Env, meta: bytes, payload: bytes, rest: bytes)
    requires |meta| < 0x1_0000 && |payload| < 0x1_0000
    ensures var r := ReadXudpFrame(env, Framed(meta, payload) + rest);
            if |meta| < 6 then r.Err?
            else if meta[4] != 2 then r == Ok(Read(None, rest))
            else |meta| < 8 ==> r.Err?
  {
    FramedParts(meta, payload, rest);
    hide Framed, ReadPayload;
  }

  /** A frame for a name goes to what the name resolves to. */
  lemma NameFrameRead(env: Env, front: Bytes4, port: u16, name: bytes, tail: bytes, payload: bytes, rest: bytes)
    requires |name| < 256 && |tail| < 0x8000 && |payload| < 0x1_0000
    ensures var meta := front + [2, (port / 256) as byte, (port % 256) as byte, 2, |name| as byte] + name + tail;
            ReadXudpFrame(env, Framed(meta, payload) + rest)
            == if !env.utf8(name) then Err("invalid utf-8")
               else if env.resolve(name, port).None? then Err("resolve xudp dest")
               else Ok(Read(Some(Datagram(payload, env.resolve(name, port).value)), rest))
  {
    var meta := front + [2, (port / 256) as byte, (port % 256) as byte, 2, |name| as byte] + name + tail;
    FramedParts(meta, payload, rest);
    assert meta[7..] == [2, |name| as byte] + name + tail;
    assert meta[7..][2..2 + |name|] == name;
    hide Framed, ReadPayload;
  }

  /** A frame in bytes. */
  lemma FrameOnTheWire(payload: bytes, dest: SocketAddr, globalId: Bytes8, isNew: bool)
    ensures var f, ip := EncodeFrame(payload, dest, globalId, isNew), dest.ip.Octets();
            var n := 8 + |ip| + (if isNew then 8 else 0);
            && |f| == 4 + n + |payload| && f[0] as int * 256 + f[1] as int == n
            && f[2..7] == [0, 0, if isNew then 1 else 2, 1, 2]
            && f[7] as int * 256 + f[8] as int == dest.port && f[9] == (if dest.ip.V4? then 1 else 3)
            && f[10..10 + |ip|] == ip && (isNew ==> f[10 + |ip|..2 + n] == globalId)
            && f[2 + n] as int * 256 + f[3 + n] as int == |payload| % 0x1_0000 && f[4 + n..] == payload
  {
    var m := Meta(dest, globalId, isNew);
    MetaOnTheWire(dest, globalId, isNew);
    FrameParts(payload, dest, globalId, isNew, []);
    hide Meta;
    var f := EncodeFrame(payload, dest, globalId, isNew);
    assert f + [] == f;
    assert f[2..2 + |m|] == m;
    assert forall i | 0 <= i < |m| :: f[2 + i] == m[i];
    assert f[2..7] == m[..5];
    assert f[10..10 + |dest.ip.Octets()|] == m[8..8 + |dest.ip.Octets()|];
  }

  lemma MetaOnTheWire(dest: SocketAddr, globalId: Bytes8, isNew: bool)
    ensures var m, ip := Meta(dest, globalId, isNew), dest.ip.Octets();
            && |m| == 8 + |ip| + (if isNew then 8 else 0) && m[..5] == [0, 0, if isNew then 1 else 2, 1, 2]
            && m[5] as int * 256 + m[6] as int == dest.port && m[7] == (if dest.ip.V4? then 1 else 3)
            && m[8..8 + |ip|] == ip && (isNew ==> m[8 + |ip|..] == globalId)
  {
  }

  // ---------------------------------------------------------------- a run of sends

  /** None of the first n sends goes to `addr`. */
  predicate Unseen(addr: SocketAddr, sends: seq<Datagram>, n: nat)
    requires n <= |sends|
  {
    forall j | 0 <= j < n :: sends[j].addr != addr
  }

  /** The i-th send is the first to its target. */
  predicate FirstTo(sends: seq<Datagram>, i: nat)
    requires i < |sends|
  {
    Unseen(sends[i].addr, sends, i)
  }

  lemma UnseenInPrefix(addr: SocketAddr, sends: seq<Datagram>, d: Datagram, n: nat)
    requires n <= |sends|
    ensures Unseen(addr, sends + [d], n) == Unseen(addr, sends, n)
  {
    assert forall j | 0 <= j < n :: (sends + [d])[j] == sends[j];
  }

  /** The frames of a run: only the first to each target is NEW and carries the global id. */
  function Frames(globalId: Bytes8, sends: seq<Datagram>): (fs: seq<bytes>)
    ensures |fs| == |sends|
  {
    seq(|sends|, i requires 0 <= i < |sends| =>
      EncodeFrame(sends[i].payload, sends[i].addr, globalId, FirstTo(sends, i)))
  }

  class XudpWriter {
    const globalId: Bytes8
    var seen: map<SocketAddr, bool>
    var written: bytes
    ghost var sends: seq<Datagram>

    constructor (globalId: Bytes8)
      ensures Valid() && this.globalId == globalId && sends == [] && written == []
    {
      this.globalId, seen, written, sends := globalId, map[], [], [];
    }

    ghost predicate Valid() reads this {
      && written == Flatten(Frames(globalId, sends))
      && (forall a :: a in seen <==> !Unseen(a, sends, |sends|))
    }

    method SendTo(buf: bytes, target: SocketAddr) returns (n: nat)
      requires Valid()
      modifies this
      ensures Valid()
      ensures sends == old(sends) + [Datagram(buf, target)] && n == |buf|
      ensures written == old(written) + EncodeFrame(buf, target, globalId, target !in old(seen))
    {
      hide Frames, EncodeFrame, Unseen, Flatten;
      var isNew := target !in seen;
      if isNew {
        seen := seen[target := true];
      }
      var frame := EncodeXudpFrame(buf, target, globalId, isNew);
      FramesSnoc(globalId, sends, Datagram(buf, target));
      SeenSnoc(sends, Datagram(buf, target));
      written := written + frame;
      sends := sends + [Datagram(buf, target)];
      n := |buf|;
    }
  }

  lemma SeenSnoc(sends: seq<Datagram>, d: Datagram)
    ensures forall a :: Unseen(a, sends + [d], |sends| + 1) <==> a != d.addr && Unseen(a, sends, |sends|)
  {
    forall a
      ensures Unseen(a, sends + [d], |sends| + 1) <==> a != d.addr && Unseen(a, sends, |sends|)
    {
      UnseenInPrefix(a, sends, d, |sends|);
      assert (sends + [d])[|sends|] == d;
    }
  }

  lemma FramesSnoc(globalId: Bytes8, sends: seq<Datagram>, d: Datagram)
    ensures Flatten(Frames(globalId, sends + [d]))
            == Flatten(Frames(globalId, sends))
             + EncodeFrame(d.payload, d.addr, globalId, Unseen(d.addr, sends, |sends|))
  {
    hide EncodeFrame;
    var more := sends + [d];
    var frame := EncodeFrame(d.payload, d.addr, globalId, Unseen(d.addr, sends, |sends|));
    UnseenInPrefix(d.addr, sends, d, |sends|);
    forall i | 0 <= i < |sends|
      ensures Frames(globalId, more)[i] == Frames(globalId, sends)[i]
    {
      UnseenInPrefix(sends[i].addr, sends, d, i);
    }
    assert Frames(globalId, more) == Frames(globalId, sends) + [frame];
    FlattenSnoc(Frames(globalId, sends), frame);
  }

  /** Reading `count` datagrams in a row. */
  function ReadAll(env: Env, s: bytes, count: nat): Result<(seq<Datagram>, bytes)> {
    if count == 0 then Ok(([], s))
    else
      var first :- ReadXudpFrame(env, s);
      if first.datagram.None? then Err("closed")
      else
        var (later, rest) :- ReadAll(env, first.rest, count - 1);
        Ok(([first.datagram.value] + later, rest))
  }

  lemma {:induction false} FramesRead(
    env: Env, globalId: Bytes8, sends: seq<Datagram>, news: seq<bool>, fs: seq<bytes>, rest: bytes)
    requires |fs| == |sends| == |news|
    requires forall i | 0 <= i < |sends| :: |sends[i].payload| < 0x1_0000
    requires forall i | 0 <= i < |sends| ::
               fs[i] == EncodeFrame(sends[i].payload, sends[i].addr, globalId, news[i])
    ensures ReadAll(env, Flatten(fs) + rest, |sends|) == Ok((sends, rest))
    decreases |sends|
  {
    hide EncodeFrame, ReadXudpFrame;
    if sends == [] {
      assert Flatten(fs) + rest == rest;
    } else {
      var tail := Flatten(fs[1..]) + rest;
      Assoc(fs[0], Flatten(fs[1..]), rest);
      FrameRoundTrip(env, sends[0].payload, sends[0].addr, globalId, news[0], tail);
      FramesRead(env, globalId, sends[1..], news[1..], fs[1..], rest);
      assert sends == [sends[0]] + sends[1..];
    }
  }

  /** Whatever is sent comes back, in order, with payloads and addresses. */
  lemma RunRoundTrip(env: Env, globalId: Bytes8, sends: seq<Datagram>, rest: bytes)
    requires forall i | 0 <= i < |sends| :: |sends[i].payload| < 0x1_0000
    ensures ReadAll(env, Flatten(Frames(globalId, sends)) + rest, |sends|) == Ok((sends, rest))
  {
    hide EncodeFrame, ReadAll, Flatten;
    var news := seq(|sends|, i requires 0 <= i < |sends| => FirstTo(sends, i));
    FramesRead(env, globalId, sends, news, Frames(globalId, sends), rest);
  }

  /** The i-th frame is marked NEW exactly if it is the first to its target; only then its meta ends with the id. */
  lemma NewExactlyOnFirst(globalId: Bytes8, sends: seq<Datagram>, i: nat)
    requires i < |sends|
    ensures var f := Frames(globalId, sends)[i];
            var len := FromU16(f[0], f[1]);
            && |f| >= 2 + len && len as int == 8 + |sends[i].addr.ip.Octets()| + (if FirstTo(sends, i) then 8 else 0)
            && (f[4] == STATUS_NEW <==> FirstTo(sends, i))
            && (f[4] == STATUS_NEW ==> f[2 + len - 8..2 + len] == globalId)
  {
    var d, isNew := sends[i], FirstTo(sends, i);
    var m := Meta(d.addr, globalId, isNew);
    MetaFields(Env(b => true, (n, p) => None), d.addr, globalId, isNew);
    FrameParts(d.payload, d.addr, globalId, isNew, []);
    var f := EncodeFrame(d.payload, d.addr, globalId, isNew);
    assert f + [] == f;
    assert f[2..2 + |m|][2] == m[2];
    assert f[2 + |m| - 8..2 + |m|] == f[2..2 + |m|][|m| - 8..];
  }
}
