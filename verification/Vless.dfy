/** The VLESS request: printer, length decision and the reader that collects it from a stream. */
module Vless {
  import opened Bytes
  import opened Address

  const FLOW_VISION := Ascii("xtls-rprx-vision")
  const FLOW_VISION_UDP443 := Ascii("xtls-rprx-vision-udp443")

  // ---------------------------------------------------------------- printer

  /** The add-ons a flow puts into the request; its length byte is the length truncated to 8 bits. */
  function Addons(flow: Option<bytes>): bytes {
    if flow.None? || flow.value == [] then []
    else if flow.value == FLOW_VISION || flow.value == FLOW_VISION_UDP443 then
      [0x0a, (|flow.value| % 256) as byte] + flow.value
    else flow.value
  }

  function Request(uuid: Bytes16, dest: SocketAddr, flow: Option<bytes>, command: byte): bytes {
    var addons := Addons(flow);
    [0] + uuid + [(|addons| % 256) as byte] + addons + [command] + PortFirst(dest)
  }

  method BuildVlessRequest(uuid: Bytes16, dest: SocketAddr, flow: Option<bytes>, command: byte)
    returns (buf: bytes)
    ensures buf == Request(uuid, dest, flow, command)
  {
    buf := [0];
    buf := buf + uuid;
    ghost var head := buf;
    if flow.Some? && flow.value != [] {
      var f := flow.value;
      if f == FLOW_VISION || f == FLOW_VISION_UDP443 {
        var pb := [0x0a, (|f| % 256) as byte] + f;
        buf := buf + [(|pb| % 256) as byte];
        buf := buf + pb;
      } else {
        buf := buf + [(|f| % 256) as byte];
        buf := buf + f;
      }
    } else {
      buf := buf + [0];
      assert buf + Addons(flow) == buf;
    }
    assert buf == head + [(|Addons(flow)| % 256) as byte] + Addons(flow);
    buf := buf + [command];
    var addr := EncodePortFirstSocksaddr(dest);
    buf := buf + addr;
  }

  /** A request in bytes: version, id, add-ons behind their length, command, port, address. */
  lemma RequestOnTheWire(uuid: Bytes16, dest: SocketAddr, flow: Option<bytes>, command: byte)
    ensures var r, a := Request(uuid, dest, flow, command), Addons(flow);
            var k := 18 + |a|;
            && |r| == k + 4 + |dest.ip.Octets()| && r[0] == 0 && r[1..17] == uuid && r[17] as int == |a| % 256
            && r[18..k] == a && r[k] == command && r[k + 1] as int * 256 + r[k + 2] as int == dest.port
            && r[k + 3] == (if dest.ip.V4? then 1 else 3) && r[k + 4..] == dest.ip.Octets()
  {
    var r, a := Request(uuid, dest, flow, command), Addons(flow);
    var front := [0] + uuid + [(|a| % 256) as byte];
    AddressOnTheWire(dest);
    hide Addons, PortFirst;
    var k, address := 18 + |a|, PortFirst(dest);
    Assoc4(front, a, [command], address);
    Assoc(a, [command], address);
    Thirds(front, a, [command] + address);
    SameFront(front, a + ([command] + address), 1, 17);
    IdInFront(uuid, (|a| % 256) as byte);
    CommandThen(r, k, command, address);
  }

  lemma IdInFront(uuid: Bytes16, n: byte)
    ensures var f := [0] + uuid + [n]; f[0] == 0 && f[1..17] == uuid && f[17] == n
  {
  }

  lemma CommandThen(r: bytes, k: nat, command: byte, address: bytes)
    requires k <= |r| && r[k..] == [command] + address && |address| >= 3
    ensures |r| == k + 1 + |address| && r[k] == command
    ensures r[k + 1] == address[0] && r[k + 2] == address[1] && r[k + 3] == address[2] && r[k + 4..] == address[3..]
  {
    var t := [command] + address;
    assert r[k] == t[0] && r[k + 1] == t[1] && r[k + 2] == t[2] && r[k + 3] == t[3];
    assert r[k + 4..] == r[k..][4..] == t[4..] == address[3..];
  }

  /** The add-ons: none, the flow itself, or for the two Vision flows a field with tag 10 around it. */
  lemma AddonsOnTheWire(flow: bytes)
    ensures Addons(None) == [] == Addons(Some([]))
    ensures var vision := flow == Ascii("xtls-rprx-vision") || flow == Ascii("xtls-rprx-vision-udp443");
            Addons(Some(flow)) == if vision then [10, |flow| as byte] + flow else flow
  {
  }

  // ---------------------------------------------------------------- length decision

  /** Undecided, refused, or complete at `len` bytes. */
  datatype Decision = More | Bad(error: string) | Complete(len: nat)

  function VlessRequestLen(buf: bytes): (d: Decision)
    ensures d.Complete? ==> 18 < d.len <= |buf|
  {
    var n := |buf|;
    if n == 0 then More
    else if buf[0] != 0 then Bad("invalid vless version")
    else if n < 18 then More
    else
      var base := 18 + buf[17] as int;
      if n < base + 4 then More
      else
        var start := base + 4;
        match buf[base + 3]
        case 0x01 => if n < start + 4 then More else Complete(start + 4)
        case 0x02 =>
          if n < start + 1 then More
          else if n < start + 1 + buf[start] as int then More
          else Complete(start + 1 + buf[start] as int)
        case 0x03 => if n < start + 16 then More else Complete(start + 16)
        case _ => Bad("unsupported address type")
  }

  /** A decision, once taken, stands however the buffer grows. */
  lemma DecisionStable(buf: bytes, more: bytes)
    ensures VlessRequestLen(buf) != More ==> VlessRequestLen(buf + more) == VlessRequestLen(buf)
  {
  }

  /** 533 bytes always decide: 18 of header, 255 of add-ons, 4 more, and a 255-byte name with its length. */
  lemma AlwaysDecided(buf: bytes)
    requires |buf| >= 533
    ensures VlessRequestLen(buf) != More
  {
  }

  /** ... and 532 bytes need not. */
  lemma UndecidedJustBelow() returns (buf: bytes)
    ensures |buf| == 532 && VlessRequestLen(buf) == More
  {
    buf := Zeros(17) + [255] + Zeros(255) + [1, 0, 0, 2, 255] + Zeros(254);
    assert buf[276] == 2 && buf[277] == 255;
  }

  /** A request (with add-ons that fit their length byte) is complete exactly at its end. */
  lemma RequestDecided(uuid: Bytes16, dest: SocketAddr, flow: Option<bytes>, command: byte, rest: bytes)
    requires |Addons(flow)| < 256
    ensures var r := Request(uuid, dest, flow, command); VlessRequestLen(r + rest) == Complete(|r|)
  {
    var addons := Addons(flow);
    var r := Request(uuid, dest, flow, command);
    assert r == ([0] + uuid + [|addons| as byte]) + (addons + [command] + PortFirst(dest));
    var base := 18 + |addons|;
    assert r[0] == 0 && r[17] as int == |addons|;
    assert r[base + 3] == PortFirst(dest)[2];
  }

  /** Add-ons of 256 bytes or more overflow the length byte, and then the end is never found where it is. */
  lemma DecidedExactlyWhenAddonsFit(uuid: Bytes16, dest: SocketAddr, flow: Option<bytes>, command: byte)
    ensures var r := Request(uuid, dest, flow, command);
            VlessRequestLen(r) == Complete(|r|) <==> |Addons(flow)| < 256
  {
    var addons := Addons(flow);
    var r := Request(uuid, dest, flow, command);
    if |addons| < 256 {
      RequestDecided(uuid, dest, flow, command, []);
      assert r + [] == r;
    } else {
      assert r == ([0] + uuid + [(|addons| % 256) as byte]) + (addons + [command] + PortFirst(dest));
      assert r[17] as int == |addons| % 256;
      assert |addons| >= |addons| % 256 + 256;
    }
  }

  /** A request for a name, which other clients send, is complete exactly at its end as well. */
  lemma NameRequestDecided(uuid: Bytes16, addons: bytes, command: byte, port: Bytes2, name: bytes, rest: bytes, k: nat)
    requires |addons| < 256 && |name| < 256
    requires k <= |NameRequest(uuid, addons, command, port, name)|
    ensures var r := NameRequest(uuid, addons, command, port, name);
            VlessRequestLen(r + rest) == Complete(|r|) && (k < |r| ==> VlessRequestLen(r[..k]) == More)
  {
    var r := NameRequest(uuid, addons, command, port, name);
    var base := 18 + |addons|;
    NameRequestBytes(uuid, addons, command, port, name);
    hide NameRequest;
    assert forall i | 0 <= i < |r| :: (r + rest)[i] == r[i];
    assert forall i | 0 <= i < k :: r[..k][i] == r[i];
  }

  type Bytes2 = s: bytes | |s| == 2 witness [0, 0]

  function NameRequest(uuid: Bytes16, addons: bytes, command: byte, port: Bytes2, name: bytes): bytes
    requires |addons| < 256 && |name| < 256
  {
    [0] + uuid + [|addons| as byte] + addons + [command] + port + [2, |name| as byte] + name
  }

  lemma NameRequestBytes(uuid: Bytes16, addons: bytes, command: byte, port: Bytes2, name: bytes)
    requires |addons| < 256 && |name| < 256
    ensures var r, base := NameRequest(uuid, addons, command, port, name), 18 + |addons|;
            && |r| == base + 5 + |name| && r[0] == 0 && r[17] as int == |addons|
            && r[base + 3] == 2 && r[base + 4] as int == |name|
  {
  }

  /** Another version is refused at the first byte, another address type as soon as its byte is there. */
  lemma OthersRefused(buf: bytes)
    requires buf != []
    ensures buf[0] != 0 ==> VlessRequestLen(buf).Bad?
    ensures buf[0] == 0 && |buf| >= 18 && |buf| >= 22 + buf[17] as int && buf[21 + buf[17] as int] !in {1, 2, 3} ==>
              VlessRequestLen(buf).Bad?
  {
  }

  /** No proper prefix of a request is decided. */
  lemma PrefixUndecided(uuid: Bytes16, dest: SocketAddr, flow: Option<bytes>, command: byte, k: nat)
    requires |Addons(flow)| < 256 && k < |Request(uuid, dest, flow, command)|
    ensures VlessRequestLen(Request(uuid, dest, flow, command)[..k]) == More
  {
    var r := Request(uuid, dest, flow, command);
    RequestDecided(uuid, dest, flow, command, []);
    assert r + [] == r;
    assert r == r[..k] + r[k..];
    DecisionStable(r[..k], r[k..]);
  }

  // ---------------------------------------------------------------- reader

  /** The outcome of reading a request from a stream that delivers `s` and then ends. */
  function ReadOutcome(s: bytes): Result<bytes> {
    match VlessRequestLen(s)
    case More => Err("truncated vless request")
    case Bad(error) => Err(error)
    case Complete(n) => Ok(s[..n])
  }

  /** A request is read back from the front of a stream, and a stream that ends inside it is an error. */
  lemma RequestReadBack(uuid: Bytes16, dest: SocketAddr, flow: Option<bytes>, command: byte, rest: bytes, k: nat)
    requires |Addons(flow)| < 256 && k < |Request(uuid, dest, flow, command)|
    ensures var r := Request(uuid, dest, flow, command);
            ReadOutcome(r + rest) == Ok(r) && ReadOutcome(r[..k]) == Err("truncated vless request")
  {
    var r := Request(uuid, dest, flow, command);
    RequestDecided(uuid, dest, flow, command, rest);
    PrefixUndecided(uuid, dest, flow, command, k);
    Halves(r, rest);
    hide Request, VlessRequestLen;
  }

  /**
   Reads of 1 to 256 bytes, in any cut, end the same way; the size guard never fires.
   */
  method ReadVlessRequest(pieces: seq<bytes>) returns (r: Result<bytes>)
    requires forall i | 0 <= i < |pieces| :: 1 <= |pieces[i]| <= 256
    ensures r == ReadOutcome(Flatten(pieces))
    ensures r != Err("vless request too large")
  {
    var buf: bytes := [];
    var i := 0;
    while true
      invariant 0 <= i <= |pieces|
      invariant buf == Flatten(pieces[..i])
      invariant VlessRequestLen(buf) == More
      decreases |pieces| - i
    {
      Rejoin(pieces, i);
      if i == |pieces| {
        assert buf == Flatten(pieces);
        return Err("truncated vless request");
      }
      if |buf| >= 533 {
        AlwaysDecided(buf);
      }
      buf := buf + pieces[i];
      i := i + 1;
      Rejoin(pieces, i);
      DecisionStable(buf, Flatten(pieces[i..]));
      match VlessRequestLen(buf) {
        case Complete(len) =>
          assert (buf + Flatten(pieces[i..]))[..len] == buf[..len];
          return Ok(buf[..len]);
        case Bad(error) =>
          return Err(error);
        case More =>
      }
      if |buf| > 4096 {
        return Err("vless request too large");
      }
    }
  }

  lemma Rejoin(pieces: seq<bytes>, i: nat)
    requires i <= |pieces|
    ensures Flatten(pieces) == Flatten(pieces[..i]) + Flatten(pieces[i..])
    ensures i < |pieces| ==> Flatten(pieces[..i + 1]) == Flatten(pieces[..i]) + pieces[i]
  {
    assert pieces == pieces[..i] + pieces[i..];
    FlattenAppend(pieces[..i], pieces[i..]);
    if i < |pieces| {
      assert pieces[..i + 1] == pieces[..i] + [pieces[i]];
      FlattenSnoc(pieces[..i], pieces[i]);
    }
  }
}
