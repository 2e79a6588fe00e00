/** Destination addresses as VLESS and VMess headers carry them. */
module Address {
  import opened Bytes

  const ATYP_V4: byte := 0x01
  const ATYP_DOMAIN: byte := 0x02
  const ATYP_V6: byte := 0x03

  /** A destination host as read from the wire, before it is resolved. */
  datatype Host = Literal(ip: Ip) | Domain(name: bytes)

  function Atyp(ip: Ip): byte {
    if ip.V4? then ATYP_V4 else ATYP_V6
  }

  function PortFirst(dest: SocketAddr): bytes {
    U16(dest.port) + ([Atyp(dest.ip)] + dest.ip.Octets())
  }

  method EncodePortFirstSocksaddr(dest: SocketAddr) returns (buf: bytes)
    ensures buf == PortFirst(dest)
  {
    buf := [];
    buf := buf + U16(dest.port);
    assert buf == U16(dest.port);
    match dest.ip {
      case V4(octets) =>
        Assoc(buf, [ATYP_V4], octets);
        buf := buf + [ATYP_V4];
        buf := buf + octets;
      case V6(octets) =>
        Assoc(buf, [ATYP_V6], octets);
        buf := buf + [ATYP_V6];
        buf := buf + octets;
    }
  }

  /** The host at the front of `data` and how many bytes it takes; `utf8` says which bytes are text. */
  function ReadAddress(utf8: bytes -> bool, data: bytes, atyp: byte): (r: Result<(Host, nat)>)
    ensures r.Ok? ==> r.value.1 <= |data|
    ensures !r.Panic?
  {
    if atyp == ATYP_V4 then
      if |data| < 4 then Err("truncated ipv4") else Ok((Literal(V4(data[..4])), 4))
    else if atyp == ATYP_DOMAIN then
      if data == [] then Err("truncated domain")
      else
        var len := data[0] as int;
        if |data| < 1 + len then Err("truncated domain name")
        else if !utf8(data[1..1 + len]) then Err("invalid utf-8")
        else Ok((Domain(data[1..1 + len]), 1 + len))
    else if atyp == ATYP_V6 then
      if |data| < 16 then Err("truncated ipv6") else Ok((Literal(V6(data[..16])), 16))
    else Err("unsupported address type")
  }

  /** An address in bytes: port, type, octets. */
  lemma AddressOnTheWire(dest: SocketAddr)
    ensures var a := PortFirst(dest);
            && |a| == 3 + |dest.ip.Octets()| && a[0] as int * 256 + a[1] as int == dest.port
            && a[2] == (if dest.ip.V4? then 1 else 3) && a[3..] == dest.ip.Octets()
  {
  }

  /** A name behind its length is read as that name if it is text, and refused if it is not or is cut off. */
  lemma NameRead(utf8: bytes -> bool, name: bytes, rest: bytes, n: nat)
    requires |name| < 256 && n <= |name|
    ensures var whole := [|name| as byte] + name + rest;
            ReadAddress(utf8, whole, 2)
            == if utf8(name) then Ok((Domain(name), 1 + |name|)) else Err("invalid utf-8")
    ensures ReadAddress(utf8, [], 2).Err? && (n < |name| ==> ReadAddress(utf8, [|name| as byte] + name[..n], 2).Err?)
  {
    var whole := [|name| as byte] + name + rest;
    assert whole[1..1 + |name|] == name;
  }

  /** An address cut off, or of another type, is refused. */
  lemma OtherAddressesRefused(utf8: bytes -> bool, data: bytes, atyp: byte)
    ensures (atyp == 1 && |data| < 4) || (atyp == 3 && |data| < 16) || atyp !in {1, 2, 3} ==>
              ReadAddress(utf8, data, atyp).Err?
  {
  }

  /** What the writer puts after the port, the reader gives back. */
  lemma ReadBack(utf8: bytes -> bool, ip: Ip, rest: bytes)
    ensures ReadAddress(utf8, ip.Octets() + rest, Atyp(ip)) == Ok((Literal(ip), |ip.Octets()|))
  {
    Halves(ip.Octets(), rest);
  }
}
