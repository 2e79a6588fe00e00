/** The VMess AEAD request: header printer and parser, and the sealed handshake that carries the header. */
module VmessHeader {
  import opened Bytes
  import Bits
  import opened Address
  import opened Kdf

  const KDF_AUTH_ID := Ascii("AES Auth ID Encryption")
  const KDF_HDR_LEN_KEY := Ascii("VMess Header AEAD Key_Length")
  const KDF_HDR_LEN_IV := Ascii("VMess Header AEAD Nonce_Length")
  const KDF_HDR_KEY := Ascii("VMess Header AEAD Key")
  const KDF_HDR_IV := Ascii("VMess Header AEAD Nonce")
  const CMD_KEY_SALT := Ascii("c48619fe-8f02-49e0-b9e9-edf763e17e21")

  const SECURITY_NONE: byte := 5
  const CMD_TCP: byte := 1

  /** The primitives, as functions of which only `Lawful` is known. */
  datatype Crypto = Crypto(
    sha: Digest,
    md5: bytes -> Bytes16,
    crc32: bytes -> u32,
    encrypt: (Bytes16, Bytes16) -> Bytes16,
    decrypt: (Bytes16, Bytes16) -> Bytes16,
    seal: (bytes, bytes, bytes, bytes) -> bytes,
    open: (bytes, bytes, bytes, bytes) -> Option<bytes>
  ) {
    /** Decryption undoes encryption; a sealed text opens under the same key, nonce and data, and is 16 bytes longer. */
    ghost predicate Lawful() {
      && (forall k, b :: decrypt(k, encrypt(k, b)) == b)
      && (forall k, n, p, a :: open(k, n, seal(k, n, p, a), a) == Some(p))
      && (forall k, n, p, a :: |seal(k, n, p, a)| == |p| + 16)
    }

    function Key(key: bytes, path: seq<bytes>): (k: bytes)
      ensures |k| == 16
    {
      KdfOf(sha, key, path)[..16]
    }

    function Nonce(key: bytes, path: seq<bytes>): (n: bytes)
      ensures |n| == 12
    {
      KdfOf(sha, key, path)[..12]
    }
  }

  // ---------------------------------------------------------------- checksum

  const FNV_BASIS: u32 := 0x811c9dc5

  function FnvStep(hash: u32, b: byte): u32 {
    (Bits.Xor(hash, b as int) * 0x01000193) % 0x1_0000_0000
  }

  function Fnv(data: bytes): u32 {
    if data == [] then FNV_BASIS else FnvStep(Fnv(data[..|data| - 1]), data[|data| - 1])
  }

  method Fnv1a32(data: bytes) returns (hash: u32)
    ensures hash == Fnv(data)
  {
    hash := FNV_BASIS;
    for i := 0 to |data|
      invariant hash == Fnv(data[..i])
    {
      assert data[..i + 1][..i] == data[..i];
      hash := FnvStep(hash, data[i]);
    }
    assert data[..|data|] == data;
  }

  /** FNV-1a over 32 bits: from the offset basis, each byte is xored in and the sum multiplied by the prime. */
  lemma FnvByByte(data: bytes, b: byte)
    ensures Fnv([]) == 2166136261
    ensures Fnv(data + [b]) == Bits.Xor(Fnv(data), b as int) * 16777619 % 4294967296
  {
    assert (data + [b])[..|data|] == data;
  }

  // ---------------------------------------------------------------- header

  /** What a request asks for; `option` is whatever byte the header carries. */
  datatype Request = Request(host: Host, port: u16, key: Bytes16, nonce: Bytes16, response: byte, option: byte)

  function Fixed(key: Bytes16, nonce: Bytes16, response: byte, padding: nat, command: byte): (f: bytes)
    requires padding < 16
    ensures |f| == 38
  {
    [1] + nonce + key + [response, 0, (padding * 16 + SECURITY_NONE as int) as byte, 0, command]
  }

  function Body(key: Bytes16, nonce: Bytes16, response: byte, dest: SocketAddr, command: byte, padding: nat): bytes
    requires padding < 16
  {
    Fixed(key, nonce, response, padding, command) + (PortFirst(dest) + Zeros(padding))
  }

  function Header(key: Bytes16, nonce: Bytes16, response: byte, dest: SocketAddr, command: byte, padding: nat): bytes
    requires padding < 16
  {
    var body := Body(key, nonce, response, dest, command, padding);
    body + ToBe(Fnv(body), 4)
  }

  method EncodeHeader(key: Bytes16, nonce: Bytes16, response: byte, dest: SocketAddr, command: byte, random: byte)
    returns (header: bytes)
    ensures header == Header(key, nonce, response, dest, command, random as int % 16)
  {
    var padding := random as int % 16;
    header := [1];
    header := header + nonce;
    header := header + key;
    header := header + [response, 0, (padding * 16 + SECURITY_NONE as int) as byte, 0, command];
    ghost var fixed := header;
    var addr := EncodePortFirstSocksaddr(dest);
    Assoc(fixed, addr, Zeros(padding));
    header := header + addr;
    header := header + Zeros(padding);
    var checksum := Fnv1a32(header);
    header := header + ToBe(checksum, 4);
  }

  /** A header in bytes. */
  lemma HeaderOnTheWire(key: Bytes16, nonce: Bytes16, response: byte, dest: SocketAddr, command: byte, padding: nat)
    requires padding < 16
    ensures var h, ip := Header(key, nonce, response, dest, command, padding), dest.ip.Octets();
            var end := 41 + |ip|;
            && |h| == end + padding + 4 && h[0] == 1 && h[1..17] == nonce && h[17..33] == key
            && h[33..38] == [response, 0, (padding * 16 + 5) as byte, 0, command]
            && h[38] as int * 256 + h[39] as int == dest.port && h[40] == (if dest.ip.V4? then 1 else 3)
            && h[41..end] == ip && h[end..end + padding] == Zeros(padding)
            && FromBe(h[end + padding..]) == Fnv(h[..end + padding])
  {
    var body := Body(key, nonce, response, dest, command, padding);
    var h := Header(key, nonce, response, dest, command, padding);
    BodyOnTheWire(key, nonce, response, dest, command, padding);
    hide Body, Fnv, FromBe, ToBe;
    Halves(body, ToBe(Fnv(body), 4));
    assert Pow256(4) == 0x1_0000_0000;
    BeRoundTrip(Fnv(body), 4);
    var end := 41 + |dest.ip.Octets()|;
    SameFront(body, ToBe(Fnv(body), 4), 1, 17);
    SameFront(body, ToBe(Fnv(body), 4), 17, 33);
    SameFront(body, ToBe(Fnv(body), 4), 33, 38);
    SameFront(body, ToBe(Fnv(body), 4), 41, end);
    SameFront(body, ToBe(Fnv(body), 4), end, end + padding);
  }

  lemma BodyOnTheWire(key: Bytes16, nonce: Bytes16, response: byte, dest: SocketAddr, command: byte, padding: nat)
    requires padding < 16
    ensures var h, ip := Body(key, nonce, response, dest, command, padding), dest.ip.Octets();
            var end := 41 + |ip|;
            && |h| == end + padding && h[0] == 1 && h[1..17] == nonce && h[17..33] == key
            && h[33..38] == [response, 0, (padding * 16 + 5) as byte, 0, command]
            && h[38] as int * 256 + h[39] as int == dest.port && h[40] == (if dest.ip.V4? then 1 else 3)
            && h[41..end] == ip && h[end..] == Zeros(padding)
  {
    var h, f := Body(key, nonce, response, dest, command, padding), Fixed(key, nonce, response, padding, command);
    var a, ip := PortFirst(dest), dest.ip.Octets();
    assert f[1..17] == nonce && f[17..33] == key;
    assert f[33..38] == [response, 0, (padding * 16 + 5) as byte, 0, command];
    AddressOnTheWire(dest);
    hide Fixed, PortFirst;
    SameFront(f, a + Zeros(padding), 1, 17);
    SameFront(f, a + Zeros(padding), 17, 33);
    SameFront(f, a + Zeros(padding), 33, 38);
    assert h[38..] == a + Zeros(padding);
    assert h[41..41 + |ip|] == a[3..];
    assert h[0] == f[0];
  }

  function ParseRequestHeader(utf8: bytes -> bool, header: bytes): Result<Request> {
    var n := |header|;
    :- Need(n >= 38, "truncated vmess request header");
    :- Need(header[0] == 1, "unsupported vmess version");
    var padding := header[35] as int / 16;
    :- Need(header[37] == CMD_TCP, "unsupported vmess command");
    :- Need(Fnv(header[..n - 4]) == FromBe(header[n - 4..]), "vmess header checksum mismatch");
    var addrEnd := n - 4 - padding;
    :- Need(addrEnd > 38, "truncated vmess address");
    if addrEnd < 41 then Panic  // the slice header[41..addrEnd] is out of order
    else
      var (host, _) :- ReadAddress(utf8, header[41..addrEnd], header[40]);
      Ok(Request(host, FromU16(header[38], header[39]), header[17..33], header[1..17], header[33], header[34]))
  }

  /** The parser runs out of range exactly where an accepted fixed part and the padding leave one or two bytes more. */
  lemma ParsePanicsExactly(utf8: bytes -> bool, header: bytes)
    ensures ParseRequestHeader(utf8, header).Panic?
            <==> && |header| >= 38 && header[0] == 1 && header[37] == CMD_TCP
                 && Fnv(header[..|header| - 4]) == FromBe(header[|header| - 4..])
                 && |header| - 4 - header[35] as int / 16 in {39, 40}
  {
  }

  lemma FixedFields(key: Bytes16, nonce: Bytes16, response: byte, padding: nat, command: byte, rest: bytes)
    requires padding < 16
    ensures var h := Fixed(key, nonce, response, padding, command) + rest;
            && h[0] == 1 && h[1..17] == nonce && h[17..33] == key
            && h[33] == response && h[34] == 0 && h[35] as int / 16 == padding && h[37] == command
            && h[38..] == rest
  {
  }

  /** The parser gives back everything the printer was given, for both address families and every padding. */
  lemma ParseInvertsEncode(
    utf8: bytes -> bool, key: Bytes16, nonce: Bytes16, response: byte, dest: SocketAddr, padding: nat)
    requires padding < 16
    ensures ParseRequestHeader(utf8, Header(key, nonce, response, dest, CMD_TCP, padding))
            == Ok(Request(Literal(dest.ip), dest.port, key, nonce, response, 0))
  {
    var octets := dest.ip.Octets();
    var body := Body(key, nonce, response, dest, CMD_TCP, padding);
    var sum := ToBe(Fnv(body), 4);
    var h := Header(key, nonce, response, dest, CMD_TCP, padding);
    var rest := PortFirst(dest) + Zeros(padding) + sum;
    Assoc(Fixed(key, nonce, response, padding, CMD_TCP), PortFirst(dest) + Zeros(padding), sum);
    FixedFields(key, nonce, response, padding, CMD_TCP, rest);
    Halves(body, sum);
    BeRoundTrip(Fnv(body), 4);
    AddressFields(dest, padding, sum);
    assert h[38] == rest[0] && h[39] == rest[1] && h[40] == rest[2];
    var addrEnd := |h| - 4 - padding;
    assert h[41..addrEnd] == rest[3..3 + |octets|];
    ReadBack(utf8, dest.ip, []);
    assert octets + [] == octets;
  }

  lemma AddressFields(dest: SocketAddr, padding: nat, sum: bytes)
    ensures var rest := PortFirst(dest) + Zeros(padding) + sum;
            var octets := dest.ip.Octets();
            && |rest| == 3 + |octets| + padding + |sum|
            && FromU16(rest[0], rest[1]) == dest.port && rest[2] == Atyp(dest.ip)
            && rest[3..3 + |octets|] == octets
  {
  }

  /** Only TCP requests are taken. */
  lemma OtherCommandsRejected(
    utf8: bytes -> bool, key: Bytes16, nonce: Bytes16, response: byte, dest: SocketAddr, command: byte, padding: nat)
    requires padding < 16 && command != CMD_TCP
    ensures ParseRequestHeader(utf8, Header(key, nonce, response, dest, command, padding)).Err?
  {
    var body := Body(key, nonce, response, dest, command, padding);
    Assoc(Fixed(key, nonce, response, padding, command), PortFirst(dest) + Zeros(padding), ToBe(Fnv(body), 4));
    FixedFields(key, nonce, response, padding, command, PortFirst(dest) + Zeros(padding) + ToBe(Fnv(body), 4));
  }
}
