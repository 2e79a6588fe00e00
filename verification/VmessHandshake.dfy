/** The sealed VMess handshake: auth id, sealed header length, connection nonce, sealed header. */
module VmessHandshake {
  import opened Bytes
  import opened Address
  import opened VmessHeader
  import opened Kdf

  // ---------------------------------------------------------------- auth id

  function CmdKey(c: Crypto, uuid: Bytes16): Bytes16 {
    c.md5(uuid + CMD_KEY_SALT)
  }

  function AuthBlock(c: Crypto, ts: u64, random: Bytes4): (b: bytes)
    ensures |b| == 16
  {
    var front := ToBe(ts, 8) + random;
    front + ToBe(c.crc32(front), 4)
  }

  function AuthId(c: Crypto, cmdKey: Bytes16, ts: u64, random: Bytes4): Bytes16 {
    c.encrypt(c.Key(cmdKey, [KDF_AUTH_ID]), AuthBlock(c, ts, random))
  }

  function DecodeAuthId(c: Crypto, cmdKey: Bytes16, auth: Bytes16): Option<nat> {
    var decoded := c.decrypt(c.Key(cmdKey, [KDF_AUTH_ID]), auth);
    if c.crc32(decoded[..12]) != FromBe(decoded[12..16]) then None else Some(FromBe(decoded[..8]))
  }

  predicate TimestampValid(ts: nat, now: nat) {
    -120 <= ts - now <= 120
  }

  predicate Matches(c: Crypto, uuid: Bytes16, auth: Bytes16, now: nat) {
    var ts := DecodeAuthId(c, CmdKey(c, uuid), auth);
    ts.Some? && TimestampValid(ts.value, now)
  }

  lemma AuthIdDecodes(c: Crypto, cmdKey: Bytes16, ts: u64, random: Bytes4)
    requires c.Lawful()
    ensures DecodeAuthId(c, cmdKey, AuthId(c, cmdKey, ts, random)) == Some(ts)
  {
    var front := ToBe(ts, 8) + random;
    var block := AuthBlock(c, ts, random);
    assert block[..12] == front && block[12..16] == ToBe(c.crc32(front), 4) && block[..8] == ToBe(ts, 8);
    BeRoundTrip(c.crc32(front), 4);
    assert Pow256(8) == 0x1_0000_0000_0000_0000 by {
      assert Pow256(4) == 0x1_0000_0000 && Pow256(6) == 65536 * Pow256(4) && Pow256(8) == 65536 * Pow256(6);
    }
    BeRoundTrip(ts, 8);
  }

  /** The clock as read while the i-th user is looked at. */
  type Clock = nat -> nat

  /** The first listed user whose key decodes the auth id to a timestamp valid when it is looked at. */
  ghost predicate IsFirstMatch(c: Crypto, users: seq<Bytes16>, auth: Bytes16, clock: Clock, found: Option<nat>) {
    match found
    case None => forall j | 0 <= j < |users| :: !Matches(c, users[j], auth, clock(j))
    case Some(i) => i < |users| && Matches(c, users[i], auth, clock(i)) &&
                    forall j | 0 <= j < i :: !Matches(c, users[j], auth, clock(j))
  }

  function FindUser(c: Crypto, users: seq<Bytes16>, auth: Bytes16, clock: Clock, from: nat): (found: Option<nat>)
    requires from <= |users|
    requires forall j | 0 <= j < from :: !Matches(c, users[j], auth, clock(j))
    ensures IsFirstMatch(c, users, auth, clock, found)
    decreases |users| - from
  {
    if from == |users| then None
    else if Matches(c, users[from], auth, clock(from)) then Some(from)
    else FindUser(c, users, auth, clock, from + 1)
  }

  method MatchUser(c: Crypto, users: seq<Bytes16>, auth: Bytes16, clock: Clock) returns (found: Option<nat>)
    ensures found == FindUser(c, users, auth, clock, 0)
    ensures IsFirstMatch(c, users, auth, clock, found)
  {
    found := None;
    for i := 0 to |users|
      invariant found == None
      invariant forall j | 0 <= j < i :: !Matches(c, users[j], auth, clock(j))
    {
      var ts := DecodeAuthId(c, CmdKey(c, users[i]), auth);
      if ts.Some? {
        if TimestampValid(ts.value, clock(i)) {
          FirstMatchUnique(c, users, auth, clock, FindUser(c, users, auth, clock, 0), Some(i));
          return Some(i);
        }
      }
    }
    FirstMatchUnique(c, users, auth, clock, FindUser(c, users, auth, clock, 0), None);
  }

  lemma FirstMatchUnique(
    c: Crypto, users: seq<Bytes16>, auth: Bytes16, clock: Clock, a: Option<nat>, b: Option<nat>)
    requires IsFirstMatch(c, users, auth, clock, a) && IsFirstMatch(c, users, auth, clock, b)
    ensures a == b
  {
  }

  // ---------------------------------------------------------------- writing

  function Sealed(c: Crypto, cmdKey: Bytes16, keyLabel: bytes, ivLabel: bytes, auth: Bytes16, nonce: Bytes8,
                  plain: bytes): bytes
  {
    c.seal(c.Key(cmdKey, [keyLabel, auth, nonce]), c.Nonce(cmdKey, [ivLabel, auth, nonce]), plain, auth)
  }

  function Opened(c: Crypto, cmdKey: Bytes16, keyLabel: bytes, ivLabel: bytes, auth: Bytes16, nonce: Bytes8,
                  sealed: bytes): Option<bytes>
  {
    c.open(c.Key(cmdKey, [keyLabel, auth, nonce]), c.Nonce(cmdKey, [ivLabel, auth, nonce]), sealed, auth)
  }

  function Packet(c: Crypto, cmdKey: Bytes16, auth: Bytes16, nonce: Bytes8, header: bytes): bytes {
    var len := Sealed(c, cmdKey, KDF_HDR_LEN_KEY, KDF_HDR_LEN_IV, auth, nonce, U16(|header| % 0x1_0000));
    var hdr := Sealed(c, cmdKey, KDF_HDR_KEY, KDF_HDR_IV, auth, nonce, header);
    auth + len + nonce + hdr
  }

  /** The random choices of one handshake. */
  datatype Draw = Draw(auth: Bytes4, key: Bytes16, nonce: Bytes16, response: byte, padding: byte, connection: Bytes8)

  function Handshake(c: Crypto, uuid: Bytes16, dest: SocketAddr, command: byte, ts: u64, d: Draw): bytes {
    var cmdKey := CmdKey(c, uuid);
    Packet(c, cmdKey, AuthId(c, cmdKey, ts, d.auth), d.connection,
           Header(d.key, d.nonce, d.response, dest, command, d.padding as int % 16))
  }

  method WriteHandshake(c: Crypto, uuid: Bytes16, dest: SocketAddr, command: byte, ts: u64, d: Draw)
    returns (packet: bytes, keys: (Bytes16, Bytes16))
    ensures packet == Handshake(c, uuid, dest, command, ts, d)
    ensures keys == (d.key, d.nonce)
  {
    var cmdKey := CmdKey(c, uuid);
    var auth := AuthId(c, cmdKey, ts, d.auth);
    var header := EncodeHeader(d.key, d.nonce, d.response, dest, command, d.padding);
    var lenCipher := Sealed(c, cmdKey, KDF_HDR_LEN_KEY, KDF_HDR_LEN_IV, auth, d.connection, U16(|header| % 0x1_0000));
    var hdrCipher := Sealed(c, cmdKey, KDF_HDR_KEY, KDF_HDR_IV, auth, d.connection, header);
    packet := auth;
    packet := packet + lenCipher;
    packet := packet + d.connection;
    packet := packet + hdrCipher;
    keys := (d.key, d.nonce);
  }

  // ---------------------------------------------------------------- accepting

  /** The world outside: which bytes are text, what names resolve to, and the clock. */
  datatype World = World(utf8: bytes -> bool, resolve: (bytes, u16) -> Option<SocketAddr>, clock: Clock)

  /** What the server learns, and how many bytes of the stream it took. */
  datatype Accepted = Accepted(user: Bytes16, dest: SocketAddr, request: Request, used: nat)

  /** A literal address resolves to itself. */
  function Resolve(w: World, host: Host, port: u16): Result<SocketAddr> {
    match host
    case Literal(ip) => Ok(SocketAddr(ip, port))
    case Domain(name) =>
      var addr := w.resolve(name, port);
      if addr.Some? then Ok(addr.value) else Err("resolve")
  }

  function OpenHeader(c: Crypto, cmdKey: Bytes16, auth: Bytes16, rest: bytes): Result<(bytes, nat)> {
    var available := |rest|;
    :- Need(available >= 26, "unexpected eof");
    var nonce := rest[18..26];
    var len := Opened(c, cmdKey, KDF_HDR_LEN_KEY, KDF_HDR_LEN_IV, auth, nonce, rest[..18]);
    :- Need(len.Some?, "gcm open");
    :- Need(|len.value| >= 2, "truncated vmess header length");
    var n := FromU16(len.value[0], len.value[1]) as int + 16;
    :- Need(available >= 26 + n, "unexpected eof");
    var header := Opened(c, cmdKey, KDF_HDR_KEY, KDF_HDR_IV, auth, nonce, rest[26..26 + n]);
    :- Need(header.Some?, "gcm open");
    Ok((header.value, 26 + n))
  }

  /** Reading a handshake from a stream that delivers `input` and then ends. */
  function Accept(c: Crypto, w: World, users: seq<Bytes16>, input: bytes): Result<Accepted> {
    var available := |input|;
    :- Need(available >= 16, "unexpected eof");
    var auth := input[..16];
    var found := FindUser(c, users, auth, w.clock, 0);
    :- Need(found.Some?, "vmess auth failed");
    var (header, used) :- OpenHeader(c, CmdKey(c, users[found.value]), auth, input[16..]);
    var request :- ParseRequestHeader(w.utf8, header);
    var dest :- Resolve(w, request.host, request.port);
    Ok(Accepted(users[found.value], dest, request, 16 + used))
  }

  method AcceptHandshake(c: Crypto, w: World, users: seq<Bytes16>, input: bytes) returns (r: Result<Accepted>)
    ensures r == Accept(c, w, users, input)
  {
    hide FindUser, OpenHeader, ParseRequestHeader, IsFirstMatch;
    if |input| < 16 {
      return Err("unexpected eof");
    }
    var auth: Bytes16 := input[..16];
    var found := MatchUser(c, users, auth, w.clock);
    if found.None? {
      return Err("vmess auth failed");
    }
    var user := users[found.value];
    var plain :- OpenHeader(c, CmdKey(c, user), auth, input[16..]);
    var request :- ParseRequestHeader(w.utf8, plain.0);
    var dest :- Resolve(w, request.host, request.port);
    return Ok(Accepted(user, dest, request, 16 + plain.1));
  }

  lemma PacketParts(c: Crypto, cmdKey: Bytes16, auth: Bytes16, nonce: Bytes8, header: bytes, rest: bytes)
    requires c.Lawful()
    ensures var len := Sealed(c, cmdKey, KDF_HDR_LEN_KEY, KDF_HDR_LEN_IV, auth, nonce, U16(|header| % 0x1_0000));
            var hdr := Sealed(c, cmdKey, KDF_HDR_KEY, KDF_HDR_IV, auth, nonce, header);
            var input := Packet(c, cmdKey, auth, nonce, header) + rest;
            && |len| == 18 && |hdr| == |header| + 16
            && |input| == 42 + |hdr| + |rest|
            && input[..16] == auth
            && input[16..][..18] == len && input[16..][18..26] == nonce && input[16..][26..26 + |hdr|] == hdr
  {
    var len := Sealed(c, cmdKey, KDF_HDR_LEN_KEY, KDF_HDR_LEN_IV, auth, nonce, U16(|header| % 0x1_0000));
    var hdr := Sealed(c, cmdKey, KDF_HDR_KEY, KDF_HDR_IV, auth, nonce, header);
    FrontThen(auth, len, nonce, hdr, rest);
    ThreeParts(len, nonce, hdr, rest);
  }

  lemma HeaderSurvives(c: Crypto, cmdKey: Bytes16, auth: Bytes16, nonce: Bytes8, header: bytes, rest: bytes)
    requires c.Lawful() && |header| < 0x1_0000
    ensures var input := Packet(c, cmdKey, auth, nonce, header) + rest;
            && |input| >= 16
            && OpenHeader(c, cmdKey, auth, input[16..]) == Ok((header, |header| + 42))
  {
    PacketParts(c, cmdKey, auth, nonce, header, rest);
  }

  lemma AcceptedFrom(
    c: Crypto, w: World, users: seq<Bytes16>, input: bytes, i: nat, header: bytes, used: nat, request: Request)
    requires |input| >= 16 && i < |users| && FindUser(c, users, input[..16], w.clock, 0) == Some(i)
    requires OpenHeader(c, CmdKey(c, users[i]), input[..16], input[16..]) == Ok((header, used))
    requires ParseRequestHeader(w.utf8, header) == Ok(request) && request.host.Literal?
    ensures Accept(c, w, users, input)
            == Ok(Accepted(users[i], SocketAddr(request.host.ip, request.port), request, 16 + used))
  {
    hide FindUser, OpenHeader, ParseRequestHeader;
  }

  lemma HandshakeLength(c: Crypto, uuid: Bytes16, dest: SocketAddr, ts: u64, d: Draw)
    requires c.Lawful()
    ensures |Handshake(c, uuid, dest, CMD_TCP, ts, d)|
            == 58 + |Header(d.key, d.nonce, d.response, dest, CMD_TCP, d.padding as int % 16)|
  {
    hide Header;
    var cmdKey := CmdKey(c, uuid);
    var header := Header(d.key, d.nonce, d.response, dest, CMD_TCP, d.padding as int % 16);
    PacketParts(c, cmdKey, AuthId(c, cmdKey, ts, d.auth), d.connection, header, []);
  }

  /**
   The handshake for TCP is accepted, whatever follows it on the stream, and yields the client's request.
   The user is the first match; the request survives when that user's key is the sender's.
   */
  lemma HandshakeAccepted(
    c: Crypto, w: World, users: seq<Bytes16>, i: nat, uuid: Bytes16, dest: SocketAddr, ts: u64, d: Draw, rest: bytes)
    requires c.Lawful()
    requires IsFirstMatch(c, users, AuthId(c, CmdKey(c, uuid), ts, d.auth), w.clock, Some(i))
    requires CmdKey(c, users[i]) == CmdKey(c, uuid)
    ensures Accept(c, w, users, Handshake(c, uuid, dest, CMD_TCP, ts, d) + rest)
            == Ok(Accepted(users[i], dest,
                           Request(Literal(dest.ip), dest.port, d.key, d.nonce, d.response, 0),
                           |Handshake(c, uuid, dest, CMD_TCP, ts, d)|))
  {
    hide Header, Packet, OpenHeader, ParseRequestHeader, FindUser, AuthId, Accept;
    var cmdKey := CmdKey(c, uuid);
    var auth := AuthId(c, cmdKey, ts, d.auth);
    var header := Header(d.key, d.nonce, d.response, dest, CMD_TCP, d.padding as int % 16);
    var input := Handshake(c, uuid, dest, CMD_TCP, ts, d) + rest;
    HandshakeLength(c, uuid, dest, ts, d);
    PacketParts(c, cmdKey, auth, d.connection, header, rest);
    HeaderBound(d.key, d.nonce, d.response, dest, d.padding as int % 16);
    HeaderSurvives(c, cmdKey, auth, d.connection, header, rest);
    FirstMatchUnique(c, users, auth, w.clock, FindUser(c, users, auth, w.clock, 0), Some(i));
    ParseInvertsEncode(w.utf8, d.key, d.nonce, d.response, dest, d.padding as int % 16);
    AcceptedFrom(c, w, users, input, i, header, |header| + 42,
                 Request(Literal(dest.ip), dest.port, d.key, d.nonce, d.response, 0));
  }

  lemma HeaderBound(key: Bytes16, nonce: Bytes16, response: byte, dest: SocketAddr, padding: nat)
    requires padding < 16
    ensures |Header(key, nonce, response, dest, CMD_TCP, padding)| < 0x1_0000
  {
  }

  /** A listed sender with a fresh timestamp is always matched, at its own place or before it. */
  lemma SenderMatched(c: Crypto, users: seq<Bytes16>, clock: Clock, k: nat, ts: u64, random: Bytes4)
    requires c.Lawful() && k < |users| && TimestampValid(ts, clock(k))
    ensures var found := FindUser(c, users, AuthId(c, CmdKey(c, users[k]), ts, random), clock, 0);
            found.Some? && found.value <= k
  {
    AuthIdDecodes(c, CmdKey(c, users[k]), ts, random);
  }

  /** A listed sender that no earlier user shadows gets its own handshake through. */
  lemma ListedSenderAccepted(
    c: Crypto, w: World, users: seq<Bytes16>, k: nat, dest: SocketAddr, ts: u64, d: Draw, rest: bytes)
    requires c.Lawful() && k < |users| && TimestampValid(ts, w.clock(k))
    requires forall j | 0 <= j < k :: !Matches(c, users[j], AuthId(c, CmdKey(c, users[k]), ts, d.auth), w.clock(j))
    ensures Accept(c, w, users, Handshake(c, users[k], dest, CMD_TCP, ts, d) + rest)
            == Ok(Accepted(users[k], dest,
                           Request(Literal(dest.ip), dest.port, d.key, d.nonce, d.response, 0),
                           |Handshake(c, users[k], dest, CMD_TCP, ts, d)|))
  {
    AuthIdDecodes(c, CmdKey(c, users[k]), ts, d.auth);
    HandshakeAccepted(c, w, users, k, users[k], dest, ts, d, rest);
  }

  // ---------------------------------------------------------------- who is refused

  /** The block an auth id decrypts to under a user's key. */
  function AuthPlain(c: Crypto, user: Bytes16, auth: Bytes16): Bytes16 {
    c.decrypt(KdfOf(c.sha, c.md5(user + Ascii("c48619fe-8f02-49e0-b9e9-edf763e17e21")),
                    [Ascii("AES Auth ID Encryption")])[..16], auth)
  }

  /** The block's last four bytes are the checksum of the rest, and its first eight a time within two minutes. */
  predicate Timely(c: Crypto, block: Bytes16, now: nat) {
    && c.crc32(block[..12]) == FromBe(block[12..16])
    && FromBe(block[..8]) <= now + 120 && now <= FromBe(block[..8]) + 120
  }

  lemma MatchesTimely(c: Crypto, user: Bytes16, auth: Bytes16, now: nat)
    ensures Matches(c, user, auth, now) <==> Timely(c, AuthPlain(c, user, auth), now)
  {
  }

  lemma OpenHeaderErrors(c: Crypto, cmdKey: Bytes16, auth: Bytes16, rest: bytes)
    ensures var r := OpenHeader(c, cmdKey, auth, rest);
            !r.Panic? && (r.Err? ==> r.error in {"unexpected eof", "gcm open", "truncated vmess header length"})
  {
  }

  lemma ParseErrors(utf8: bytes -> bool, header: bytes)
    ensures var r := ParseRequestHeader(utf8, header); r.Err? ==> r.error != "vmess auth failed"
  {
    var n := |header|;
    if n >= 45 && n - 4 - header[35] as int / 16 >= 41 {
      AddressErrors(utf8, header[41..n - 4 - header[35] as int / 16], header[40]);
      hide ReadAddress;
    }
  }

  lemma AddressErrors(utf8: bytes -> bool, data: bytes, atyp: byte)
    ensures var r := ReadAddress(utf8, data, atyp); r.Err? ==> r.error != "vmess auth failed"
  {
  }

  /** A handshake fails for authentication exactly if no listed user decrypts its auth id to a timely block. */
  lemma RefusedExactlyWithoutTimelyUser(c: Crypto, w: World, users: seq<Bytes16>, input: bytes)
    requires |input| >= 16
    ensures Accept(c, w, users, input) == Err("vmess auth failed")
            <==> forall j | 0 <= j < |users| :: !Timely(c, AuthPlain(c, users[j], input[..16]), w.clock(j))
  {
    var auth: Bytes16 := input[..16];
    forall j | 0 <= j < |users|
      ensures Matches(c, users[j], auth, w.clock(j)) <==> Timely(c, AuthPlain(c, users[j], auth), w.clock(j))
    {
      MatchesTimely(c, users[j], auth, w.clock(j));
    }
    var found := FindUser(c, users, auth, w.clock, 0);
    if found.Some? {
      var key, rest := CmdKey(c, users[found.value]), input[16..];
      OpenHeaderErrors(c, key, auth, rest);
      var r := OpenHeader(c, key, auth, rest);
      if r.Ok? {
        ParseErrors(w.utf8, r.value.0);
      }
      hide OpenHeader, ParseRequestHeader, FindUser, Timely, AuthPlain, Matches;
    }
  }

  /** The only listed user gets its own handshake through exactly if the clocks are within two minutes. */
  lemma SoleUserAcceptedExactlyInTime(
    c: Crypto, w: World, user: Bytes16, dest: SocketAddr, ts: u64, d: Draw, rest: bytes)
    requires c.Lawful()
    ensures var r := Accept(c, w, [user], Handshake(c, user, dest, CMD_TCP, ts, d) + rest);
            && (r.Ok? <==> ts <= w.clock(0) + 120 && w.clock(0) <= ts + 120)
            && (r.Ok? || r == Err("vmess auth failed"))
  {
    var users, auth := [user], AuthId(c, CmdKey(c, user), ts, d.auth);
    AuthIdDecodes(c, CmdKey(c, user), ts, d.auth);
    if TimestampValid(ts, w.clock(0)) {
      HandshakeAccepted(c, w, users, 0, user, dest, ts, d, rest);
    } else {
      var input := Handshake(c, user, dest, CMD_TCP, ts, d) + rest;
      PacketParts(c, CmdKey(c, user), auth, d.connection,
                  Header(d.key, d.nonce, d.response, dest, CMD_TCP, d.padding as int % 16), rest);
      assert !Matches(c, users[0], auth, w.clock(0));
      assert IsFirstMatch(c, users, auth, w.clock, None);
      FirstMatchUnique(c, users, auth, w.clock, FindUser(c, users, auth, w.clock, 0), None);
      hide Handshake, OpenHeader, ParseRequestHeader, Matches;
    }
  }

  /** What is derived from a user's id for a label, an auth id and a connection nonce. */
  function UserKey(c: Crypto, user: Bytes16, name: string, auth: Bytes16, nonce: Bytes8): Bytes32 {
    KdfOf(c.sha, c.md5(user + Ascii("c48619fe-8f02-49e0-b9e9-edf763e17e21")), [Ascii(name), auth, nonce])
  }

  /** The handshake in bytes: the encrypted auth block, the sealed length, the connection nonce, the sealed header. */
  lemma HandshakeOnTheWire(c: Crypto, user: Bytes16, dest: SocketAddr, ts: u64, d: Draw, command: byte)
    requires c.Lawful()
    ensures var h := Handshake(c, user, dest, command, ts, d);
            var header := Header(d.key, d.nonce, d.response, dest, command, d.padding as int % 16);
            && |h| == 58 + |header| && h[34..42] == d.connection
            && FromBe(AuthPlain(c, user, h[..16])[..8]) == ts && AuthPlain(c, user, h[..16])[8..12] == d.auth
            && h[16..34] == c.seal(UserKey(c, user, "VMess Header AEAD Key_Length", h[..16], d.connection)[..16],
                                   UserKey(c, user, "VMess Header AEAD Nonce_Length", h[..16], d.connection)[..12],
                                   U16(|header| % 0x1_0000), h[..16])
            && h[42..] == c.seal(UserKey(c, user, "VMess Header AEAD Key", h[..16], d.connection)[..16],
                                 UserKey(c, user, "VMess Header AEAD Nonce", h[..16], d.connection)[..12],
                                 header, h[..16])
  {
    var cmdKey := CmdKey(c, user);
    var auth := AuthId(c, cmdKey, ts, d.auth);
    var header := Header(d.key, d.nonce, d.response, dest, command, d.padding as int % 16);
    var h := Handshake(c, user, dest, command, ts, d);
    PacketParts(c, cmdKey, auth, d.connection, header, []);
    assert h + [] == h;
    AuthIdDecodes(c, cmdKey, ts, d.auth);
    var block := AuthBlock(c, ts, d.auth);
    assert AuthPlain(c, user, auth) == block;
    assert block[8..12] == d.auth;
    hide Header, Handshake, AuthBlock, AuthId;
    assert h[34..42] == h[16..][18..26];
    assert h[16..34] == h[16..][..18] && h[42..] == h[16..][26..];
    var hdr := Sealed(c, cmdKey, KDF_HDR_KEY, KDF_HDR_IV, auth, d.connection, header);
    assert h[16..][26..] == h[16..][26..26 + |hdr|];
  }
}
