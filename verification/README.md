# rsbox: verified model

A Dafny model of the parts of the rsbox proxy that decide bytes and share state: its wire codecs and incremental
decoders, the VMess key derivation, the DNS code, and the small concurrent protocols that bound its resources.

Each file is one module.

- **Codecs and stream decoders.** `Vision` (XTLS Vision padding), `Vless` and `Address`, `VmessHeader`,
  `VmessHandshake` and `VmessResponse`, `Xudp`, `Reality` (the rebuilt ServerHello), `DnsMessage` and `DnsQuery`.
  Readers that the program runs over a socket are given arbitrary cuts of the stream. Objects whose fields the
  program updates are classes; loops are loops, and each is proved against a function that gives its meaning.
  Each wire format is also fixed in plain bytes, offset by offset, by a lemma named `...OnTheWire`.
- **Key derivation.** `Kdf`: a tower of stateful HMAC objects and the pure recursion it computes.
- **Pool, bucket, counters.** `FakeIp` (with `Bits` for masks), `RateLimit`, `UserRuntime`.
- **Concurrent protocols.** `Singleflight`, `Inbound`, `Fallback`, `UserLimit`, `Quota`. Each is a state machine whose
  steps are the program's atomic accesses to shared state, and its theorems hold in every interleaving.

`Bytes` and `Sets` hold shared types and small facts about sequences and sets.

What the outside world does is a parameter. Cryptographic primitives are functions of which only
`Crypto.Lawful` is assumed: decryption undoes encryption, and a sealed text opens under the same key, nonce and data
and is 16 bytes longer. Random draws, clock readings, which bytes are valid UTF-8, name resolution and dial outcomes are
arbitrary arguments. Clock readings and token counts are real numbers.

Where the code does not do what its comments say, the model follows the code, and the exact condition is proved:

- The fallback's comments promise that it never fails back. That holds in every run exactly when dials are inside
  `on_failover` one at a time, or there are at most two children (`Fallback.NeverFailsBackExactly`).
- The DNS gates are described as one resolve per host. That holds in every run exactly when resolves never succeed
  with an empty list and no entry expires under a caller that depends on it (`Singleflight.SingleflightExactly`).
- A user's connection limit holds in every run exactly when callers of `acquire_user` do not overlap past the check, or
  the limit is zero (`UserLimit.LimitRespectedExactlyWithoutOverlap`).
- The polled VMess response reader ends in its state `Done` exactly when the blocking reader has decided, for or against
  the header (`VmessResponse.ReadToEnd`); after a refusal a further poll hands out what follows
  (`VmessResponse.PollAfterRefusal`).
- That reader answers "pending" after a short read although the connection has not been asked for a wake-up. A caller that
  polls only when woken reads like the blocking reader exactly if each sealed part arrives whole
  (`VmessResponse.ReadWhenWoken`).

## Model

| member | source | states |
|---|---|---|
| Vision.Reader.constructor | crates/rsb-protocol/src/xtls_vision.rs:86-106 | A new reader stands outside any block, padding on, not direct |
| Vision.Reader.ReadHeaderByte | crates/rsb-protocol/src/xtls_vision.rs:146-157 | One header byte moves the counters as one step of the byte-by-byte meaning does |
| Vision.Reader.EndOfBlock | crates/rsb-protocol/src/xtls_vision.rs:177-193 | A finished block leads to the next header after CONTINUE and to raw data otherwise; `direct` is set exactly after DIRECT |
| Vision.Reader.ReadInBlock | crates/rsb-protocol/src/xtls_vision.rs:146-193 | One turn of the loop consumes at least a byte and agrees with the byte-by-byte meaning of the bytes it took |
| Vision.Reader.ProcessReadPadding | crates/rsb-protocol/src/xtls_vision.rs:136-196 | On any bytes and from any reachable state the loop returns exactly the output, position and flags of the byte-by-byte meaning |
| Vision.PaddingLen | crates/rsb-protocol/src/xtls_vision.rs:319-325 | Content that fits and its padding stay within 65514 bytes together; for longer content the length is negative by the excess |
| Vision.XtlsPadding | crates/rsb-protocol/src/xtls_vision.rs:313-340 | Content that fits is written as the optional id and one zero-padded block; longer content stops a build with overflow checks and is cut off after 65514 bytes without them; with an id of 16 bytes what is written never passes 65535 |
| Vision.PaddingDrawn | crates/rsb-protocol/src/xtls_vision.rs:319-325 | A long padding brings short content to a total of 900 to 1399 bytes; any other has 0 to 255 bytes up to the cap |
| Vision.EveryPaddingDrawn | crates/rsb-protocol/src/xtls_vision.rs:319-325 | Each of those totals is drawn by some random number |
| Vision.BlockOnTheWire | crates/rsb-protocol/src/xtls_vision.rs:327-338 | A block in bytes: command, two 16-bit lengths, content, padding |
| Vision.CleanReads | crates/rsb-protocol/src/xtls_vision.rs:136-196 | Where no id occurs in raw data, reading two pieces one after the other equals reading their concatenation |
| Vision.CleanFeed | crates/rsb-protocol/src/xtls_vision.rs:136-196 | Hence any cutting into reads equals one read of the whole |
| Vision.ReadBlock | crates/rsb-protocol/src/xtls_vision.rs:136-196 | An encoded block, any content and padding, reads to its content and to the state its command calls for |
| Vision.ReadRun | crates/rsb-protocol/src/xtls_vision.rs:136-196 | A run CONTINUE* closed by another command, then a raw tail, reads to the contents and the tail |
| Vision.UnpaddingInvertsPadding | crates/rsb-protocol/src/xtls_vision.rs:136-196 | For every id, run of blocks, id-free tail and cutting whose first non-empty read has 16 bytes, the outputs add up to the contents and the tail, and the reader is direct exactly after DIRECT |
| Vision.UnpaddedExactlyWithWholeId | crates/rsb-protocol/src/xtls_vision.rs:136-196 | Where the id stands only at the front of the stream, contents and tail come back if and only if the first non-empty read holds the whole id |
| Vision.ShortFirstReadIsNotUnpadded | crates/rsb-protocol/src/xtls_vision.rs:167-176 | If no read begins with the whole id, everything is passed through untouched, headers and padding included |
| Kdf.IpadOpad | crates/rsb-protocol/src/vmess_aead.rs:104-120 | Each pad is 64 bytes of 0x36 or 0x5c with the key, hashed if over 64 bytes, xored into its front, byte by byte |
| Kdf.XorIsBitwise | crates/rsb-protocol/src/vmess_aead.rs:116-118 | Each binary digit of the xor is one exactly where those of the two bytes differ |
| Kdf.PadsTellKeysApart | crates/rsb-protocol/src/vmess_aead.rs:104-120 | Keys of one length up to 64 bytes have the same pad if and only if they are the same |
| Kdf.HashState.constructor | crates/rsb-protocol/src/vmess_aead.rs:126-136 | A hash object of any level starts with the empty message |
| Kdf.HashState.NewMac | crates/rsb-protocol/src/vmess_aead.rs:73-89 | A new mac is two separate objects of the level below, the inner one fed with the inner pad |
| Kdf.HashState.Reset | crates/rsb-protocol/src/vmess_aead.rs:139-141 | After a reset the object, at any level, is as new |
| Kdf.HashState.Update | crates/rsb-protocol/src/vmess_aead.rs:91-93 | Bytes are appended to the message, whatever was taken in before |
| Kdf.HashState.Sum | crates/rsb-protocol/src/vmess_aead.rs:95-101 | A mac sums to the outer hash of its pad and the inner digest |
| Kdf.HashState.Finalize | crates/rsb-protocol/src/vmess_aead.rs:145-150 | Returns the pure recursion's hash of all bytes taken in and leaves the object as new |
| Kdf.HashPieces | crates/rsb-protocol/src/vmess_aead.rs:64-151 | However a message is split into updates, a tower of any height yields the pure recursive hash of the whole |
| Kdf.BuildKdfChain | crates/rsb-protocol/src/vmess_aead.rs:153-165 | One HMAC level per path element over the root level |
| Kdf.VmessAeadKdf | crates/rsb-protocol/src/vmess_aead.rs:167-173 | The object tower for any path computes the pure key derivation |
| Kdf.KdfLevel | crates/rsb-protocol/src/vmess_aead.rs:153-173 | Level i is HMAC, as section 2 of RFC 2104 has it, over level i - 1: the hash below of the outer pad and the hash below of the inner pad and the message, for the two pads of the key |
| Kdf.KdfRoot | crates/rsb-protocol/src/vmess_aead.rs:153-157 | The empty path is HMAC over SHA-256 under the root key |
| Address.EncodePortFirstSocksaddr | crates/rsb-protocol/src/transport.rs:339-353 | Port, type byte, then 4 or 16 address bytes |
| Address.AddressOnTheWire | crates/rsb-protocol/src/transport.rs:339-353 | An address in bytes: 16-bit port, type 1 or 3, octets |
| Address.ReadAddress | crates/rsb-protocol/src/vless.rs:500-528 | On any bytes the reader either fails or consumes no more than there is |
| Address.ReadBack | crates/rsb-protocol/src/vless.rs:500-528 | The reader gives back every address the writer put down, whatever follows |
| Address.NameRead | crates/rsb-protocol/src/vless.rs:509-518 | A name behind its length byte is read as that name if it is text; cut off or no text it is an error |
| Address.OtherAddressesRefused | crates/rsb-protocol/src/vless.rs:500-528 | Addresses cut off, and other types, are errors |
| VmessHeader.Fnv1a32 | crates/rsb-protocol/src/vmess_aead.rs:242-249 | The checksum loop computes the 32-bit FNV-1a recursion |
| VmessHeader.FnvByByte | crates/rsb-protocol/src/vmess_aead.rs:242-249 | From the offset basis 2166136261, each byte is xored in and the result multiplied by 16777619 modulo 2^32 |
| VmessHeader.EncodeHeader | crates/rsb-protocol/src/vmess_aead.rs:218-240 | The appended header is the fixed part, address, padding and checksum of all before it |
| VmessHeader.HeaderOnTheWire | crates/rsb-protocol/src/vmess_aead.rs:218-240 | A header in bytes: version, nonce, key, response byte, padding and security, command, port, address, zeros, checksum of all before |
| VmessHeader.ParseInvertsEncode | crates/rsb-protocol/src/vmess_aead.rs:400-433 | For both address families and every padding length the parser gives back destination, port, key, nonce and response byte |
| VmessHeader.OtherCommandsRejected | crates/rsb-protocol/src/vmess_aead.rs:400-433 | A header printed with any command but TCP is an error |
| VmessHeader.ParsePanicsExactly | crates/rsb-protocol/src/vmess_aead.rs:400-433 | The parser runs out of range if and only if an accepted fixed part and its padding leave 39 or 40 bytes before padding and checksum |
| VmessHandshake.AuthIdDecodes | crates/rsb-protocol/src/vmess_aead.rs:376-390 | Under the same key the auth id decodes to the timestamp it was made with |
| VmessHandshake.MatchUser | crates/rsb-protocol/src/vmess_aead.rs:439-456 | The loop finds the first listed user whose key decodes the auth id to a timestamp valid on the clock as read for that user, or none exactly if there is none |
| VmessHandshake.WriteHandshake | crates/rsb-protocol/src/vmess_aead.rs:251-330 | The bytes sent are auth id, sealed length, connection nonce and sealed header, and the session keys are the drawn ones |
| VmessHandshake.HandshakeOnTheWire | crates/rsb-protocol/src/vmess_aead.rs:251-330 | A handshake in bytes: the encrypted auth block, the length sealed, the connection nonce, the header sealed, each under its derived key and nonce |
| VmessHandshake.HeaderSurvives | crates/rsb-protocol/src/vmess_aead.rs:458-511 | The accepting side opens the packet to the same header and consumes exactly the packet |
| VmessHandshake.AcceptHandshake | crates/rsb-protocol/src/vmess_aead.rs:435-526 | The accepting sequence, error exits included, equals its functional form on any bytes |
| VmessHandshake.HandshakeAccepted | crates/rsb-protocol/src/vmess_aead.rs:435-526 | With the sender's key first to match, the handshake yields the sender's request and destination, whatever follows on the stream |
| VmessHandshake.SenderMatched | crates/rsb-protocol/src/vmess_aead.rs:439-456 | A listed sender with a timely clock is matched, at its place or before |
| VmessHandshake.ListedSenderAccepted | crates/rsb-protocol/src/vmess_aead.rs:435-526 | A listed sender that no earlier user shadows is accepted as itself with its own request |
| VmessHandshake.RefusedExactlyWithoutTimelyUser | crates/rsb-protocol/src/vmess_aead.rs:376-456 | Authentication fails if and only if for every listed user the decrypted block's last four bytes are not the checksum of the rest or its time is more than 120 s from the clock |
| VmessHandshake.SoleUserAcceptedExactlyInTime | crates/rsb-protocol/src/vmess_aead.rs:392-526 | The only listed user's handshake is accepted if and only if the two clocks are within 120 s |
| VmessResponse.VerdictStable | crates/rsb-protocol/src/vmess_aead.rs:332-365 | The blocking reader's verdict on a stream does not change as more bytes arrive |
| VmessResponse.ServerResponseTaken | crates/rsb-protocol/src/vmess_aead.rs:528-560 | Every response the server writes is 38 bytes and is taken, exactly those 38, whatever follows |
| VmessResponse.ResponseOnTheWire | crates/rsb-protocol/src/vmess_aead.rs:528-560 | The two sealed parts open to the length 4 and to response byte, option and two zeros |
| VmessResponse.RefusedExactly | crates/rsb-protocol/src/vmess_aead.rs:332-365 | A response is refused if and only if its length does not open to two bytes, or its complete header does not open |
| VmessResponse.Stream.constructor | crates/rsb-protocol/src/vmess_aead.rs:583-598 | A new stream has consumed nothing and waits for the sealed length |
| VmessResponse.Stream.PollInner | crates/rsb-protocol/src/vmess_aead.rs:614-616 | A poll below takes from the front piece only, loses no byte, and arranges a wake-up exactly when it answers "pending" |
| VmessResponse.Stream.ReadLen | crates/rsb-protocol/src/vmess_aead.rs:613-663 | A turn on the length keeps the partial state in step with the blocking reader, and stops without a wake-up only on a short read |
| VmessResponse.Stream.ReadHeader | crates/rsb-protocol/src/vmess_aead.rs:664-702 | So does a turn on the header, ending in the state for its verdict |
| VmessResponse.Stream.AdvanceResponse | crates/rsb-protocol/src/vmess_aead.rs:600-705 | Reads on until the header is complete, refused, or more input is needed; "pending" comes without a wake-up exactly on a short read |
| VmessResponse.Stream.PollRead | crates/rsb-protocol/src/vmess_aead.rs:708-722 | Each poll conserves the stream: bytes consumed as header, returned and still queued add up to what was delivered |
| VmessResponse.ReadToEnd | crates/rsb-protocol/src/vmess_aead.rs:570-722 | For every chunking with waits anywhere, polled until the input has run out: exactly the bytes after the header if the blocking reader takes one, an error if it refuses, nothing while it needs more; `Done` if and only if it has decided |
| VmessResponse.ReadWhenWoken | crates/rsb-protocol/src/vmess_aead.rs:600-722 | Polled only when woken: the same, if and only if each sealed part arrives whole; else the caller is left asleep with no wake-up to come |
| VmessResponse.ResponseArrivesWhole | crates/rsb-protocol/src/vmess_aead.rs:528-722 | A server's response arrives whole if and only if the first piece has 38 bytes, or 18 and the second 20 |
| VmessResponse.ToyRefuses | crates/rsb-protocol/src/vmess_aead.rs:332-365 | A lawful session and eighteen bytes that it refuses |
| VmessResponse.PollAfterRefusal | crates/rsb-protocol/src/vmess_aead.rs:600-722 | After any refused response the caller has its error, and a further poll hands out what arrives next |
| DnsMessage.SkipName | crates/rsb-dns/src/lib.rs:754-768 | The name loop equals the recursive name walk on any bytes |
| DnsMessage.SkipQuestions | crates/rsb-dns/src/lib.rs:692-695 | The question loop equals the recursive walk |
| DnsMessage.ReadRecord | crates/rsb-dns/src/lib.rs:697-725 | One record advances by at least 11 bytes, 15 if it yields an address, and stays inside the buffer |
| DnsMessage.ReadAnswers | crates/rsb-dns/src/lib.rs:696-726 | The answer loop equals the recursive collection of addresses |
| DnsMessage.ParseResponse | crates/rsb-dns/src/lib.rs:685-727 | On arbitrary bytes it ends within bounds, and a returned non-empty list satisfies 12 + 15 * count <= length |
| DnsMessage.NameSkipped | crates/rsb-dns/src/lib.rs:754-768 | A name of any labels ended by zero or a pointer is skipped exactly |
| DnsMessage.QuestionsSkipped | crates/rsb-dns/src/lib.rs:692-695 | Any number of encoded questions is skipped exactly |
| DnsMessage.RecordRead | crates/rsb-dns/src/lib.rs:697-725 | An encoded record yields the V4 of an A, the V6 of an AAAA and nothing of any other, and ends where it ends |
| DnsMessage.AnswersRead | crates/rsb-dns/src/lib.rs:696-726 | Encoded records yield their addresses in order, before whatever comes after them |
| DnsMessage.WellFormedAnswer | crates/rsb-dns/src/lib.rs:685-727 | Every well-formed message of typed records yields exactly the addresses of its A and AAAA records, in order |
| DnsMessage.CutOffAnswer | crates/rsb-dns/src/lib.rs:685-727 | A message that ends inside its next answer yields the addresses before it, unless it ends inside that answer's labels: then it is an error |
| DnsMessage.CountsOnTheWire | crates/rsb-dns/src/lib.rs:689-690 | The question and answer counts of a message are its bytes 4 to 8 |
| DnsMessage.RecordOnTheWire | crates/rsb-dns/src/lib.rs:702-723 | A record in bytes: name, type 1 for A and 28 for AAAA, class and time to live, data length, data |
| DnsQuery.BuildQuery | crates/rsb-dns/src/lib.rs:669-683 | The query is the header, the host's non-empty labels length-prefixed, zero, type and class |
| DnsQuery.LabelsAreThePieces | crates/rsb-dns/src/lib.rs:672-678 | The labels are exactly the non-empty pieces of the host between dots |
| DnsQuery.QueryOnTheWire | crates/rsb-dns/src/lib.rs:669-683 | A query in bytes: the fixed header, the name, a zero, type 1 or 28, class 1 |
| DnsQuery.ExtractQueryName | crates/rsb-protocol/src/dns_inbound.rs:124-149 | The inbound's loop equals its recursive reading on any bytes |
| DnsQuery.ParseDnsQueryName | crates/rsb-protocol/src/sniff.rs:128-158 | The sniffer's loop equals its recursive reading on any bytes |
| DnsQuery.LabelsExtracted | crates/rsb-protocol/src/dns_inbound.rs:124-149 | Encoded labels anywhere in a message are read back one by one |
| DnsQuery.LabelsSniffed | crates/rsb-protocol/src/sniff.rs:128-158 | So they are by the sniffer |
| DnsQuery.LabelsComeBack | crates/rsb-protocol/src/sniff.rs:128-158 | Both readers give back the labels of a query; skipping the name leaves type and class |
| DnsQuery.ReadersInvertBuildQuery | crates/rsb-dns/src/lib.rs:669-683 | For every host of 1 to 63 byte ASCII labels both readers return the host without its empty labels, and skipping from 12 lands 4 before the end |
| DnsQuery.CleanHostUnchanged | crates/rsb-dns/src/lib.rs:669-683 | A host without empty labels is itself what the readers return |
| DnsQuery.SpoiltName | crates/rsb-protocol/src/sniff.rs:139-151 | After any labels, one too long, cut off or no text spoils the name for the sniffer; the inbound takes the labels before one cut off |
| Singleflight.LookupCache.CacheGet | crates/rsb-dns/src/lib.rs:160-169 | Serves exactly a non-empty entry under 300 s old, and drops the entry otherwise |
| Singleflight.LookupCache.CachePut | crates/rsb-dns/src/lib.rs:171-180 | A non-empty answer is fresh once put, and nothing else changes |
| Singleflight.KeysTellNames | crates/rsb-dns/src/lib.rs:127 | Two hosts share a key if and only if they are the same up to the case of ASCII letters |
| Singleflight.StepKeepsInv | crates/rsb-dns/src/lib.rs:122-158 | Every step keeps: busy callers hold the gate in the map, no gate has two holders, callers on a removed gate find a fresh entry |
| Singleflight.AtMostOneResolve | crates/rsb-dns/src/lib.rs:122-158 | In every interleaving without empty successes and without expiry under a dependent caller, at most one resolve of a host, whatever the case of its letters, runs |
| Singleflight.ServedAnswersAreRecent | crates/rsb-dns/src/lib.rs:122-180 | In every run whatever, a served answer was cached less than 300 s before by a caller that resolved that very host, up to case, to exactly those addresses |
| Singleflight.AnswerIsShared | crates/rsb-dns/src/lib.rs:160-180 | Once put, an answer is served for exactly 300 s to callers of the same host up to case, and changes nothing for other hosts |
| Singleflight.ServedCallersAreDone | crates/rsb-dns/src/lib.rs:128-145 | A served caller does not resolve, and no one else is disturbed |
| Singleflight.TwoResolve | crates/rsb-dns/src/lib.rs:137-157 | With an empty success, or an expiry, a run reaches two resolves of one host |
| Singleflight.SingleflightExactly | crates/rsb-dns/src/lib.rs:122-158 | One resolve per host in all runs if and only if neither can happen |
| FakeIp.CombineIsSlot | crates/rsb-dns/src/fake_ip.rs:38-40 | The masked combination equals base network plus the low bits of the cursor, wrap-around of the cursor included |
| FakeIp.SlotInNumbers | crates/rsb-dns/src/fake_ip.rs:35-40 | The i-th domain has number i + 1 in the network, modulo its size |
| FakeIp.SlotInside | crates/rsb-dns/src/fake_ip.rs:38-40 | Every address lies in the configured network |
| FakeIp.SlotsCycle | crates/rsb-dns/src/fake_ip.rs:35-40 | Two addresses within a period coincide exactly if they are the same allocation or one full period apart |
| FakeIp.FakeIpPool.constructor | crates/rsb-dns/src/fake_ip.rs:14-28 | A new pool has no domains and the given network |
| FakeIp.FakeIpPool.Create | crates/rsb-dns/src/fake_ip.rs:14-28 | Every prefix gives a pool, except prefix 0 in a build with overflow checks, where the shift by 32 stops the program |
| FakeIp.FakeIpPool.Allocate | crates/rsb-dns/src/fake_ip.rs:30-46 | A known domain keeps its address, a new one takes the next slot, no other mapping changes |
| FakeIp.SameAddressSameDomain | crates/rsb-dns/src/fake_ip.rs:30-46 | Up to 2^(32-p) domains no two share an address |
| FakeIp.Router.LookupFake | crates/rsb-dns/src/lib.rs:211-218 | The answer is recorded in the reverse table under the host |
| FakeIp.Router.ReverseLookup | crates/rsb-dns/src/lib.rs:118-120 | Answers exactly for allocated addresses, with a domain that has that address |
| FakeIp.InverseUntilWrap | crates/rsb-dns/src/lib.rs:118-120 | The reverse table is the exact inverse of the forward map if and only if the addresses have not wrapped |
| Vless.BuildVlessRequest | crates/rsb-protocol/src/vless.rs:143-162 | The request is version, id, add-ons behind their length byte, command and address |
| Vless.RequestOnTheWire | crates/rsb-protocol/src/vless.rs:143-162 | A request in bytes: version, id, add-ons behind their length, command, port, type, octets |
| Vless.AddonsOnTheWire | crates/rsb-protocol/src/vless.rs:147-159 | Add-ons are none, the flow itself, or a tagged field for the two Vision flows |
| Vless.VlessRequestLen | crates/rsb-protocol/src/vless.rs:165-208 | A complete length lies within the buffer |
| Vless.DecisionStable | crates/rsb-protocol/src/vless.rs:165-208 | A decision stands however the buffer grows |
| Vless.AlwaysDecided | crates/rsb-protocol/src/vless.rs:165-208 | Any 533 bytes are decided |
| Vless.UndecidedJustBelow | crates/rsb-protocol/src/vless.rs:165-208 | Some 532 bytes are not |
| Vless.RequestDecided | crates/rsb-protocol/src/vless.rs:143-208 | An encoded request is complete exactly at its end, whatever follows |
| Vless.NameRequestDecided | crates/rsb-protocol/src/vless.rs:165-208 | A request for a name is complete exactly at its end, and no proper prefix of it is decided |
| Vless.OthersRefused | crates/rsb-protocol/src/vless.rs:165-208 | Another version or address type is refused as soon as its byte is there |
| Vless.DecidedExactlyWhenAddonsFit | crates/rsb-protocol/src/vless.rs:143-208 | That holds if and only if the add-ons are shorter than 256 bytes |
| Vless.PrefixUndecided | crates/rsb-protocol/src/vless.rs:143-208 | No proper prefix of an encoded request is decided |
| Vless.ReadVlessRequest | crates/rsb-protocol/src/vless.rs:210-227 | The result depends only on the stream's bytes, not on its cutting into reads of 1 to 256, and the size guard never fires |
| Vless.RequestReadBack | crates/rsb-protocol/src/vless.rs:210-227 | A request is read back whole from the front of a stream, and a stream that ends inside it is an error |
| Xudp.EncodeXudpFrame | crates/rsb-protocol/src/xudp.rs:116-153 | The appended frame is length-prefixed meta and length-prefixed payload |
| Xudp.FrameOnTheWire | crates/rsb-protocol/src/xudp.rs:116-153 | A frame in bytes: meta length, session, status, option, network, port, address, id if new, payload length, payload |
| Xudp.DecodeAddress | crates/rsb-protocol/src/xudp.rs:206-240 | A decoded address takes no more than the buffer holds |
| Xudp.FrameRead | crates/rsb-protocol/src/xudp.rs:155-204 | A frame reads back its target and as much payload as its 16-bit length says |
| Xudp.FrameRoundTrip | crates/rsb-protocol/src/xudp.rs:116-204 | It reads back whole if and only if the payload is shorter than 65536 bytes |
| Xudp.OtherFrames | crates/rsb-protocol/src/xudp.rs:155-180 | Frames of another network are skipped whole, and too short a meta is an error |
| Xudp.NameFrameRead | crates/rsb-protocol/src/xudp.rs:155-251 | A frame for a name goes to what the name resolves to, or is an error |
| Xudp.ReadPanicsExactly | crates/rsb-protocol/src/xudp.rs:155-240 | The reader runs out of range if and only if the meta has eight bytes and ends with the type byte of a name |
| Xudp.XudpWriter.constructor | crates/rsb-protocol/src/xudp.rs:64-71 | A new writer has sent nothing |
| Xudp.XudpWriter.SendTo | crates/rsb-protocol/src/xudp.rs:90-99 | Appends one frame, NEW exactly for a target not sent to before, and the stream stays the frames of all sends |
| Xudp.RunRoundTrip | crates/rsb-protocol/src/xudp.rs:90-204 | Every run of sends reads back as the same payloads and addresses in order |
| Xudp.NewExactlyOnFirst | crates/rsb-protocol/src/xudp.rs:90-138 | Exactly the first frame to each target is NEW, and only it carries the global id |
| Reality.PatchList | crates/rsb-protocol/src/reality_mirror.rs:129-148 | In place: only the first X25519 key of the list changes, or nothing |
| Reality.PatchKeyShareEntries | crates/rsb-protocol/src/reality_mirror.rs:118-149 | In place: only the key of a single entry or of the list changes, or nothing |
| Reality.PatchExtension | crates/rsb-protocol/src/reality_mirror.rs:103-113 | In place: only a key inside this key_share extension changes, or nothing |
| Reality.PatchKeyShare | crates/rsb-protocol/src/reality_mirror.rs:100-116 | In place over all extensions: only the first X25519 key changes, and it is found exactly if there is one |
| Reality.KeyShareStable | crates/rsb-protocol/src/reality_mirror.rs:100-149 | Changing bytes from the key on does not move the key |
| Reality.BuildHello | crates/rsb-protocol/src/reality_mirror.rs:166-186 | The appended and back-patched record is the message with its true lengths |
| Reality.RebuildServerHello | crates/rsb-protocol/src/reality_mirror.rs:151-187 | The whole rebuild, error cases included, equals its functional form |
| Reality.RebuildPanicsExactly | crates/rsb-protocol/src/reality_mirror.rs:75-98 | The rebuild runs out of range if and only if the record is cut before the message or inside the fixed part of a ServerHello |
| Reality.ParseInvertsBuild | crates/rsb-protocol/src/reality_mirror.rs:75-98 | The parser gives back every hello built, whatever its session id |
| Reality.RebuildFaithful | crates/rsb-protocol/src/reality_mirror.rs:75-187 | A rebuilt record parses to the same random, cipher and compression, carries the client's session id and consistent lengths, differs in the extensions only in the first X25519 key, which is ours, and rebuilding it changes nothing |
| Reality.ServerShareRebuilt | crates/rsb-protocol/src/reality_mirror.rs:100-187 | With the key share in the form servers send, after any other extensions, a hello is rebuilt exactly for ciphers 0x1301 to 0x1303, the share replaced and all else kept |
| Reality.ListShareRebuilt | crates/rsb-protocol/src/reality_mirror.rs:100-187 | So it is with a list in the form clients send, at its first X25519 share |
| Reality.WithoutShareRefused | crates/rsb-protocol/src/reality_mirror.rs:100-116 | A hello without a key_share is an error |
| Reality.DestParsed | crates/rsb-protocol/src/reality_mirror.rs:75-98 | The parser reads a destination's hello, given in bytes, to its random, cipher, compression and extensions |
| Reality.RecordOnTheWire | crates/rsb-protocol/src/reality_mirror.rs:165-186 | A rebuilt record in bytes |
| Reality.LengthsTrueExactly | crates/rsb-protocol/src/reality_mirror.rs:165-186 | The lengths in a rebuilt record are the true ones if and only if the session id and the record fit their fields |
| RateLimit.RateLimiter.constructor | crates/rsb-core/src/rate_limit.rs:13-18 | A new bucket holds one second's tokens |
| RateLimit.RateLimiter.AcquireWait | crates/rsb-core/src/rate_limit.rs:34-55 | In numbers: admits at once exactly if tokens grown at the rate and capped at twice it suffice; else empties the bucket and names the wait that makes up the shortfall |
| RateLimit.IdleAdmits | crates/rsb-core/src/rate_limit.rs:40-49 | Once enough has flowed in, a call for at most two seconds' worth goes at once |
| RateLimit.TooMuchIsNeverAdmitted | crates/rsb-core/src/rate_limit.rs:40-54 | More than that never goes, and each attempt empties the bucket |
| RateLimit.RunBound | crates/rsb-core/src/rate_limit.rs:34-55 | Over any calls, admitted bytes plus tokens left never exceed tokens at the start plus what flowed in |
| RateLimit.TokensBounded | crates/rsb-core/src/rate_limit.rs:34-55 | Tokens stay within 0 and twice the rate |
| RateLimit.AdmittedSinceCreation | crates/rsb-core/src/rate_limit.rs:13-55 | Within t of creation at most R + R * t bytes are admitted |
| RateLimit.AdmittedInWindow | crates/rsb-core/src/rate_limit.rs:34-55 | In any window of length t at most 2 * R + R * t bytes are admitted, whatever came before |
| UserRuntime.Runtime.AcquireUser | crates/rsb-core/src/connection_manager.rs:116-134 | Run alone, admits exactly below both limits; the count stays the number of live sessions and within the limit |
| UserRuntime.Runtime.DropGuard | crates/rsb-core/src/connection_manager.rs:347-353 | Run alone, the count stays the number of live sessions; a detached guard belongs to none |
| UserRuntime.Runtime.RecordTraffic | crates/rsb-core/src/connection_manager.rs:151-157 | Run alone, the two counters go on adding up to all bytes recorded |
| UserRuntime.Runtime.UserQuotaOk | crates/rsb-core/src/connection_manager.rs:160-165 | Run alone, true exactly while the bytes recorded so far are below the quota |
| UserLimit.CallerAlone | crates/rsb-core/src/connection_manager.rs:116-134 | A caller nobody interleaves with is admitted exactly below the limit, and dropping its guard restores the state; a refusal changes nothing |
| Quota.HalfAlone | crates/rsb-protocol/src/inbound_proxy.rs:1375-1406 | A half nobody interleaves with records its chunk exactly if the total is below the quota, and leaves nothing else changed |
| UserLimit.StepKeepsInv | crates/rsb-core/src/connection_manager.rs:116-134 | Every step keeps the count equal to the guards held and, with those past the check, within bounds |
| UserLimit.CountBounded | crates/rsb-core/src/connection_manager.rs:116-134 | In every run the count equals the live guards, never underflows, and with at most T callers past the check is at most M + T - 1 |
| UserLimit.BoundIsReached | crates/rsb-core/src/connection_manager.rs:116-134 | Some run reaches exactly that bound, for every M and T |
| UserLimit.LimitRespectedExactlyWithoutOverlap | crates/rsb-core/src/connection_manager.rs:116-134 | The limit holds in all runs if and only if T is at most 1 or the limit is zero |
| Quota.StepKeepsInv | crates/rsb-protocol/src/inbound_proxy.rs:1375-1405 | Every step, the two loads of a check and resets of either counter included, keeps the traffic recorded plus that still to come within the bound |
| Quota.TotalBounded | crates/rsb-protocol/src/inbound_proxy.rs:1362-1409 | From below a quota Q, in every interleaving of at most k halves and counter resets, the recorded total is at most Q - 1 + 16384 * k |
| Quota.BoundIsReached | crates/rsb-protocol/src/inbound_proxy.rs:1375-1405 | Some run reaches exactly that total, for every Q and k |
| Inbound.StepKeepsTask | crates/rsb-protocol/src/inbound_proxy.rs:483-539 | Every step keeps what a task may own at each point of its life |
| Inbound.CapsHold | crates/rsb-protocol/src/inbound_proxy.rs:39-77 | In every interleaving the counter equals the live guards and is at most 512; at most 256 handshake and 16 dial permits are held, other listeners' dials included |
| Inbound.PermitsTakenExactlyBelowCaps | crates/rsb-protocol/src/inbound_proxy.rs:486-510 | A waiting task can take its permit if and only if fewer than 256, or 16 counting other listeners, are held |
| Inbound.AcceptedBelowCap | crates/rsb-protocol/src/inbound_proxy.rs:50-77 | A connection accepted below 512 guards and not overtaken gets its guard |
| Inbound.TurnedAwayAtCap | crates/rsb-protocol/src/inbound_proxy.rs:50-77 | One accepted at 512 is turned away |
| Inbound.EveryCountReached | crates/rsb-protocol/src/inbound_proxy.rs:50-77 | Every count up to 512 is reached in some run |
| Inbound.DirectTakesNoDialPermit | crates/rsb-protocol/src/inbound_proxy.rs:1637-1680 | A direct connection neither owns nor waits for a dial permit |
| Inbound.DirectIsNeverBlocked | crates/rsb-protocol/src/inbound_proxy.rs:1637-1680 | However many dials are queued, a directly routed task can reach its reply by its own steps |
| Inbound.ReplyAfterConnectWithoutPermits | crates/rsb-protocol/src/inbound_proxy.rs:670-687 | The success reply is written only when the outbound is connected and both permits are released |
| Inbound.FinishedOwnsNothing | crates/rsb-protocol/src/inbound_proxy.rs:483-539 | A finished task owns neither guard nor permit |
| Inbound.UnwindingGivesBackAll | crates/rsb-protocol/src/inbound_proxy.rs:483-539 | A task on its way out can always finish by itself and then has given back exactly what it owned |
| Inbound.AllFinishedFreesAll | crates/rsb-protocol/src/inbound_proxy.rs:39-77 | When all tasks are finished the counter is zero and every permit is back |
| Fallback.FallbackState.SelectedTag | crates/rsb-protocol/src/fallback.rs:80-87 | The tag of the child furthest down the list that a dial has returned; the default to the primary is never needed |
| Fallback.FallbackState.OnFailover | crates/rsb-protocol/src/fallback.rs:90-102 | Run alone, the active index stays the largest index returned |
| Fallback.FallbackState.DialOrder | crates/rsb-protocol/src/fallback.rs:105-112 | All indices from the active one to the last, in order |
| Fallback.FallbackState.DialWithFailover | crates/rsb-protocol/src/fallback.rs:160-204 | Run alone, returns the first connecting child from the active one on and makes it active; else the last child's error, and nothing moves |
| Fallback.EveryDialTakesFirst | crates/rsb-protocol/src/fallback.rs:160-247 | In every interleaving and failure pattern the active index stays in range, and a dial returns the first child from its start on that connects for it, failing exactly if none does |
| Fallback.SelectedTagIsActive | crates/rsb-protocol/src/fallback.rs:80-87 | In every interleaving the selected tag is the active child's, never the default; without failing back it is that of the largest index returned |
| Fallback.NothingOvertaken | crates/rsb-protocol/src/fallback.rs:90-102 | With one dial at a time inside `on_failover`, or two children, no store is overtaken by a larger one |
| Fallback.LaterDialsStartBelow | crates/rsb-protocol/src/fallback.rs:105-112 | While no store is overtaken, the active index never decreases and later dials start no higher in the list |
| Fallback.NoFailback | crates/rsb-protocol/src/fallback.rs:160-247 | While no store is overtaken, no dial returns a child above one returned before it began |
| Fallback.Sticks | crates/rsb-protocol/src/fallback.rs:90-204 | With at most one dial inside `on_failover` or at most two children, the cascade keeps all it promises |
| Fallback.NeverFailsBackExactly | crates/rsb-protocol/src/fallback.rs:90-204 | With at most T dials inside `on_failover` and n children: in all runs and failure patterns the active index is the largest ever returned, never decreases, and no later dial returns an earlier child, if and only if T is at most 1 or n at most 2 |
| Fallback.RacingStoresFailBack | crates/rsb-protocol/src/fallback.rs:90-102 | For every list of three or more children, a run of two overlapping dials that moves back from the third child to the second |

## Left out

- Vision.XtlsPadding: content of two gigabytes or more, whose length does not fit the source's 32-bit number, is excluded.
- FakeIp.FakeIpPool.Create: takes the parsed base and prefix; the CIDR text is not modelled.
- RateLimit.RateLimiter.AcquireWait: tokens and times are exact reals, so rounding of `f64` and of durations to nanoseconds is not modelled; whether repeated throttling ends is not stated.
- Quota.TotalBounded: the 64-bit counters do not overflow; relays that record traffic without the check are not part of it.
- Inbound.CapsHold: covers the CONNECT and SOCKS paths; plain HTTP forwarding and transparent redirection are not modelled, nor the order in which a semaphore serves its queue.
- Reality.RebuildFaithful: asks that the session id and the record fit their length fields, which is exactly when the lengths are true (`Reality.LengthsTrueExactly`).
- Xudp.RunRoundTrip: socket addresses are IP and port; IPv6 flow label and scope id, which the source's map keys on, are not modelled.
- Singleflight.AtMostOneResolve: hosts that are IP literals are answered without touching the cache and are not modelled; what a resolve does is not either.
- Fallback.FallbackState.constructor: a policy without children is excluded, as the source refuses it when reading the configuration.
- VmessHandshake.HandshakeAccepted: the stream after the handshake is not part of this model.
- FakeIp.FakeIpPool.Allocate: one call at a time; the source looks a domain up and records it under separate locks.
- Weak memory: in the concurrent modules all atomic accesses are steps of one global order, whatever ordering the source asks for.
- Cryptographic primitives, TLS, QUIC and key exchange.
- The Vision stream's write side and its choice of commands, and its polling.
- `build_response`, which copies a question count without the questions, so it is no inverse of `parse_response`.
- `lookup_uncached` beyond its fake-IP branch, DNS transports, rules and server selection.
- Tracked connection ids, statistics queries beyond resets, user ingestion, JSON configuration, subscription links.
- TLS and HTTP sniffing and HTTP rewriting: string handling outside this model.
- Sockets, routes, process lookup, sidecars, API servers, foreign interfaces.
