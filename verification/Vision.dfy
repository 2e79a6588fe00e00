/**
 XTLS Vision padding. A padded stream is the user's 16-byte id followed by blocks
 `command, content length, padding length, content, padding`; after the last block the stream is raw.
 The reader is fed arbitrary cuts of that stream.
 */
module Vision {
  import opened Bytes

  const CMD_PADDING_CONTINUE: byte := 0
  const CMD_PADDING_END: byte := 1
  const CMD_PADDING_DIRECT: byte := 2

  // ---------------------------------------------------------------- the reader's meaning

  /** Where the reader stands: outside any block, `left` bytes short of a full block header, or inside a block. */
  datatype Mode =
    | Raw
    | Header(left: int, cmd: byte, content: int, pad: int)
    | Body(cmd: byte, content: int, pad: int)

  const START: Mode := Header(5, 0, 0, 0)

  ghost predicate WellFormed(m: Mode) {
    match m
    case Raw => true
    case Header(left, _, content, pad) =>
      && 1 <= left <= 5
      && (left >= 4 ==> content == 0)
      && (left == 3 ==> 0 <= content <= 0xff00)
      && (left <= 2 ==> 0 <= content <= 0xffff)
      && (left >= 2 ==> pad == 0)
      && (left == 1 ==> 0 <= pad <= 0xff00)
      && (left == 5 ==> m == START)
    case Body(_, content, pad) =>
      0 <= content <= 0xffff && 0 <= pad <= 0xffff && content + pad > 0
  }

  function AfterBlock(cmd: byte): Mode {
    if cmd == CMD_PADDING_CONTINUE then START else Raw
  }

  function Settle(cmd: byte, content: nat, pad: nat): Mode {
    if content == 0 && pad == 0 then AfterBlock(cmd) else Body(cmd, content, pad)
  }

  /** What a run of the reader yields: its new position, the plain bytes, whether a DIRECT block ended. */
  datatype Out = Out(mode: Mode, data: bytes, direct: bool)

  function Ends(cmd: byte, content: nat, pad: nat): bool {
    content == 0 && pad == 0 && cmd == CMD_PADDING_DIRECT
  }

  /** One byte of a block. */
  function Step(m: Mode, b: byte): (r: Out)
    requires WellFormed(m) && !m.Raw?
    ensures WellFormed(r.mode)
  {
    match m
    case Header(left, cmd, content, pad) =>
      if left == 5 then Out(Header(4, b, 0, 0), [], false)
      else if left == 4 then Out(Header(3, cmd, b as int * 256, 0), [], false)
      else if left == 3 then Out(Header(2, cmd, content + b as int, 0), [], false)
      else if left == 2 then Out(Header(1, cmd, content, b as int * 256), [], false)
      else Out(Settle(cmd, content, pad + b as int), [], Ends(cmd, content, pad + b as int))
    case Body(cmd, content, pad) =>
      if content > 0 then Out(Settle(cmd, content - 1, pad), [b], Ends(cmd, content - 1, pad))
      else Out(Settle(cmd, 0, pad - 1), [], Ends(cmd, 0, pad - 1))
  }

  /** The meaning of one read: byte by byte inside a block; outside, the id opens a block and anything else is raw. */
  function Unpad(uuid: Bytes16, m: Mode, s: bytes): (r: Out)
    requires WellFormed(m)
    ensures WellFormed(r.mode)
    decreases |s|
  {
    if s == [] then Out(m, [], false)
    else if m.Raw? then
      if |s| >= 16 && s[..16] == uuid then Unpad(uuid, START, s[16..]) else Out(Raw, s, false)
    else
      var now := Step(m, s[0]);
      var later := Unpad(uuid, now.mode, s[1..]);
      Out(later.mode, now.data + later.data, now.direct || later.direct)
  }

  /** The outcome `acc` so far, continued over `s`. */
  function After(uuid: Bytes16, acc: Out, s: bytes): Out
    requires WellFormed(acc.mode)
  {
    var rest := Unpad(uuid, acc.mode, s);
    Out(rest.mode, acc.data + rest.data, acc.direct || rest.direct)
  }

  lemma FirstByte(uuid: Bytes16, m: Mode, s: bytes)
    requires WellFormed(m) && !m.Raw? && s != []
    ensures Unpad(uuid, m, s) == After(uuid, Step(m, s[0]), s[1..])
  {
  }

  lemma NothingRead(uuid: Bytes16, acc: Out)
    requires WellFormed(acc.mode)
    ensures After(uuid, acc, []) == acc
  {
  }

  lemma RawRead(uuid: Bytes16, acc: Out, s: bytes)
    requires s != [] && acc.mode == Raw
    ensures After(uuid, acc, s)
            == if |s| >= 16 && s[..16] == uuid then After(uuid, Out(START, acc.data, acc.direct), s[16..])
               else Out(Raw, acc.data + s, acc.direct)
  {
  }

  lemma AfterAfter(uuid: Bytes16, acc: Out, now: Out, s: bytes, rest: bytes)
    requires WellFormed(acc.mode) && WellFormed(now.mode)
    requires Unpad(uuid, acc.mode, s) == After(uuid, now, rest)
    ensures After(uuid, acc, s)
            == After(uuid, Out(now.mode, acc.data + now.data, acc.direct || now.direct), rest)
  {
    assert (acc.data + now.data) + Unpad(uuid, now.mode, rest).data
        == acc.data + (now.data + Unpad(uuid, now.mode, rest).data);
  }

  /** The meaning of a sequence of reads. */
  function Feed(uuid: Bytes16, m: Mode, chunks: seq<bytes>): (r: Out)
    requires WellFormed(m)
    ensures WellFormed(r.mode)
    decreases |chunks|
  {
    if chunks == [] then Out(m, [], false)
    else
      var now := Unpad(uuid, m, chunks[0]);
      var later := Feed(uuid, now.mode, chunks[1..]);
      Out(later.mode, now.data + later.data, now.direct || later.direct)
  }

  // ---------------------------------------------------------------- the reader

  lemma {:induction false} CopyContent(uuid: Bytes16, cmd: byte, content: nat, pad: nat, s: bytes, n: nat)
    requires content <= 0xffff && pad <= 0xffff
    requires 0 < n <= content && n <= |s|
    ensures Unpad(uuid, Body(cmd, content, pad), s)
            == After(uuid, Out(Settle(cmd, content - n, pad), s[..n], Ends(cmd, content - n, pad)), s[n..])
    decreases n
  {
    hide Unpad, After;
    FirstByte(uuid, Body(cmd, content, pad), s);
    if n > 1 {
      var later := Out(Settle(cmd, content - n, pad), s[1..][..n - 1], Ends(cmd, content - n, pad));
      CopyContent(uuid, cmd, content - 1, pad, s[1..], n - 1);
      AfterAfter(uuid, Out(Body(cmd, content - 1, pad), [s[0]], false), later, s[1..], s[1..][n - 1..]);
      assert s[1..][n - 1..] == s[n..];
      assert [s[0]] + s[1..][..n - 1] == s[..n];
    } else {
      assert s[..n] == [s[0]];
    }
  }

  lemma {:induction false} SkipPadding(uuid: Bytes16, cmd: byte, pad: nat, s: bytes, n: nat)
    requires pad <= 0xffff
    requires 0 < n <= pad && n <= |s|
    ensures Unpad(uuid, Body(cmd, 0, pad), s)
            == After(uuid, Out(Settle(cmd, 0, pad - n), [], Ends(cmd, 0, pad - n)), s[n..])
    decreases n
  {
    hide Unpad, After;
    FirstByte(uuid, Body(cmd, 0, pad), s);
    if n > 1 {
      var later := Out(Settle(cmd, 0, pad - n), [], Ends(cmd, 0, pad - n));
      SkipPadding(uuid, cmd, pad - 1, s[1..], n - 1);
      AfterAfter(uuid, Out(Body(cmd, 0, pad - 1), [], false), later, s[1..], s[1..][n - 1..]);
      assert s[1..][n - 1..] == s[n..];
      assert [] + later.data == [];
    }
  }

  /** `ReadPadState` with the two flags of the stream that the reader sets. */
  class Reader {
    const uuid: Bytes16
    var remainingCmd: int
    var remainingContent: int
    var remainingPad: int
    var currentCmd: int
    var direct: bool
    var isPadding: bool

    constructor (uuid: Bytes16)
      ensures this.uuid == uuid && Valid() && Mode() == Raw && !direct && isPadding
    {
      this.uuid := uuid;
      remainingCmd, remainingContent, remainingPad, currentCmd := 0, 0, 0, 0;
      direct, isPadding := false, true;
    }

    ghost predicate Valid() reads this {
      && -1 <= remainingCmd <= 5
      && 0 <= currentCmd < 256
      && (remainingCmd == -1 ==> remainingContent == remainingPad == -1)
      && (remainingCmd == 0 ==> remainingContent >= 0 && remainingPad >= 0)
      && (Mode() == Raw || remainingCmd >= 0)
      && WellFormed(Mode())
    }

    ghost function Mode(): Mode
      reads this
      requires 0 <= currentCmd < 256
    {
      if remainingCmd > 0 then
        Header(remainingCmd,
               if remainingCmd == 5 then 0 else currentCmd as byte,
               if remainingCmd >= 4 then 0 else remainingContent,
               if remainingCmd >= 2 then 0 else remainingPad)
      else if remainingContent > 0 || remainingPad > 0 then Body(currentCmd as byte, remainingContent, remainingPad)
      else Raw
    }

    /** Between a block's bytes and the end-of-block test: the header may be complete with nothing left to read. */
    ghost predicate Unsettled() reads this {
      && 0 <= currentCmd < 256
      && if remainingCmd > 0 then Valid()
         else remainingCmd == 0 && 0 <= remainingContent <= 0xffff && 0 <= remainingPad <= 0xffff
    }

    method ReadHeaderByte(b: byte)
      requires Valid() && remainingCmd > 0
      modifies `remainingCmd, `remainingContent, `remainingPad, `currentCmd
      ensures Unsettled()
      ensures var r := Step(old(Mode()), b);
              if remainingCmd > 0 then r == Out(Mode(), [], false)
              else r == Out(Settle(currentCmd as byte, remainingContent, remainingPad), [],
                            Ends(currentCmd as byte, remainingContent, remainingPad))
    {
      match remainingCmd {
        case 5 => currentCmd := b as int;
        case 4 => remainingContent := b as int * 256;
        case 3 => remainingContent := remainingContent + b as int; // the low byte is still zero: `|=` is addition
        case 2 => remainingPad := b as int * 256;
        case _ => remainingPad := remainingPad + b as int;
      }
      remainingCmd := remainingCmd - 1;
    }

    method EndOfBlock() returns (ghost ended: bool)
      requires Unsettled()
      modifies this
      ensures Valid() && (remainingCmd == 0 ==> Mode() != Raw)
      ensures direct == (old(direct) || ended) && isPadding == (old(isPadding) && !ended)
      ensures old(remainingCmd) > 0 ==> Mode() == old(Mode()) && !ended
      ensures old(remainingCmd) == 0 ==>
                && Mode() == Settle(currentCmd as byte, old(remainingContent), old(remainingPad))
                && ended == Ends(currentCmd as byte, old(remainingContent), old(remainingPad))
      ensures currentCmd == old(currentCmd)
    {
      ended := false;
      if remainingCmd <= 0 && remainingContent <= 0 && remainingPad <= 0 && remainingCmd != -1 {
        if currentCmd == CMD_PADDING_DIRECT as int {
          ended := true;
          direct := true;
          isPadding := false;
        }
        if currentCmd == CMD_PADDING_CONTINUE as int {
          remainingCmd := 5;
        } else {
          remainingCmd, remainingContent, remainingPad := -1, -1, -1;
        }
      }
    }

    /** One turn of the reading loop inside a block: consumes `n > 0` bytes and emits `data`. */
    method ReadInBlock(cursor: bytes) returns (n: nat, data: bytes, ghost ended: bool)
      requires Valid() && Mode() != Raw && cursor != []
      modifies this
      ensures Valid() && (remainingCmd == 0 ==> Mode() != Raw)
      ensures 0 < n <= |cursor|
      ensures direct == (old(direct) || ended) && isPadding == (old(isPadding) && !ended)
      ensures Unpad(uuid, old(Mode()), cursor) == After(uuid, Out(Mode(), data, ended), cursor[n..])
    {
      hide Unpad;
      if remainingCmd > 0 {
        FirstByte(uuid, Mode(), cursor);
        ReadHeaderByte(cursor[0]);
        n, data := 1, [];
      } else if remainingContent > 0 {
        n := if remainingContent <= |cursor| then remainingContent else |cursor|;
        CopyContent(uuid, currentCmd as byte, remainingContent, remainingPad, cursor, n);
        data := cursor[..n];
        remainingContent := remainingContent - n;
      } else {
        n := if remainingPad <= |cursor| then remainingPad else |cursor|;
        SkipPadding(uuid, currentCmd as byte, remainingPad, cursor, n);
        data := [];
        remainingPad := remainingPad - n;
      }
      ended := EndOfBlock();
    }

    /** Reads one chunk: the bytes returned and the position reached are those of `Unpad`. */
    method ProcessReadPadding(input: bytes) returns (out: bytes)
      requires Valid()
      modifies this
      ensures Valid()
      ensures var r := Unpad(uuid, old(Mode()), input);
              && out == r.data
              && Mode() == r.mode
              && direct == (old(direct) || r.direct)
              && isPadding == (old(isPadding) && !r.direct)
    {
      assert WellFormed(START) && WellFormed(Raw);
      hide Unpad, Step, WellFormed, After;
      out := [];
      var cursor := input;
      Silent(uuid, Mode(), input);
      ghost var want, sawDirect := Unpad(uuid, Mode(), input), false;
      if remainingCmd == 0 && remainingContent == 0 && remainingPad == 0 {
        remainingCmd, remainingContent, remainingPad := -1, -1, -1;
      }
      while cursor != []
        invariant Valid() && (remainingCmd == 0 ==> Mode() != Raw)
        invariant want == After(uuid, Out(Mode(), out, sawDirect), cursor)
        invariant direct == (old(direct) || sawDirect) && isPadding == (old(isPadding) && !sawDirect)
        decreases |cursor|
      {
        if remainingCmd > 0 || remainingContent > 0 || remainingPad > 0 {
          ghost var m := Mode();
          ghost var d;
          var n, data;
          n, data, d := ReadInBlock(cursor);
          AfterAfter(uuid, Out(m, out, sawDirect), Out(Mode(), data, d), cursor, cursor[n..]);
          out, cursor, sawDirect := out + data, cursor[n..], sawDirect || d;
        } else if remainingCmd == -1 && |cursor| >= 16 && cursor[..16] == uuid {
          RawRead(uuid, Out(Raw, out, sawDirect), cursor);
          cursor := cursor[16..];
          remainingCmd := 5;
        } else {
          RawRead(uuid, Out(Raw, out, sawDirect), cursor);
          out := out + cursor;
          return;
        }
      }
      NothingRead(uuid, Out(Mode(), out, sawDirect));
    }
  }

  // ---------------------------------------------------------------- the writer

  const MAX_CONTENT: nat := 65514

  /** A padded block; the writer pads with zeros, the reader does not look. */
  datatype Block = Block(cmd: byte, content: bytes, padding: bytes) {
    predicate Fits() {
      |content| <= 0xffff && |padding| <= 0xffff
    }
  }

  function EncodeBlock(b: Block): bytes
    requires b.Fits()
  {
    [b.cmd] + U16(|b.content|) + U16(|b.padding|) + b.content + b.padding
  }

  /** The padding's length; it goes negative where the content alone is too long. */
  function PaddingLen(contentLen: nat, longPad: bool, random: u32): (n: int)
    ensures contentLen <= MAX_CONTENT ==> 0 <= n <= MAX_CONTENT - contentLen
    ensures contentLen > MAX_CONTENT ==> n == MAX_CONTENT - contentLen
  {
    var wanted := if contentLen < 900 && longPad then random % 500 + 900 - contentLen else random % 256;
    if wanted <= 65535 - 21 - contentLen then wanted else 65535 - 21 - contentLen
  }

  /**
   What may be drawn: a long padding fills the block up to any total from 900 to 1399 bytes, any other one has from 0
   to 255 bytes or what is left below the cap.
   */
  lemma PaddingDrawn(contentLen: nat, longPad: bool, random: u32)
    requires contentLen <= MAX_CONTENT
    ensures if contentLen < 900 && longPad then 900 <= contentLen + PaddingLen(contentLen, longPad, random) <= 1399
            else PaddingLen(contentLen, longPad, random) == Least(random % 256, 65514 - contentLen)
  {
  }

  lemma EveryPaddingDrawn(contentLen: nat, longPad: bool, total: nat) returns (random: u32)
    requires contentLen <= MAX_CONTENT
    requires if contentLen < 900 && longPad then 900 <= total <= 1399 else contentLen <= total <= contentLen + 255
    ensures contentLen + PaddingLen(contentLen, longPad, random)
            == if contentLen < 900 && longPad then total else Least(total, 65514)
  {
    random := if contentLen < 900 && longPad then total - 900 else total - contentLen;
  }

  function Least(a: nat, b: nat): nat {
    if a < b then a else b
  }

  /** The two low bytes of a 32-bit number, negative ones in two's complement. */
  function LowBytes(n: int): (s: bytes)
    ensures |s| == 2 && (0 <= n < 0x1_0000 ==> s == U16(n))
  {
    [(n / 256 % 256) as byte, (n % 256) as byte]
  }

  function OrEmpty(b: Option<bytes>): bytes {
    if b.Some? then b.value else []
  }

  ghost predicate Written(
    c: bytes, id: bytes, command: byte, longPad: bool, random: u32, checked: bool, r: Result<bytes>)
  {
    var pad := PaddingLen(|c|, longPad, random);
    if |c| <= MAX_CONTENT then r == Ok(id + EncodeBlock(Block(command, c, Zeros(pad))))
    else if checked then r == Panic
    else r.Ok? && |r.value| == |id| + 5 + MAX_CONTENT && r.value[|id| + 5..] == c[..MAX_CONTENT]
  }

  /**
   Writes one block of content that fits; with the id it still takes at most 65535 bytes. Longer content stops the
   program in a build with overflow checks, and is cut off after 65514 bytes, without padding, in one without.
   */
  method XtlsPadding(
    content: Option<bytes>, command: byte, userUuid: Option<bytes>, longPad: bool, random: u32, checked: bool)
    returns (r: Result<bytes>)
    requires content.Some? ==> |content.value| < 0x8000_0000
    ensures Written(OrEmpty(content), OrEmpty(userUuid), command, longPad, random, checked, r)
    ensures r.Ok? && |OrEmpty(userUuid)| <= 16 ==> |r.value| <= 65535
  {
    ghost var c, id := OrEmpty(content), OrEmpty(userUuid);
    var paddingLen := PaddingLen(|OrEmpty(content)|, longPad, random);
    var out := WriteFront(content, command, userUuid, paddingLen);
    hide LowBytes, EncodeBlock, Written, OrEmpty, PaddingLen;
    if paddingLen >= 0 {
      Padded(c, id, command, longPad, random, checked);
      out := out + Zeros(paddingLen);
    } else if checked {
      TooLong(c, id, command, longPad, random);
      return Panic;
    } else {
      TooLong(c, id, command, longPad, random);
      out := out[..|out| + paddingLen];
    }
    return Ok(out);
  }

  lemma Padded(c: bytes, id: bytes, command: byte, longPad: bool, random: u32, checked: bool)
    requires |c| <= MAX_CONTENT
    ensures var pad := PaddingLen(|c|, longPad, random);
            var out := id + [command] + LowBytes(|c|) + LowBytes(pad) + c + Zeros(pad);
            Written(c, id, command, longPad, random, checked, Ok(out)) && |out| <= |id| + 5 + MAX_CONTENT
  {
    hide LowBytes, EncodeBlock, PaddingLen;
    BlockBytes(id, Block(command, c, Zeros(PaddingLen(|c|, longPad, random))));
  }

  lemma TooLong(c: bytes, id: bytes, command: byte, longPad: bool, random: u32)
    requires |c| > MAX_CONTENT
    ensures Written(c, id, command, longPad, random, true, Panic)
    ensures var pad := PaddingLen(|c|, longPad, random);
            var out := id + [command] + LowBytes(|c|) + LowBytes(pad) + c;
            && 0 <= |out| + pad <= |out| && |out| + pad == |id| + 5 + MAX_CONTENT
            && Written(c, id, command, longPad, random, false, Ok(out[..|out| + pad]))
  {
    hide LowBytes, PaddingLen;
    CutFront(id + [command] + LowBytes(|c|) + LowBytes(PaddingLen(|c|, longPad, random)), c);
  }

  /** All of a block but its padding, behind the id. */
  method WriteFront(content: Option<bytes>, command: byte, userUuid: Option<bytes>, paddingLen: int)
    returns (out: bytes)
    ensures var c := OrEmpty(content);
            out == OrEmpty(userUuid) + [command] + LowBytes(|c|) + LowBytes(paddingLen) + c
  {
    hide LowBytes;
    out := [];
    if userUuid.Some? {
      Nothing(userUuid.value);
      out := out + userUuid.value;
    }
    out := out + [command];
    out := out + LowBytes(|OrEmpty(content)|);
    out := out + LowBytes(paddingLen);
    if content.Some? {
      out := out + content.value;
    } else {
      Nothing(out);
    }
  }

  lemma CutFront(header: bytes, c: bytes)
    requires |c| > MAX_CONTENT
    ensures var out := (header + c)[..|header| + MAX_CONTENT];
            |out| == |header| + MAX_CONTENT && out[|header|..] == c[..MAX_CONTENT]
  {
  }

  lemma BlockBytes(id: bytes, b: Block)
    requires b.Fits()
    ensures id + EncodeBlock(b)
            == id + [b.cmd] + LowBytes(|b.content|) + LowBytes(|b.padding|) + b.content + b.padding
    ensures |id + EncodeBlock(b)| == |id| + 5 + |b.content| + |b.padding|
  {
    hide LowBytes, U16;
    var c, p := U16(|b.content|), U16(|b.padding|);
    Assoc4(id, [b.cmd], c, p);
    Assoc(id, [b.cmd] + c + p, b.content);
    Assoc(id, [b.cmd] + c + p + b.content, b.padding);
  }

  /** A block in bytes. */
  lemma BlockOnTheWire(b: Block)
    requires b.Fits()
    ensures var e, n := EncodeBlock(b), |b.content|;
            && |e| == 5 + n + |b.padding| && e[0] == b.cmd
            && e[1] as int * 256 + e[2] as int == n && e[3] as int * 256 + e[4] as int == |b.padding|
            && e[5..5 + n] == b.content && e[5 + n..] == b.padding
  {
  }

  function EncodeRun(bs: seq<Block>): bytes
    requires forall b | b in bs :: b.Fits()
  {
    if bs == [] then [] else EncodeBlock(bs[0]) + EncodeRun(bs[1..])
  }

  function Contents(bs: seq<Block>): bytes {
    if bs == [] then [] else bs[0].content + Contents(bs[1..])
  }

  /** CONTINUE blocks closed by one that is not. */
  ghost predicate IsRun(bs: seq<Block>) {
    && bs != []
    && (forall b | b in bs :: b.Fits())
    && (forall i | 0 <= i < |bs| - 1 :: bs[i].cmd == CMD_PADDING_CONTINUE)
    && bs[|bs| - 1].cmd != CMD_PADDING_CONTINUE
  }

  // ---------------------------------------------------------------- every cut reads the same

  ghost predicate IdAt(uuid: Bytes16, s: bytes, i: nat) {
    i + 16 <= |s| && s[i..i + 16] == uuid
  }

  ghost predicate Occurs(uuid: Bytes16, s: bytes) {
    exists i: nat :: IdAt(uuid, s, i)
  }

  /** No id shows up in the raw part of the stream. */
  ghost predicate Clean(uuid: Bytes16, m: Mode, s: bytes)
    requires WellFormed(m)
    decreases |s|
  {
    if m.Raw? then !Occurs(uuid, s)
    else s == [] || Clean(uuid, Step(m, s[0]).mode, s[1..])
  }

  lemma OccursInWhole(uuid: Bytes16, a: bytes, b: bytes)
    ensures Occurs(uuid, a) || Occurs(uuid, b) ==> Occurs(uuid, a + b)
  {
    if Occurs(uuid, a) {
      var i: nat :| IdAt(uuid, a, i);
      assert (a + b)[i..i + 16] == a[i..i + 16];
      assert IdAt(uuid, a + b, i);
    }
    if Occurs(uuid, b) {
      var i: nat :| IdAt(uuid, b, i);
      assert (a + b)[|a| + i..|a| + i + 16] == b[i..i + 16];
      assert IdAt(uuid, a + b, |a| + i);
    }
  }

  lemma NoIdAtFront(uuid: Bytes16, s: bytes)
    ensures Occurs(uuid, s) || Unpad(uuid, Raw, s) == Out(Raw, s, false)
  {
    if |s| >= 16 && s[..16] == uuid {
      assert s[0..16] == s[..16];
      assert IdAt(uuid, s, 0);
    }
  }

  lemma {:induction false} CleanReads(uuid: Bytes16, m: Mode, a: bytes, b: bytes)
    requires WellFormed(m) && Clean(uuid, m, a + b)
    ensures Unpad(uuid, m, a + b) == After(uuid, Unpad(uuid, m, a), b)
    ensures Clean(uuid, Unpad(uuid, m, a).mode, b)
    decreases |a|
  {
    if m.Raw? {
      OccursInWhole(uuid, a, b);
      NoIdAtFront(uuid, a + b);
      NoIdAtFront(uuid, a);
      NoIdAtFront(uuid, b);
    } else if a == [] {
      assert a + b == b;
    } else {
      var now := Step(m, a[0]);
      assert (a + b)[1..] == a[1..] + b;
      CleanReads(uuid, now.mode, a[1..], b);
      AfterAfter(uuid, now, Unpad(uuid, now.mode, a[1..]), a[1..] + b, b);
    }
  }

  lemma {:induction false} CleanFeed(uuid: Bytes16, m: Mode, chunks: seq<bytes>)
    requires WellFormed(m) && Clean(uuid, m, Flatten(chunks))
    ensures Feed(uuid, m, chunks) == Unpad(uuid, m, Flatten(chunks))
    decreases |chunks|
  {
    if chunks != [] {
      CleanReads(uuid, m, chunks[0], Flatten(chunks[1..]));
      CleanFeed(uuid, Unpad(uuid, m, chunks[0]).mode, chunks[1..]);
    }
  }

  // ---------------------------------------------------------------- reading back what was written

  lemma OneByte(uuid: Bytes16, m: Mode, b: byte, rest: bytes)
    requires WellFormed(m) && !m.Raw?
    ensures Unpad(uuid, m, [b] + rest) == After(uuid, Step(m, b), rest)
    ensures Clean(uuid, m, [b] + rest) == Clean(uuid, Step(m, b).mode, rest)
  {
    assert ([b] + rest)[1..] == rest;
  }

  lemma Silent(uuid: Bytes16, m: Mode, s: bytes)
    requires WellFormed(m)
    ensures After(uuid, Out(m, [], false), s) == Unpad(uuid, m, s)
  {
  }

  lemma HeaderBytes(cmd: byte, c: u16, p: u16, rest: bytes)
    ensures [cmd] + U16(c) + U16(p) + rest
            == [cmd] + ([U16(c)[0]] + ([U16(c)[1]] + ([U16(p)[0]] + ([U16(p)[1]] + rest))))
  {
  }

  lemma ReadHeader(uuid: Bytes16, cmd: byte, c: u16, p: u16, rest: bytes)
    ensures var s := [cmd] + U16(c) + U16(p) + rest;
            && Unpad(uuid, START, s) == After(uuid, Out(Settle(cmd, c, p), [], Ends(cmd, c, p)), rest)
            && Clean(uuid, START, s) == Clean(uuid, Settle(cmd, c, p), rest)
  {
    hide Unpad, Clean, After;
    HeaderBytes(cmd, c, p, rest);
    var m4, m3 := Header(4, cmd, 0, 0), Header(3, cmd, (c / 256) * 256, 0);
    var m2, m1 := Header(2, cmd, c, 0), Header(1, cmd, c, (p / 256) * 256);
    var s4 := [U16(p)[1]] + rest;
    var s3 := [U16(p)[0]] + s4;
    var s2 := [U16(c)[1]] + s3;
    var s1 := [U16(c)[0]] + s2;
    OneByte(uuid, START, cmd, s1);
    OneByte(uuid, m4, U16(c)[0], s2);
    OneByte(uuid, m3, U16(c)[1], s3);
    OneByte(uuid, m2, U16(p)[0], s4);
    OneByte(uuid, m1, U16(p)[1], rest);
    Silent(uuid, m4, s1);
    Silent(uuid, m3, s2);
    Silent(uuid, m2, s3);
    Silent(uuid, m1, s4);
  }

  lemma ReadPadding(uuid: Bytes16, cmd: byte, data: bytes, padding: bytes, rest: bytes)
    requires |padding| <= 0xffff
    ensures After(uuid, Out(Settle(cmd, 0, |padding|), data, Ends(cmd, 0, |padding|)), padding + rest)
            == After(uuid, Out(AfterBlock(cmd), data, cmd == CMD_PADDING_DIRECT), rest)
  {
    if padding == [] {
      assert padding + rest == rest;
    } else {
      SkipPadding(uuid, cmd, |padding|, padding + rest, |padding|);
      Halves(padding, rest);
      Silent(uuid, AfterBlock(cmd), rest);
    }
  }

  lemma ReadBody(uuid: Bytes16, cmd: byte, content: bytes, padding: bytes, rest: bytes)
    requires |content| <= 0xffff && |padding| <= 0xffff
    ensures var m := Settle(cmd, |content|, |padding|);
            After(uuid, Out(m, [], Ends(cmd, |content|, |padding|)), content + (padding + rest))
            == After(uuid, Out(AfterBlock(cmd), content, cmd == CMD_PADDING_DIRECT), rest)
  {
    ReadPadding(uuid, cmd, content, padding, rest);
    if content == [] {
      assert content + (padding + rest) == padding + rest;
    } else {
      CopyContent(uuid, cmd, |content|, |padding|, content + (padding + rest), |content|);
      Halves(content, padding + rest);
      Silent(uuid, Body(cmd, |content|, |padding|), content + (padding + rest));
    }
  }

  lemma {:induction false} CleanBody(uuid: Bytes16, cmd: byte, content: nat, pad: nat, s: bytes, rest: bytes)
    requires content <= 0xffff && pad <= 0xffff && |s| == content + pad
    requires Clean(uuid, AfterBlock(cmd), rest)
    ensures Clean(uuid, Settle(cmd, content, pad), s + rest)
    decreases |s|
  {
    if s == [] {
      assert s + rest == rest;
    } else {
      assert (s + rest)[1..] == s[1..] + rest;
      if content > 0 {
        CleanBody(uuid, cmd, content - 1, pad, s[1..], rest);
      } else {
        CleanBody(uuid, cmd, 0, pad - 1, s[1..], rest);
      }
    }
  }

  lemma BlockThen(b: Block, rest: bytes)
    requires b.Fits()
    ensures EncodeBlock(b) + rest
            == [b.cmd] + U16(|b.content|) + U16(|b.padding|) + (b.content + (b.padding + rest))
    ensures b.content + (b.padding + rest) == b.content + b.padding + rest
  {
    var h := [b.cmd] + U16(|b.content|) + U16(|b.padding|);
    Assoc(h, b.content, b.padding);
    Assoc(h, b.content + b.padding, rest);
    Assoc(b.content, b.padding, rest);
  }

  lemma ReadBlock(uuid: Bytes16, b: Block, rest: bytes)
    requires b.Fits()
    ensures Unpad(uuid, START, EncodeBlock(b) + rest)
            == After(uuid, Out(AfterBlock(b.cmd), b.content, b.cmd == CMD_PADDING_DIRECT), rest)
    ensures Clean(uuid, AfterBlock(b.cmd), rest) ==> Clean(uuid, START, EncodeBlock(b) + rest)
  {
    BlockThen(b, rest);
    ReadHeader(uuid, b.cmd, |b.content|, |b.padding|, b.content + (b.padding + rest));
    ReadBody(uuid, b.cmd, b.content, b.padding, rest);
    if Clean(uuid, AfterBlock(b.cmd), rest) {
      CleanBody(uuid, b.cmd, |b.content|, |b.padding|, b.content + b.padding, rest);
    }
  }

  lemma RunParts(bs: seq<Block>, tail: bytes)
    requires bs != [] && forall b | b in bs :: b.Fits()
    ensures EncodeRun(bs) + tail == EncodeBlock(bs[0]) + (EncodeRun(bs[1..]) + tail)
    ensures Contents(bs) + tail == bs[0].content + (Contents(bs[1..]) + tail)
    ensures |bs| == 1 ==> EncodeRun(bs[1..]) + tail == tail && Contents(bs[1..]) + tail == tail
  {
    Assoc(EncodeBlock(bs[0]), EncodeRun(bs[1..]), tail);
    Assoc(bs[0].content, Contents(bs[1..]), tail);
  }

  lemma RawTail(uuid: Bytes16, tail: bytes)
    requires !Occurs(uuid, tail)
    ensures Unpad(uuid, Raw, tail) == Out(Raw, tail, false) && Clean(uuid, Raw, tail)
  {
    NoIdAtFront(uuid, tail);
  }

  lemma RunTail(bs: seq<Block>)
    requires IsRun(bs)
    ensures bs != [] && forall b | b in bs :: b.Fits()
    ensures |bs| > 1 ==> bs[0].cmd == CMD_PADDING_CONTINUE && IsRun(bs[1..]) && bs[1..][|bs| - 2] == bs[|bs| - 1]
    ensures |bs| == 1 ==> bs[0].cmd != CMD_PADDING_CONTINUE
  {
  }

  lemma Continued(uuid: Bytes16, acc: Out, s: bytes, later: Out)
    requires WellFormed(acc.mode) && Unpad(uuid, acc.mode, s) == later
    ensures After(uuid, acc, s) == Out(later.mode, acc.data + later.data, acc.direct || later.direct)
  {
  }

  lemma {:induction false} ReadRun(uuid: Bytes16, bs: seq<Block>, tail: bytes)
    requires IsRun(bs) && !Occurs(uuid, tail)
    ensures Unpad(uuid, START, EncodeRun(bs) + tail)
            == Out(Raw, Contents(bs) + tail, bs[|bs| - 1].cmd == CMD_PADDING_DIRECT)
    ensures Clean(uuid, START, EncodeRun(bs) + tail)
    decreases |bs|
  {
    RunTail(bs);
    RunParts(bs, tail);
    hide Unpad, After, Clean, Occurs, EncodeBlock, EncodeRun, Contents, IsRun;
    var rest := EncodeRun(bs[1..]) + tail;
    var acc := Out(AfterBlock(bs[0].cmd), bs[0].content, bs[0].cmd == CMD_PADDING_DIRECT);
    ReadBlock(uuid, bs[0], rest);
    if |bs| == 1 {
      RawTail(uuid, tail);
      Continued(uuid, acc, rest, Out(Raw, tail, false));
    } else {
      ReadRun(uuid, bs[1..], tail);
      Continued(uuid, acc, rest,
                Out(Raw, Contents(bs[1..]) + tail, bs[1..][|bs| - 2].cmd == CMD_PADDING_DIRECT));
    }
  }

  // ---------------------------------------------------------------- the round trip

  /** The first read that delivers anything delivers at least the whole id. */
  predicate WholeIdFirst(chunks: seq<bytes>) {
    chunks != [] && if chunks[0] == [] then WholeIdFirst(chunks[1..]) else |chunks[0]| >= 16
  }

  /**
   The contents of a padded run followed by a raw tail come back, however the stream is cut,
   as long as the first read holds the id; the reader goes direct exactly after a DIRECT block.
   */
  lemma {:induction false} UnpaddingInvertsPadding(uuid: Bytes16, bs: seq<Block>, tail: bytes, chunks: seq<bytes>)
    requires IsRun(bs) && !Occurs(uuid, tail)
    requires Flatten(chunks) == uuid + EncodeRun(bs) + tail && WholeIdFirst(chunks)
    ensures Feed(uuid, Raw, chunks)
            == Out(Raw, Contents(bs) + tail, bs[|bs| - 1].cmd == CMD_PADDING_DIRECT)
    decreases |chunks|
  {
    if chunks[0] == [] {
      assert Flatten(chunks) == Flatten(chunks[1..]);
      UnpaddingInvertsPadding(uuid, bs, tail, chunks[1..]);
    } else {
      var s := EncodeRun(bs) + tail;
      Assoc(uuid, EncodeRun(bs), tail);
      Recut(chunks[0], Flatten(chunks[1..]), uuid, s);
      ReadRun(uuid, bs, tail);
      CleanReads(uuid, START, chunks[0][16..], Flatten(chunks[1..]));
      CleanFeed(uuid, Unpad(uuid, START, chunks[0][16..]).mode, chunks[1..]);
    }
  }

  lemma {:induction false} RunLength(bs: seq<Block>)
    requires forall b | b in bs :: b.Fits()
    ensures |Contents(bs)| <= |EncodeRun(bs)|
  {
    if bs != [] {
      RunLength(bs[1..]);
    }
  }

  /** A read that begins with the id is a place in the stream where the id stands. */
  lemma {:induction false} IdInStream(uuid: Bytes16, chunks: seq<bytes>, k: nat)
    requires k < |chunks| && |chunks[k]| >= 16 && chunks[k][..16] == uuid
    ensures IdAt(uuid, Flatten(chunks), |Flatten(chunks[..k])|)
    decreases k
  {
    var first, rest := chunks[0], Flatten(chunks[1..]);
    if k == 0 {
      assert (first + rest)[0..16] == first[..16];
    } else {
      IdInStream(uuid, chunks[1..], k - 1);
      assert chunks[1..][..k - 1] == chunks[..k][1..];
      var i := |Flatten(chunks[..k][1..])|;
      assert (first + rest)[|first| + i..|first| + i + 16] == rest[i..i + 16];
    }
  }

  /** Before the first read that begins with the id, something has been read, if the first read was short. */
  lemma {:induction false} ShortBefore(chunks: seq<bytes>, k: nat)
    requires k < |chunks| && |chunks[k]| >= 16 && !WholeIdFirst(chunks)
    ensures |Flatten(chunks[..k])| > 0
    decreases k
  {
    if k > 0 {
      if chunks[0] == [] {
        ShortBefore(chunks[1..], k - 1);
        assert chunks[1..][..k - 1] == chunks[..k][1..];
      }
    }
  }

  /**
   Where the id stands in the stream only at its front, the contents and the tail come back exactly for the cuts
   whose first non-empty read holds the whole id.
   */
  lemma UnpaddedExactlyWithWholeId(uuid: Bytes16, bs: seq<Block>, tail: bytes, chunks: seq<bytes>)
    requires IsRun(bs) && Flatten(chunks) == uuid + EncodeRun(bs) + tail
    requires forall i: nat | IdAt(uuid, Flatten(chunks), i) :: i == 0
    ensures Feed(uuid, Raw, chunks) == Out(Raw, Contents(bs) + tail, bs[|bs| - 1].cmd == CMD_PADDING_DIRECT)
            <==> WholeIdFirst(chunks)
  {
    if WholeIdFirst(chunks) {
      TailIsFree(uuid, uuid + EncodeRun(bs), tail);
      UnpaddingInvertsPadding(uuid, bs, tail, chunks);
    } else {
      forall c | c in chunks ensures |c| < 16 || c[..16] != uuid {
        var k :| 0 <= k < |chunks| && chunks[k] == c;
        if |c| >= 16 && c[..16] == uuid {
          IdInStream(uuid, chunks, k);
          ShortBefore(chunks, k);
          assert false;
        }
      }
      ShortFirstReadIsNotUnpadded(uuid, chunks);
      RunLength(bs);
    }
  }

  lemma TailIsFree(uuid: Bytes16, front: bytes, tail: bytes)
    requires front != [] && forall i: nat | IdAt(uuid, front + tail, i) :: i == 0
    ensures !Occurs(uuid, tail)
  {
    forall i: nat ensures !IdAt(uuid, tail, i) {
      if i + 16 <= |tail| {
        assert (front + tail)[|front| + i..|front| + i + 16] == tail[i..i + 16];
      }
      assert !IdAt(uuid, front + tail, |front| + i);
    }
  }

  /**
   Why the first read matters: if it stops short of the id and no later read begins with the id,
   the padded stream is passed through untouched, headers and padding included.
   */
  lemma {:induction false} ShortFirstReadIsNotUnpadded(uuid: Bytes16, chunks: seq<bytes>)
    requires forall c | c in chunks :: |c| < 16 || c[..16] != uuid
    ensures Feed(uuid, Raw, chunks) == Out(Raw, Flatten(chunks), false)
  {
    if chunks != [] {
      ShortFirstReadIsNotUnpadded(uuid, chunks[1..]);
    }
  }
}
