/**
 The VMess response header: a sealed length (18 bytes) and a sealed header. One reader blocks on the stream,
 the other is polled and keeps its partial state; both must take the same bytes.
 */
module VmessResponse {
  import opened Bytes
  import opened VmessHeader
  import opened Kdf

  const KDF_RESP_LEN_KEY := Ascii("AEAD Resp Header Len Key")
  const KDF_RESP_LEN_IV := Ascii("AEAD Resp Header Len IV")
  const KDF_RESP_KEY := Ascii("AEAD Resp Header Key")
  const KDF_RESP_IV := Ascii("AEAD Resp Header IV")

  /** The keys of one connection. */
  datatype Session = Session(c: Crypto, key: Bytes16, nonce: Bytes16) {
    function ResponseKey(): bytes {
      c.sha(key)[..16]
    }

    function ResponseNonce(): bytes {
      c.sha(nonce)[..16]
    }

    function Seal(keyLabel: bytes, ivLabel: bytes, plain: bytes): bytes {
      c.seal(c.Key(ResponseKey(), [keyLabel]), c.Nonce(ResponseNonce(), [ivLabel]), plain, [])
    }

    function Open(keyLabel: bytes, ivLabel: bytes, sealed: bytes): Option<bytes> {
      c.open(c.Key(ResponseKey(), [keyLabel]), c.Nonce(ResponseNonce(), [ivLabel]), sealed, [])
    }

    /** Key and nonce for a label, from the hashed request key and nonce. */
    function Key(name: string): bytes {
      KdfOf(c.sha, c.sha(key)[..16], [Ascii(name)])[..16]
    }

    function Iv(name: string): bytes {
      KdfOf(c.sha, c.sha(nonce)[..16], [Ascii(name)])[..12]
    }

    /** The header length announced by the first 18 bytes, if they are genuine. */
    function OpenLen(sealed: bytes): Option<nat> {
      var plain := Open(KDF_RESP_LEN_KEY, KDF_RESP_LEN_IV, sealed);
      if plain.Some? && |plain.value| >= 2 then Some(FromU16(plain.value[0], plain.value[1])) else None
    }

    predicate HeaderGenuine(sealed: bytes) {
      Open(KDF_RESP_KEY, KDF_RESP_IV, sealed).Some?
    }
  }

  /** What a stream that starts with `s` amounts to: not enough yet, refused, or a header of `used` bytes. */
  datatype Verdict = NeedMore | Refused | Taken(used: nat)

  /** The blocking reader run on a stream that delivers `s` and then ends. */
  function ReadResponse(x: Session, s: bytes): Verdict {
    if |s| < 18 then NeedMore
    else
      var len := x.OpenLen(s[..18]);
      if len.None? then Refused
      else
        var end := 18 + len.value + 16;
        if |s| < end then NeedMore
        else if x.HeaderGenuine(s[18..end]) then Taken(end) else Refused
  }

  /** Once decided, always decided: later bytes change nothing. */
  lemma VerdictStable(x: Session, s: bytes, more: bytes)
    requires !ReadResponse(x, s).NeedMore?
    ensures ReadResponse(x, s + more) == ReadResponse(x, s)
  {
    hide Session.OpenLen, Session.HeaderGenuine;
    SameFront(s, more, 0, 18);
    var len := x.OpenLen(s[..18]);
    if len.Some? {
      SameFront(s, more, 18, 18 + len.value + 16);
    }
  }

  function ServerResponse(x: Session, response: byte, option: byte): bytes {
    x.Seal(KDF_RESP_LEN_KEY, KDF_RESP_LEN_IV, U16(4))
      + x.Seal(KDF_RESP_KEY, KDF_RESP_IV, [response, option, 0, 0])
  }

  /** Every server response is taken, whole and no more, whatever follows it. */
  lemma ServerResponseTaken(x: Session, response: byte, option: byte, rest: bytes)
    requires x.c.Lawful()
    ensures |ServerResponse(x, response, option)| == 38
    ensures ReadResponse(x, ServerResponse(x, response, option) + rest) == Taken(38)
  {
    var len := x.Seal(KDF_RESP_LEN_KEY, KDF_RESP_LEN_IV, U16(4));
    var hdr := x.Seal(KDF_RESP_KEY, KDF_RESP_IV, [response, option, 0, 0]);
    var s := len + hdr + rest;
    assert s[..18] == len;
    assert s[18..38] == hdr;
    assert x.OpenLen(len) == Some(4);
  }

  /** What the server seals: the length 4, then response byte and option with two zeros, under keys of their own. */
  lemma ResponseOnTheWire(x: Session, response: byte, option: byte)
    requires x.c.Lawful()
    ensures var s := ServerResponse(x, response, option);
            && x.c.open(x.Key("AEAD Resp Header Len Key"), x.Iv("AEAD Resp Header Len IV"), s[..18], []) == Some([0, 4])
            && x.c.open(x.Key("AEAD Resp Header Key"), x.Iv("AEAD Resp Header IV"), s[18..], [])
               == Some([response, option, 0, 0])
  {
    var len := x.Seal(KDF_RESP_LEN_KEY, KDF_RESP_LEN_IV, U16(4));
    var hdr := x.Seal(KDF_RESP_KEY, KDF_RESP_IV, [response, option, 0, 0]);
    Halves(len, hdr);
    assert U16(4) == [0, 4];
  }

  /** A response is refused exactly if its length does not open to two bytes or more, or its header does not open. */
  lemma RefusedExactly(x: Session, s: bytes)
    requires |s| >= 18
    ensures var len := x.c.open(x.Key("AEAD Resp Header Len Key"), x.Iv("AEAD Resp Header Len IV"), s[..18], []);
            ReadResponse(x, s) == Refused <==>
              || len.None? || |len.value| < 2
              || (var end := 34 + len.value[0] as int * 256 + len.value[1] as int;
                  |s| >= end &&
                  x.c.open(x.Key("AEAD Resp Header Key"), x.Iv("AEAD Resp Header IV"), s[18..end], []).None?)
  {
  }

  /** A complete sealed length decides, if it is not genuine. */
  lemma LenComplete(x: Session, s: bytes)
    requires |s| == 18
    ensures s[..18] == s && s[18..] == []
    ensures x.OpenLen(s).None? ==> ReadResponse(x, s) == Refused
  {
    assert s[..18] == s;
  }

  /** More of the sealed header after the first 18 bytes; once complete, it decides. */
  lemma HeaderGrows(x: Session, s: bytes, buf: bytes, more: bytes, len: nat)
    requires |s| == 18 + |buf| && s[18..] == buf && x.OpenLen(s[..18]) == Some(len) && |buf| + |more| <= len + 16
    ensures var t := s + more;
            && t[..18] == s[..18] && t[18..] == buf + more
            && (|buf| + |more| == len + 16 ==>
                  ReadResponse(x, t) == if x.HeaderGenuine(buf + more) then Taken(|t|) else Refused)
  {
    var t := s + more;
    assert t[..18] == s[..18];
    assert t[18..] == buf + more;
    assert t[18..|t|] == t[18..];
  }

  // ---------------------------------------------------------------- the polled stream

  /** What the connection below answers to successive polls: nothing yet, an error, or bytes. */
  datatype Event = Wait | Broken | Arrive(data: bytes)

  /** The pieces in which the stream arrives. */
  function Pieces(events: seq<Event>): seq<bytes> {
    if events == [] then []
    else (if events[0].Arrive? then [events[0].data] else []) + Pieces(events[1..])
  }

  function Delivered(events: seq<Event>): bytes {
    Flatten(Pieces(events))
  }

  /** The pieces left when a poll has taken at most `cap` bytes of the first one. */
  function Remaining(pieces: seq<bytes>, cap: nat): seq<bytes>
    requires pieces != []
  {
    if |pieces[0]| <= cap then pieces[1..] else [pieces[0][cap..]] + pieces[1..]
  }

  function FirstOf(pieces: seq<bytes>, cap: nat): bytes
    requires pieces != []
  {
    if |pieces[0]| <= cap then pieces[0] else pieces[0][..cap]
  }

  lemma FlattenRemaining(pieces: seq<bytes>, cap: nat)
    requires pieces != []
    ensures Flatten(pieces) == FirstOf(pieces, cap) + Flatten(Remaining(pieces, cap))
  {
    if |pieces[0]| > cap {
      var d := pieces[0];
      assert Remaining(pieces, cap)[1..] == pieces[1..];
      assert d == d[..cap] + d[cap..];
      Assoc(d[..cap], d[cap..], Flatten(pieces[1..]));
    }
  }

  /** Work left in the event queue. */
  function Weight(events: seq<Event>): nat {
    if events == [] then 0
    else 1 + (if events[0].Arrive? then |events[0].data| else 0) + Weight(events[1..])
  }

  datatype Poll = Pending | Failed | Ready(data: bytes)

  datatype State = Len(buf: bytes) | Header(len: nat, buf: bytes) | Done

  ghost predicate NoBreak(events: seq<Event>) {
    forall e | e in events :: !e.Broken?
  }

  /** Each of the two sealed parts arrives whole: the piece that brings the first byte of it brings all of it. */
  ghost predicate Whole(x: Session, state: State, pieces: seq<bytes>)
    decreases if state.Len? then 1 else 0
  {
    pieces == [] ||
    match state
    case Done => true
    case Header(len, buf) => |buf| + |pieces[0]| >= len + 16
    case Len(buf) =>
      && |buf| + |pieces[0]| >= 18
      && (|buf| < 18 ==>
            var len := x.OpenLen(buf + FirstOf(pieces, 18 - |buf|));
            len.Some? ==> Whole(x, Header(len.value, []), Remaining(pieces, 18 - |buf|)))
  }

  /** What a poll for the rest of the sealed length tells of the cuts ahead. */
  lemma WholeLen(x: Session, buf: bytes, pieces: seq<bytes>)
    requires |buf| < 18 && pieces != []
    ensures var d := FirstOf(pieces, 18 - |buf|);
            && |buf + d| <= 18
            && (|buf + d| < 18 ==> !Whole(x, Len(buf), pieces))
            && (|buf + d| == 18 ==>
                  var len := x.OpenLen(buf + d);
                  Whole(x, Len(buf), pieces)
                  == (len.Some? ==> Whole(x, Header(len.value, []), Remaining(pieces, 18 - |buf|))))
  {
  }

  lemma WholeHeader(x: Session, len: nat, buf: bytes, pieces: seq<bytes>)
    requires |buf| < len + 16 && pieces != []
    ensures var d := FirstOf(pieces, len + 16 - |buf|);
            |buf + d| <= len + 16 && Whole(x, Header(len, buf), pieces) == (|buf + d| == len + 16)
  {
  }

  lemma NothingShort(x: Session, state: State, pieces: seq<bytes>)
    requires state == Done || pieces == []
    ensures Whole(x, state, pieces)
  {
  }

  predicate Arrives(events: seq<Event>) {
    events != [] && events[0].Arrive?
  }

  /** The queue after a poll that has taken at most `cap` bytes of the piece at its head. */
  function Rest(events: seq<Event>, cap: nat): seq<Event>
    requires Arrives(events)
  {
    if |events[0].data| <= cap then events[1..] else [Arrive(events[0].data[cap..])] + events[1..]
  }

  /** The connection answers at once, but with less than is left of the sealed part being read. */
  ghost predicate Short(x: Session, state: State, events: seq<Event>)
    decreases if state.Len? then 1 else 0
  {
    Arrives(events) &&
    var d := events[0].data;
    match state
    case Done => false
    case Header(len, buf) => |buf| + |d| < len + 16
    case Len(buf) =>
      || |buf| + |d| < 18
      || (|buf| < 18 &&
          var len := x.OpenLen(buf + FirstOf([d], 18 - |buf|));
          len.Some? && Short(x, Header(len.value, []), Rest(events, 18 - |buf|)))
  }

  lemma ShortLen(x: Session, buf: bytes, events: seq<Event>)
    requires |buf| < 18
    ensures Arrives(events) ==>
              var d := FirstOf([events[0].data], 18 - |buf|);
              Short(x, Len(buf), events)
              == (|buf + d| < 18 ||
                  (x.OpenLen(buf + d).Some? &&
                   Short(x, Header(x.OpenLen(buf + d).value, []), Rest(events, 18 - |buf|))))
    ensures !Arrives(events) ==> !Short(x, Len(buf), events)
  {
  }

  lemma ShortHeader(x: Session, len: nat, buf: bytes, events: seq<Event>)
    requires |buf| < len + 16
    ensures Arrives(events) ==>
              Short(x, Header(len, buf), events)
              == (|buf + FirstOf([events[0].data], len + 16 - |buf|)| < len + 16)
    ensures !Arrives(events) ==> !Short(x, Header(len, buf), events)
    ensures !Short(x, Done, events)
  {
  }

  datatype Fault = NoFault | BadHeader | ConnectionBroke

  class Stream {
    const x: Session
    var events: seq<Event>
    var state: State
    var armed: bool          // the connection has been asked to wake the task
    ghost var taken: bytes   // bytes the header reader has consumed
    ghost var fault: Fault   // why reading the header ended with an error, if it did

    constructor (x: Session, events: seq<Event>)
      ensures this.x == x && this.events == events && taken == [] && fault == NoFault && Valid() && state == Len([])
    {
      this.x, this.events, state, taken, fault, armed := x, events, Len([]), [], NoFault, false;
    }

    /** The partial state says exactly how far the blocking reader would be. */
    ghost predicate Valid() reads this {
      match state
      case Len(buf) => fault == NoFault && buf == taken && |buf| < 18
      case Header(len, buf) =>
        && fault == NoFault && |taken| == 18 + |buf| && taken[18..] == buf && |buf| < len + 16
        && x.OpenLen(taken[..18]) == Some(len)
      case Done =>
        && (fault == NoFault ==> ReadResponse(x, taken) == Taken(|taken|))
        && (fault == BadHeader ==> ReadResponse(x, taken) == Refused)
    }

    /** One poll of the connection below, for at most `cap` bytes; it arranges a wake-up only when it has none. */
    method PollInner(cap: nat) returns (r: Poll)
      requires cap > 0
      modifies `events, `armed
      ensures armed == r.Pending?
      ensures r.Ready? ==>
                && Pieces(old(events)) != [] && r.data == FirstOf(Pieces(old(events)), cap)
                && Pieces(events) == Remaining(Pieces(old(events)), cap)
      ensures !r.Ready? ==> Pieces(events) == Pieces(old(events))
      ensures Weight(events) < Weight(old(events)) || (events == [] == old(events) && r == Pending)
      ensures NoBreak(old(events)) ==> NoBreak(events) && !r.Failed?
      ensures r.Ready? <==> Arrives(old(events))
      ensures r.Ready? ==> r.data == FirstOf([old(events)[0].data], cap) && events == Rest(old(events), cap)
    {
      if events == [] {
        armed := true;
        return Pending;
      }
      match events[0] {
        case Wait =>
          events, armed, r := events[1..], true, Pending;
        case Broken =>
          events, armed, r := events[1..], false, Failed;
        case Arrive(data) =>
          armed := false;
          if |data| <= cap {
            events, r := events[1..], Ready(data);
          } else {
            events, r := [Arrive(data[cap..])] + events[1..], Ready(data[..cap]);
            assert events[1..] == old(events)[1..];
          }
      }
    }

    /** What a turn keeps: no byte is lost or made up, and a stop leaves a state that says why. */
    ghost predicate Progress(was: bytes, queue: seq<Event>, go: bool, r: Poll) reads this {
      && Valid()
      && was + Delivered(queue) == taken + Delivered(events)
      && (Weight(events) < Weight(queue) || (events == queue == []))
      && (NoBreak(queue) ==> NoBreak(events) && fault != ConnectionBroke)
      && (if go then fault == NoFault
          else if r.Pending? then fault == NoFault && state != Done
          else r.Failed? && fault != NoFault && state == Done)
    }

    /** A turn stops without a wake-up only on a short read; any other turn leaves the cuts ahead as whole as before. */
    ghost predicate Woken(before: State, queue: seq<Event>, stop: bool) reads this {
      NoBreak(queue) ==>
        if stop && !armed then !Whole(x, before, Pieces(queue))
        else Whole(x, state, Pieces(events)) == Whole(x, before, Pieces(queue))
    }

    /** A turn stops without a wake-up exactly on a short read. */
    ghost predicate Stalls(before: State, queue: seq<Event>, go: bool, r: Poll) reads this {
      if go then Short(x, state, events) == Short(x, before, queue)
      else (r.Pending? && !armed) == Short(x, before, queue)
    }

    /** One turn on the sealed length; `go` when the length is known. */
    method ReadLen(buf: bytes) returns (go: bool, r: Poll)
      requires Valid() && state == Len(buf)
      modifies this
      ensures Progress(old(taken), old(events), go, r)
      ensures Woken(old(state), old(events), !go && r.Pending?)
      ensures Stalls(old(state), old(events), go, r)
      ensures go ==> state.Header?
    {
      hide Pieces, Flatten, ReadResponse, Weight, NoBreak, Whole, FirstOf, Remaining, Short, Rest;
      ShortLen(x, buf, events);
      state := Done;
      var p := PollInner(18 - |buf|);
      if p.Ready? {
        FlattenRemaining(Pieces(old(events)), 18 - |buf|);
        WholeLen(x, buf, Pieces(old(events)));
        Assoc(taken, p.data, Delivered(events));
        taken := taken + p.data;
        if |buf + p.data| < 18 {
          state := Len(buf + p.data);
          return false, Pending;
        }
        LenComplete(x, taken);
        var len := x.OpenLen(buf + p.data);
        if len.None? {
          NothingShort(x, Done, Pieces(events));
          fault := BadHeader;
          return false, Failed;
        }
        state := Header(len.value, []);
        return true, Pending;
      } else if p.Failed? {
        fault := ConnectionBroke;
        return false, Failed;
      }
      state := Len(buf);
      return false, Pending;
    }

    /** One turn on the sealed header; `go` when it is complete and genuine. */
    method ReadHeader(len: nat, buf: bytes) returns (go: bool, r: Poll)
      requires Valid() && state == Header(len, buf)
      modifies this
      ensures Progress(old(taken), old(events), go, r)
      ensures Woken(old(state), old(events), !go && r.Pending?)
      ensures Stalls(old(state), old(events), go, r)
      ensures go ==> state.Done?
    {
      hide Pieces, Flatten, ReadResponse, Weight, NoBreak, Whole, FirstOf, Remaining, Short, Rest;
      ShortHeader(x, len, buf, events);
      state := Done;
      var p := PollInner(len + 16 - |buf|);
      if p.Ready? {
        FlattenRemaining(Pieces(old(events)), len + 16 - |buf|);
        WholeHeader(x, len, buf, Pieces(old(events)));
        NothingShort(x, Done, Pieces(events));
        ShortHeader(x, len, buf, events);
        Assoc(taken, p.data, Delivered(events));
        HeaderGrows(x, taken, buf, p.data, len);
        taken := taken + p.data;
        if |buf + p.data| < len + 16 {
          state := Header(len, buf + p.data);
          return false, Pending;
        }
        if !x.HeaderGenuine(buf + p.data) {
          fault := BadHeader;
          return false, Failed;
        }
        return true, Pending;
      } else if p.Failed? {
        fault := ConnectionBroke;
        return false, Failed;
      }
      state := Header(len, buf);
      return false, Pending;
    }

    /** Reads on until the header is complete, refused, or more input is needed. */
    method AdvanceResponse() returns (r: Poll)
      requires Valid() && state != Done
      modifies this
      ensures Progress(old(taken), old(events), r.Ready?, r)
      ensures Woken(old(state), old(events), r.Pending?)
      ensures r.Pending? && !armed <==> Short(x, old(state), old(events))
      ensures r.Ready? ==> state == Done
    {
      hide Pieces, Flatten, ReadResponse, Whole;
      while true
        invariant Valid() && fault == NoFault
        invariant (state != Done && taken == old(taken) && events == old(events))
                  || Progress(old(taken), old(events), true, Pending)
        invariant Woken(old(state), old(events), false)
        invariant Short(x, state, events) == Short(x, old(state), old(events))
        decreases if state.Done? then 0 else if state.Header? then 1 else 2
      {
        var go;
        match state {
          case Done =>
            return Ready([]);
          case Len(buf) =>
            go, r := ReadLen(buf);
          case Header(len, buf) =>
            go, r := ReadHeader(len, buf);
        }
        if !go {
          return;
        }
      }
    }

    /** A read by the caller: header bytes first, then whatever the connection delivers. */
    method PollRead(cap: nat) returns (r: Poll)
      requires Valid() && cap > 0
      modifies this
      ensures Valid()
      ensures var data := if r.Ready? then r.data else [];
              old(taken) + Delivered(old(events)) == taken + (data + Delivered(events))
      ensures Weight(events) < Weight(old(events)) || old(events) == events == []
      ensures NoBreak(old(events)) && old(fault) != ConnectionBroke ==> NoBreak(events) && fault != ConnectionBroke
      ensures Woken(old(state), old(events), r.Pending?)
      ensures r.Pending? && !armed ==> state != Done
      ensures r.Pending? && !armed <==> Short(x, old(state), old(events))
      ensures old(state) == Done ==>
                && state == Done && taken == old(taken) && fault == old(fault)
                && (NoBreak(old(events)) ==> !r.Failed?)
                && (old(events) != [] && old(events)[0].Arrive? ==> r == Ready(FirstOf(Pieces(old(events)), cap)))
      ensures old(state) != Done ==>
                && (fault == NoFault || r.Failed?)
                && (r.Ready? ==> state == Done)
                && (NoBreak(old(events)) ==> (r.Failed? <==> fault == BadHeader))
    {
      hide Pieces, Flatten, ReadResponse;
      if state != Done {
        r := AdvanceResponse();
        if !r.Ready? {
          assert [] + Delivered(events) == Delivered(events);
          return;
        }
      }
      ghost var queue := events;
      r := PollInner(cap);
      if r.Ready? {
        FlattenRemaining(Pieces(queue), cap);
      } else {
        assert [] + Delivered(events) == Delivered(events);
      }
    }
  }

  lemma Carry(taken: bytes, out: bytes, queued: bytes, taken': bytes, data: bytes, queued': bytes)
    requires taken + queued == taken' + (data + queued')
    requires out == [] || taken' == taken
    ensures taken + (out + queued) == taken' + (out + data + queued')
    ensures out + data == if data == [] then out else out + data
  {
    if out == [] {
      assert out + queued == queued && out + data == data;
    } else {
      assert queued == data + queued' by {
        Halves(taken, queued);
        Halves(taken, data + queued');
      }
      Assoc(out, data, queued');
    }
  }

  /** How a caller ends up once the input has run out. */
  datatype End = Waiting | Error | Open | Asleep

  /** The caller's view of a verdict on the whole stream `s`. */
  ghost predicate Agrees(verdict: Verdict, s: bytes, end: End, out: bytes) {
    match verdict
    case NeedMore => end == Waiting && out == []
    case Refused => end == Error && out == []
    case Taken(n) => n <= |s| && end == Open && out == s[n..]
  }

  lemma Agreed(x: Session, total: bytes, taken: bytes, out: bytes)
    requires total == taken + out && ReadResponse(x, taken) == Taken(|taken|)
    ensures Agrees(ReadResponse(x, total), total, Open, out)
  {
    VerdictStable(x, taken, out);
    Halves(taken, out);
  }

  /**
   Every chunking of a stream reads like the blocking reader, for a caller that polls until the input has run out:
   it gets exactly the bytes after the header if that reader takes one, an error if it refuses, and nothing while it
   needs more. The stream ends up `Done` when the header is refused as well as when it is taken.
   */
  method ReadToEnd(s: Stream, cap: nat) returns (end: End, out: bytes)
    requires s.Valid() && s.state == Len([]) && s.taken == [] && NoBreak(s.events) && cap > 0
    modifies s
    ensures s.Valid()
    ensures Agrees(ReadResponse(s.x, old(Delivered(s.events))), old(Delivered(s.events)), end, out)
    ensures s.state == Done <==> !ReadResponse(s.x, old(Delivered(s.events))).NeedMore?
    ensures s.fault == BadHeader <==> ReadResponse(s.x, old(Delivered(s.events))) == Refused
  {
    hide Pieces, Flatten;
    ghost var total := Delivered(s.events);
    assert s.taken + Delivered(s.events) == total;
    end, out := Waiting, [];
    while s.events != []
      invariant s.Valid() && NoBreak(s.events) && s.fault == NoFault
      invariant s.taken + (out + Delivered(s.events)) == total
      invariant s.state != Done ==> out == []
      decreases Weight(s.events)
    {
      ghost var taken, before, queue := s.taken, out, s.events;
      var r := s.PollRead(cap);
      Carry(taken, before, Delivered(queue), s.taken, if r.Ready? then r.data else [], Delivered(s.events));
      if r.Failed? {
        Disagreed(s.x, total, s.taken, out + [] + Delivered(s.events));
        return Error, [];
      }
      if r.Ready? {
        out := out + r.data;
      }
    }
    RunDry(s.taken, out);
    if s.state == Done {
      Agreed(s.x, total, s.taken, out);
      end := Open;
    }
  }

  lemma Disagreed(x: Session, total: bytes, taken: bytes, rest: bytes)
    requires total == taken + rest && ReadResponse(x, taken) == Refused
    ensures Agrees(ReadResponse(x, total), total, Error, [])
  {
    VerdictStable(x, taken, rest);
  }

  lemma Undecided(s: Stream)
    requires s.Valid() && s.state != Done
    ensures Agrees(ReadResponse(s.x, s.taken), s.taken, Waiting, [])
  {
  }

  lemma RunDry(taken: bytes, out: bytes)
    ensures Pieces([]) == [] && taken + (out + Delivered([])) == taken + out && (out == [] ==> taken + out == taken)
  {
    assert out + [] == out;
  }

  /**
   A caller that polls again only when it has been woken reads like the blocking reader exactly if each sealed part
   arrives whole; otherwise the short read leaves it asleep with no wake-up to come.
   */
  method ReadWhenWoken(s: Stream, cap: nat) returns (end: End, out: bytes)
    requires s.Valid() && s.state == Len([]) && s.taken == [] && NoBreak(s.events) && cap > 0
    modifies s
    ensures end == Asleep <==> !Whole(s.x, Len([]), Pieces(old(s.events)))
    ensures end == Asleep ==> !s.armed && s.state != Done && out == []
    ensures end != Asleep ==> Agrees(ReadResponse(s.x, old(Delivered(s.events))), old(Delivered(s.events)), end, out)
  {
    hide Pieces, Flatten, Whole, ReadResponse, Agrees;
    ghost var total, whole := Delivered(s.events), Whole(s.x, s.state, Pieces(s.events));
    assert s.taken + Delivered(s.events) == total;
    end, out := Waiting, [];
    while s.events != []
      invariant s.Valid() && NoBreak(s.events) && s.fault == NoFault
      invariant s.taken + (out + Delivered(s.events)) == total
      invariant s.state != Done ==> out == []
      invariant Whole(s.x, s.state, Pieces(s.events)) == whole
      decreases Weight(s.events)
    {
      ghost var taken, before, queue := s.taken, out, s.events;
      var r := s.PollRead(cap);
      Carry(taken, before, Delivered(queue), s.taken, if r.Ready? then r.data else [], Delivered(s.events));
      if r.Failed? {
        Disagreed(s.x, total, s.taken, out + [] + Delivered(s.events));
        NothingShort(s.x, s.state, Pieces(s.events));
        return Error, [];
      }
      if r.Ready? {
        out := out + r.data;
      } else if !s.armed {
        return Asleep, out;
      }
    }
    RunDry(s.taken, out);
    NothingShort(s.x, s.state, []);
    if s.state == Done {
      Agreed(s.x, total, s.taken, out);
      end := Open;
    } else {
      Undecided(s);
    }
  }

  /** For a server's response, in sizes: the first piece is all of it, or it is the length and the second the rest. */
  lemma ResponseArrivesWhole(x: Session, response: byte, option: byte, rest: bytes, pieces: seq<bytes>)
    requires x.c.Lawful() && Flatten(pieces) == ServerResponse(x, response, option) + rest
    ensures pieces != []
    ensures Whole(x, Len([]), pieces)
            <==> |pieces[0]| >= 38 || (|pieces[0]| == 18 && |pieces| > 1 && |pieces[1]| >= 20)
  {
    var len := x.Seal(KDF_RESP_LEN_KEY, KDF_RESP_LEN_IV, U16(4));
    var hdr := x.Seal(KDF_RESP_KEY, KDF_RESP_IV, [response, option, 0, 0]);
    assert |len| == 18 && |hdr| == 20 && x.OpenLen(len) == Some(4);
    if |pieces[0]| >= 18 {
      Assoc(len, hdr, rest);
      Recut(pieces[0], Flatten(pieces[1..]), len, hdr + rest);
      assert [] + FirstOf(pieces, 18) == len;
      if |pieces[0]| == 18 {
        assert pieces[0][18..] + Flatten(pieces[1..]) == Flatten(pieces[1..]);
      }
    }
  }

  // ---------------------------------------------------------------- a refused response

  /** Sealing that appends sixteen zero bytes, and a block cipher that does nothing: lawful, if of no use. */
  const TOY := Crypto(
    m => Zeros(32), m => Zeros(16), m => 0, (k, b) => b, (k, b) => b,
    (k, n, p, a) => p + Zeros(16),
    (k, n, s, a) => if |s| >= 16 && s[|s| - 16..] == Zeros(16) then Some(s[..|s| - 16]) else None)

  lemma ToyIsLawful()
    ensures TOY.Lawful()
  {
    forall k, n, p: bytes, a ensures TOY.open(k, n, TOY.seal(k, n, p, a), a) == Some(p) {
      Halves(p, Zeros(16));
    }
  }

  /** Eighteen ones are no genuine length, so the property below is not empty. */
  lemma ToyRefuses()
    ensures TOY.Lawful() && ReadResponse(Session(TOY, Zeros(16), Zeros(16)), seq(18, i => 1)) == Refused
  {
    ToyIsLawful();
    var bad: bytes := seq(18, i => 1);
    assert bad[..18] == bad && bad[2..][0] != Zeros(16)[0];
    LenComplete(Session(TOY, Zeros(16), Zeros(16)), bad);
  }

  lemma OnePiece(d: bytes)
    ensures Pieces([Arrive(d)]) == [d] && Delivered([Arrive(d)]) == d
  {
    assert [Arrive(d)][1..] == [];
    assert Flatten([d]) == d + [];
  }

  /** After any refused response the caller has its error, and a further poll hands out what arrives next. */
  method PollAfterRefusal(x: Session, bad: bytes, data: bytes, cap: nat) returns (end: End, r: Poll)
    requires ReadResponse(x, bad) == Refused && cap > 0
    ensures end == Error && r == Ready(FirstOf([data], cap))
  {
    OnePiece(bad);
    OnePiece(data);
    hide Pieces, Flatten;
    var s := new Stream(x, [Arrive(bad)]);
    var out;
    end, out := ReadToEnd(s, cap);
    s.events := [Arrive(data)];
    r := s.PollRead(cap);
  }
}
