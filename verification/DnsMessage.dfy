/** The DNS response walker (section 4.1 of RFC 1035, section 2 of RFC 3596). */
module DnsMessage {
  import opened Bytes

  // ---------------------------------------------------------------- the walker

  /** The offset just after the name at `offset`. */
  function AfterName(buf: bytes, offset: nat): (r: Result<nat>)
    ensures r.Ok? ==> offset < r.value <= |buf| + 1 && offset < |buf|
    ensures !r.Panic?
    decreases |buf| - offset
  {
    if offset >= |buf| then Err("truncated dns name")
    else if buf[offset] >= 0xC0 then Ok(offset + 2)
    else if buf[offset] == 0 then Ok(offset + 1)
    else AfterName(buf, offset + 1 + buf[offset] as int)
  }

  method SkipName(buf: bytes, start: nat) returns (r: Result<nat>)
    ensures r == AfterName(buf, start)
  {
    var offset := start;
    while true
      invariant AfterName(buf, start) == AfterName(buf, offset)
      decreases |buf| - offset
    {
      if offset >= |buf| {
        return Err("truncated dns name");
      }
      var len := buf[offset];
      if len >= 0xC0 { // both high bits set
        return Ok(offset + 2);
      }
      if len == 0 {
        return Ok(offset + 1);
      }
      offset := offset + 1 + len as int;
    }
  }

  function AfterQuestions(buf: bytes, offset: nat, count: nat): (r: Result<nat>)
    ensures r.Ok? ==> offset <= r.value
    ensures !r.Panic?
    decreases count
  {
    if count == 0 then Ok(offset)
    else
      var next :- AfterName(buf, offset);
      AfterQuestions(buf, next + 4, count - 1)
  }

  function AddressOf(rtype: u16, rdata: bytes): seq<Ip> {
    if rtype == 1 && |rdata| == 4 then [V4(rdata)]
    else if rtype == 28 && |rdata| == 16 then [V6(rdata)]
    else []
  }

  /** One answer record: its address, if it is one, and where it ends; or how the list ends here. */
  datatype Step = Stop(r: Result<seq<Ip>>) | More(ips: seq<Ip>, next: nat)

  function Record(buf: bytes, offset: nat): (s: Step)
    ensures s.More? ==> offset + 11 <= s.next <= |buf| && (s.ips != [] ==> |s.ips| == 1 && offset + 15 <= s.next)
    ensures s.Stop? ==> !s.r.Panic? && (s.r.Ok? ==> s.r.value == [])
  {
    var name := AfterName(buf, offset);
    if name.Err? then Stop(Err(name.error))
    else
      var o := name.value;
      if o + 10 > |buf| then Stop(Ok([]))
      else
        var end := o + 10 + FromU16(buf[o + 8], buf[o + 9]) as int;
        if end > |buf| then Stop(Ok([]))
        else More(AddressOf(FromU16(buf[o], buf[o + 1]), buf[o + 10..end]), end)
  }

  function Prepend(addrs: seq<Ip>, r: Result<seq<Ip>>): Result<seq<Ip>> {
    if r.Ok? then Ok(addrs + r.value) else r
  }

  lemma PrependTwice(a: seq<Ip>, b: seq<Ip>, r: Result<seq<Ip>>)
    ensures Prepend(a, Prepend(b, r)) == Prepend(a + b, r)
    ensures Prepend([], r) == r && Prepend(a, Ok([])) == Ok(a) && a + [] == a
  {
    assert a + [] == a;
    if r.Ok? {
      assert a + (b + r.value) == (a + b) + r.value;
      assert [] + r.value == r.value;
    }
  }

  /** The addresses of the next `count` records; a record that does not fit ends the list. */
  function Addresses(buf: bytes, offset: nat, count: nat): (r: Result<seq<Ip>>)
    ensures !r.Panic?
    ensures r.Ok? && r.value != [] ==> offset + 15 * |r.value| <= |buf|
    decreases count
  {
    if count == 0 then Ok([])
    else
      match Record(buf, offset)
      case Stop(r) => r
      case More(ips, next) => Prepend(ips, Addresses(buf, next, count - 1))
  }

  function Answer(buf: bytes): Result<seq<Ip>> {
    if |buf| < 12 then Ok([])
    else
      var offset :- AfterQuestions(buf, 12, FromU16(buf[4], buf[5]));
      Addresses(buf, offset, FromU16(buf[6], buf[7]))
  }

  method SkipQuestions(buf: bytes, start: nat, qd: nat) returns (r: Result<nat>)
    ensures r == AfterQuestions(buf, start, qd)
  {
    var offset := start;
    for i := 0 to qd
      invariant AfterQuestions(buf, start, qd) == AfterQuestions(buf, offset, qd - i)
    {
      offset :- SkipName(buf, offset);
      offset := offset + 4;
    }
    return Ok(offset);
  }

  method ReadRecord(buf: bytes, start: nat) returns (s: Step)
    ensures s == Record(buf, start)
  {
    var name := SkipName(buf, start);
    if name.Err? {
      return Stop(Err(name.error));
    }
    var offset := name.value;
    if offset + 10 > |buf| {
      return Stop(Ok([]));
    }
    var rtype := FromU16(buf[offset], buf[offset + 1]);
    var rdlen := FromU16(buf[offset + 8], buf[offset + 9]) as int;
    offset := offset + 10;
    if offset + rdlen > |buf| {
      return Stop(Ok([]));
    }
    var ips := [];
    if rtype == 1 && rdlen == 4 {
      ips := [V4(buf[offset..offset + 4])];
    } else if rtype == 28 && rdlen == 16 {
      ips := [V6(buf[offset..offset + 16])];
    }
    return More(ips, offset + rdlen);
  }

  method ReadAnswers(buf: bytes, start: nat, an: nat) returns (r: Result<seq<Ip>>)
    ensures r == Addresses(buf, start, an)
  {
    var offset: nat := start;
    var addrs: seq<Ip> := [];
    PrependTwice([], [], Addresses(buf, start, an));
    for i := 0 to an
      invariant Addresses(buf, start, an) == Prepend(addrs, Addresses(buf, offset, an - i))
    {
      var step := ReadRecord(buf, offset);
      match step {
        case Stop(Ok(_)) =>
          PrependTwice(addrs, [], Ok([]));
          return Ok(addrs);
        case Stop(error) =>
          return error;
        case More(ips, next) =>
          PrependTwice(addrs, ips, Addresses(buf, next, an - i - 1));
          addrs, offset := addrs + ips, next;
      }
    }
    PrependTwice(addrs, [], Ok([]));
    return Ok(addrs);
  }

  /** Reads a response; on any bytes at all it ends, stays inside them, and yields at most one address per 15 bytes. */
  method ParseResponse(buf: bytes) returns (r: Result<seq<Ip>>)
    ensures r == Answer(buf)
    ensures !r.Panic? && (|buf| < 12 ==> r == Ok([]))
    ensures r.Ok? && r.value != [] ==> 12 + 15 * |r.value| <= |buf|
  {
    if |buf| < 12 {
      return Ok([]);
    }
    var offset :- SkipQuestions(buf, 12, FromU16(buf[4], buf[5]));
    r := ReadAnswers(buf, offset, FromU16(buf[6], buf[7]));
  }

  // ---------------------------------------------------------------- well-formed messages

  type Label = l: bytes | 1 <= |l| <= 63 witness [0]
  type PointerByte = b: byte | b >= 0xC0 witness 0xC0
  type Bytes6 = s: bytes | |s| == 6 witness Zeros(6)
  type RData = s: bytes | |s| < 0x1_0000

  datatype Terminator = Root | Pointer(hi: PointerByte, lo: byte)

  /** A name: labels, then the root or a compression pointer. */
  datatype Name = Name(labels: seq<Label>, end: Terminator)

  datatype Question = Question(name: Name, typeAndClass: Bytes4)

  /** What a record holds: an IPv4 address, an IPv6 address, or anything else. */
  datatype Holds = A(v4: Bytes4) | Aaaa(v6: Bytes16) | Other(rtype: u16, rdata: RData) {
    predicate WellFormed() {
      Other? ==> !(rtype == 1 && |rdata| == 4) && !(rtype == 28 && |rdata| == 16)
    }

    function Type(): u16 {
      match this
      case A(_) => 1
      case Aaaa(_) => 28
      case Other(rtype, _) => rtype
    }

    function Data(): RData {
      match this
      case A(v4) => v4
      case Aaaa(v6) => v6
      case Other(_, rdata) => rdata
    }

    function Addresses(): seq<Ip> {
      match this
      case A(v4) => [V4(v4)]
      case Aaaa(v6) => [V6(v6)]
      case Other(_, _) => []
    }
  }

  type Content = h: Holds | h.WellFormed() witness A([0, 0, 0, 0])

  /** An answer record; `middle` is its class and time to live. */
  datatype Rr = Rr(name: Name, middle: Bytes6, content: Content)

  /** A message: id and flags, questions, answers, the other two counts, and whatever sections follow. */
  datatype Message = Message(
    idFlags: Bytes4, questions: seq<Question>, answers: seq<Rr>, otherCounts: Bytes4, rest: bytes
  ) {
    predicate WellFormed() {
      |questions| < 0x1_0000 && |answers| < 0x1_0000
    }
  }

  function EncodeLabels(labels: seq<Label>): bytes {
    if labels == [] then [] else [|labels[0]| as byte] + labels[0] + EncodeLabels(labels[1..])
  }

  function EncodeName(n: Name): bytes {
    EncodeLabels(n.labels) + match n.end case Root => [0] case Pointer(hi, lo) => [hi, lo]
  }

  function EncodeQuestions(qs: seq<Question>): bytes {
    if qs == [] then [] else (EncodeName(qs[0].name) + qs[0].typeAndClass) + EncodeQuestions(qs[1..])
  }

  function EncodeRr(r: Rr): bytes {
    var data := r.content.Data();
    EncodeName(r.name) + (Fixed(r) + data)
  }

  function EncodeRrs(rs: seq<Rr>): bytes {
    if rs == [] then [] else EncodeRr(rs[0]) + EncodeRrs(rs[1..])
  }

  /** A message front: header, questions and answers, announcing `more` answers than there are. */
  function Front(m: Message, more: nat): bytes
    requires |m.questions| < 0x1_0000 && |m.answers| + more < 0x1_0000
  {
    (m.idFlags + U16(|m.questions|) + U16(|m.answers| + more) + m.otherCounts)
      + (EncodeQuestions(m.questions) + EncodeRrs(m.answers))
  }

  function Encode(m: Message): bytes
    requires m.WellFormed()
  {
    Front(m, 0) + m.rest
  }

  /** The A and AAAA addresses, in order. */
  function AddressesOf(rs: seq<Rr>): seq<Ip> {
    if rs == [] then [] else rs[0].content.Addresses() + AddressesOf(rs[1..])
  }

  lemma {:induction false} LabelsSkipped(buf: bytes, offset: nat, labels: seq<Label>)
    requires At(buf, offset, EncodeLabels(labels))
    ensures AfterName(buf, offset) == AfterName(buf, offset + |EncodeLabels(labels)|)
    decreases |labels|
  {
    if labels != [] {
      var first, rest := [|labels[0]| as byte] + labels[0], EncodeLabels(labels[1..]);
      AtSplit(buf, offset, first, rest);
      AtByte(buf, offset, first, 0);
      LabelsSkipped(buf, offset + |first|, labels[1..]);
    }
  }

  lemma NameSkipped(buf: bytes, offset: nat, n: Name)
    requires At(buf, offset, EncodeName(n))
    ensures AfterName(buf, offset) == Ok(offset + |EncodeName(n)|)
  {
    var end := match n.end case Root => [0] case Pointer(hi, lo) => [hi, lo];
    AtSplit(buf, offset, EncodeLabels(n.labels), end);
    LabelsSkipped(buf, offset, n.labels);
    AtByte(buf, offset + |EncodeLabels(n.labels)|, end, 0);
  }

  lemma {:induction false} QuestionsSkipped(buf: bytes, offset: nat, qs: seq<Question>)
    requires At(buf, offset, EncodeQuestions(qs))
    ensures AfterQuestions(buf, offset, |qs|) == Ok(offset + |EncodeQuestions(qs)|)
    decreases |qs|
  {
    hide EncodeName, AfterName, At;
    if qs != [] {
      var first := EncodeName(qs[0].name) + qs[0].typeAndClass;
      AtSplit(buf, offset, first, EncodeQuestions(qs[1..]));
      AtSplit(buf, offset, EncodeName(qs[0].name), qs[0].typeAndClass);
      NameSkipped(buf, offset, qs[0].name);
      QuestionsSkipped(buf, offset + |first|, qs[1..]);
    }
  }

  lemma FixedPartRead(buf: bytes, o: nat, rtype: u16, middle: Bytes6, len: u16)
    requires At(buf, o, U16(rtype) + middle + U16(len))
    ensures FromU16(buf[o], buf[o + 1]) == rtype && FromU16(buf[o + 8], buf[o + 9]) == len
  {
    var fixed := U16(rtype) + middle + U16(len);
    AtByte(buf, o, fixed, 0);
    AtByte(buf, o, fixed, 1);
    AtByte(buf, o, fixed, 8);
    AtByte(buf, o, fixed, 9);
  }

  /** The part of a record between its name and its data. */
  function Fixed(r: Rr): (f: bytes)
    ensures |f| == 10
  {
    U16(r.content.Type()) + r.middle + U16(|r.content.Data()|)
  }

  lemma RecordAt(buf: bytes, offset: nat, r: Rr)
    requires At(buf, offset, EncodeRr(r))
    ensures var o := offset + |EncodeName(r.name)|;
            && |EncodeRr(r)| == |EncodeName(r.name)| + 10 + |r.content.Data()|
            && At(buf, offset, EncodeName(r.name)) && At(buf, o, Fixed(r)) && At(buf, o + 10, r.content.Data())
  {
    hide At, EncodeName;
    var name, data := EncodeName(r.name), r.content.Data();
    AtSplit(buf, offset, name, Fixed(r) + data);
    AtSplit(buf, offset + |name|, Fixed(r), data);
  }

  lemma RecordRead(buf: bytes, offset: nat, r: Rr)
    requires At(buf, offset, EncodeRr(r))
    ensures Record(buf, offset) == More(r.content.Addresses(), offset + |EncodeRr(r)|)
  {
    RecordAt(buf, offset, r);
    ContentRead(r.content);
    hide EncodeRr, EncodeName, AfterName, At, U16, FromU16, AddressOf;
    var o := offset + |EncodeName(r.name)|;
    NameSkipped(buf, offset, r.name);
    FixedPartRead(buf, o, r.content.Type(), r.middle, |r.content.Data()|);
    AtSlice(buf, o + 10, r.content.Data());
  }

  lemma ContentRead(h: Content)
    ensures AddressOf(h.Type(), h.Data()) == h.Addresses()
  {
  }

  /** Records that are there are read, in order, before whatever comes after them. */
  lemma {:induction false} AnswersRead(buf: bytes, offset: nat, rs: seq<Rr>, more: nat)
    requires At(buf, offset, EncodeRrs(rs))
    ensures Addresses(buf, offset, |rs| + more)
            == Prepend(AddressesOf(rs), Addresses(buf, offset + |EncodeRrs(rs)|, more))
    decreases |rs|
  {
    hide EncodeRr, Record, At, Prepend;
    if rs == [] {
      PrependTwice([], [], Addresses(buf, offset, more));
    } else {
      var next := offset + |EncodeRr(rs[0])|;
      AtSplit(buf, offset, EncodeRr(rs[0]), EncodeRrs(rs[1..]));
      RecordRead(buf, offset, rs[0]);
      AnswersRead(buf, next, rs[1..], more);
      PrependTwice(rs[0].content.Addresses(), AddressesOf(rs[1..]),
                   Addresses(buf, next + |EncodeRrs(rs[1..])|, more));
    }
  }

  /** The two section counts of a message, in bytes. */
  lemma CountsOnTheWire(m: Message)
    requires m.WellFormed()
    ensures var e := Encode(m);
            && |e| >= 12 && e[..4] == m.idFlags && e[8..12] == m.otherCounts
            && e[4] as int * 256 + e[5] as int == |m.questions| && e[6] as int * 256 + e[7] as int == |m.answers|
  {
    hide EncodeRrs, EncodeQuestions;
    var head := m.idFlags + U16(|m.questions|) + U16(|m.answers|) + m.otherCounts;
    assert Encode(m)[..12] == head;
    assert forall i | 0 <= i < 12 :: Encode(m)[i] == head[i];
  }

  /** A record after its name, in bytes: type, class and time to live, data length, data. */
  lemma RecordOnTheWire(r: Rr)
    ensures var e, o := EncodeRr(r), |EncodeName(r.name)|;
            && |e| >= o + 10 && e[..o] == EncodeName(r.name) && e[o + 2..o + 8] == r.middle
            && e[o + 8] as int * 256 + e[o + 9] as int == |e| - o - 10
            && match r.content
               case A(v4) => e[o..o + 2] == [0, 1] && e[o + 10..] == v4
               case Aaaa(v6) => e[o..o + 2] == [0, 28] && e[o + 10..] == v6
               case Other(t, data) => e[o] as int * 256 + e[o + 1] as int == t && e[o + 10..] == data
  {
    hide EncodeName;
  }

  lemma NoneLeft(buf: bytes, offset: nat)
    ensures Addresses(buf, offset, 0) == Ok([])
  {
  }

  lemma FrontRead(m: Message, more: nat, rest: bytes)
    requires |m.questions| < 0x1_0000 && |m.answers| + more < 0x1_0000
    ensures var front := Front(m, more);
            && At(front + rest, |front|, rest)
            && Answer(front + rest)
               == Prepend(AddressesOf(m.answers), Addresses(front + rest, |front|, more))
  {
    hide EncodeRrs, EncodeQuestions, AfterQuestions, Addresses, Prepend;
    var head := m.idFlags + U16(|m.questions|) + U16(|m.answers| + more) + m.otherCounts;
    var qs, rs := EncodeQuestions(m.questions), EncodeRrs(m.answers);
    var buf := Front(m, more) + rest;
    AtWhole(buf);
    AtSplit(buf, 0, Front(m, more), rest);
    AtSplit(buf, 0, head, qs + rs);
    HeadRead(buf, m, more);
    AtSplit(buf, 12, qs, rs);
    QuestionsSkipped(buf, 12, m.questions);
    AnswersRead(buf, 12 + |qs|, m.answers, more);
  }

  lemma HeadRead(buf: bytes, m: Message, more: nat)
    requires |m.questions| < 0x1_0000 && |m.answers| + more < 0x1_0000
    requires At(buf, 0, m.idFlags + U16(|m.questions|) + U16(|m.answers| + more) + m.otherCounts)
    ensures |buf| >= 12 && FromU16(buf[4], buf[5]) == |m.questions| && FromU16(buf[6], buf[7]) == |m.answers| + more
  {
    var head := m.idFlags + U16(|m.questions|) + U16(|m.answers| + more) + m.otherCounts;
    AtByte(buf, 0, head, 4);
    AtByte(buf, 0, head, 5);
    AtByte(buf, 0, head, 6);
    AtByte(buf, 0, head, 7);
  }

  /** A well-formed message yields exactly its A and AAAA addresses, in order, whatever else it holds. */
  lemma WellFormedAnswer(m: Message)
    requires m.WellFormed()
    ensures Answer(Encode(m)) == Ok(AddressesOf(m.answers))
  {
    hide Answer;
    FrontRead(m, 0, m.rest);
    NoneLeft(Encode(m), |Front(m, 0)|);
    PrependTwice(AddressesOf(m.answers), [], Ok([]));
  }

  // ---------------------------------------------------------------- messages cut off

  /** A name that ends inside its labels, or before its last byte, is an error. */
  lemma {:induction false} LabelsCutOff(buf: bytes, offset: nat, labels: seq<Label>, n: nat)
    requires n <= |EncodeLabels(labels)| && |buf| == offset + n && At(buf, offset, EncodeLabels(labels)[..n])
    ensures AfterName(buf, offset) == Err("truncated dns name")
    decreases |labels|
  {
    if n > 0 {
      var first, rest := [|labels[0]| as byte] + labels[0], EncodeLabels(labels[1..]);
      var all := EncodeLabels(labels);
      AtByte(buf, offset, all[..n], 0);
      assert all[..n][0] == first[0];
      if n >= |first| {
        assert all[..n] == first + rest[..n - |first|];
        AtSplit(buf, offset, first, rest[..n - |first|]);
        LabelsCutOff(buf, offset + |first|, labels[1..], n - |first|);
      }
    }
  }

  function EndOf(n: Name): bytes {
    match n.end case Root => [0] case Pointer(hi, lo) => [hi, lo]
  }

  /** Once the first byte after the labels is there, the name is skipped, whether it is all there or not. */
  lemma NameAlmostThere(buf: bytes, offset: nat, n: Name)
    requires At(buf, offset, EncodeLabels(n.labels) + EndOf(n)[..1])
    ensures AfterName(buf, offset) == Ok(offset + |EncodeName(n)|)
  {
    AtSplit(buf, offset, EncodeLabels(n.labels), EndOf(n)[..1]);
    LabelsSkipped(buf, offset, n.labels);
    AtByte(buf, offset + |EncodeLabels(n.labels)|, EndOf(n)[..1], 0);
  }

  /** A cut record that has the name's last part at least begun, and one that has its fixed part too. */
  lemma CutParts(r: Rr, n: nat)
    requires n < |EncodeRr(r)|
    ensures var labels, name := EncodeLabels(r.name.labels), EncodeName(r.name);
            var cut := EncodeRr(r)[..n];
            && |name| == |labels| + |EndOf(r.name)|
            && (n <= |labels| ==> cut == labels[..n])
            && (n > |labels| ==> cut == (labels + EndOf(r.name)[..1]) + cut[|labels| + 1..])
            && (n >= |name| + 10 ==> cut == name + (Fixed(r) + r.content.Data()[..n - |name| - 10]))
  {
    hide EncodeLabels, Fixed;
    assert EncodeRr(r) == EncodeLabels(r.name.labels) + EndOf(r.name) + Fixed(r) + r.content.Data();
  }

  lemma RecordCutOff(buf: bytes, offset: nat, r: Rr, n: nat)
    requires n < |EncodeRr(r)| && |buf| == offset + n && At(buf, offset, EncodeRr(r)[..n])
    ensures Record(buf, offset)
            == if n <= |EncodeLabels(r.name.labels)| then Stop(Err("truncated dns name")) else Stop(Ok([]))
  {
    var labels, end, name, data := EncodeLabels(r.name.labels), EndOf(r.name), EncodeName(r.name), r.content.Data();
    var cut := EncodeRr(r)[..n];
    CutParts(r, n);
    assert |EncodeRr(r)| == |name| + 10 + |data|;
    hide EncodeRr, EncodeLabels, EncodeName, EndOf, Fixed, At, AfterName, FromU16, U16;
    if n <= |labels| {
      LabelsCutOff(buf, offset, r.name.labels, n);
    } else {
      AtSplit(buf, offset, labels + end[..1], cut[|labels| + 1..]);
      NameAlmostThere(buf, offset, r.name);
      if n >= |name| + 10 {
        AtSplit(buf, offset, name, Fixed(r) + data[..n - |name| - 10]);
        AtSplit(buf, offset + |name|, Fixed(r), data[..n - |name| - 10]);
        FixedAt(buf, offset + |name|, r);
      }
    }
  }

  lemma FixedAt(buf: bytes, o: nat, r: Rr)
    requires At(buf, o, Fixed(r))
    ensures FromU16(buf[o], buf[o + 1]) == r.content.Type() && FromU16(buf[o + 8], buf[o + 9]) == |r.content.Data()|
  {
    FixedPartRead(buf, o, r.content.Type(), r.middle, |r.content.Data()|);
  }

  /**
   A response that ends inside its next answer yields the addresses before it, unless it ends inside that answer's
   labels: then everything is lost.
   */
  lemma CutOffAnswer(m: Message, r: Rr, n: nat, more: nat)
    requires |m.questions| < 0x1_0000 && |m.answers| + 1 + more < 0x1_0000 && n < |EncodeRr(r)|
    ensures Answer(Front(m, 1 + more) + EncodeRr(r)[..n])
            == if n <= |EncodeLabels(r.name.labels)| then Err("truncated dns name") else Ok(AddressesOf(m.answers))
  {
    hide Answer, Front, EncodeRr, EncodeLabels, Record;
    var buf, o := Front(m, 1 + more) + EncodeRr(r)[..n], |Front(m, 1 + more)|;
    FrontRead(m, 1 + more, EncodeRr(r)[..n]);
    RecordCutOff(buf, o, r, n);
    PrependTwice(AddressesOf(m.answers), [], Ok([]));
  }
}
