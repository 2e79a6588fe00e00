/** The query printer and the readers of a query's name. */
module DnsQuery {
  import opened Bytes
  import opened DnsMessage

  const DOT: byte := 46

  // ---------------------------------------------------------------- host names

  /** The pieces between dots, empty ones included. */
  function Split(host: bytes): (parts: seq<bytes>)
    ensures parts != []
    ensures forall i | 0 <= i < |parts| :: DOT !in parts[i]
  {
    if host == [] then [[]]
    else
      var rest := Split(host[1..]);
      if host[0] == DOT then [[]] + rest else [[host[0]] + rest[0]] + rest[1..]
  }

  function NonEmpty(parts: seq<bytes>): seq<bytes> {
    if parts == [] then [] else (if parts[0] == [] then [] else [parts[0]]) + NonEmpty(parts[1..])
  }

  /** The labels that a query for `host` carries. */
  function Labels(host: bytes): seq<bytes> {
    NonEmpty(Split(host))
  }

  /** They are the non-empty pieces between dots: none is empty, none holds a dot, and no other piece is dropped. */
  lemma LabelsAreThePieces(host: bytes, l: bytes)
    ensures l in Labels(host) <==> l != [] && l in Split(host)
    ensures l in Labels(host) ==> DOT !in l
  {
    InNonEmpty(Split(host), l);
  }

  lemma {:induction false} InNonEmpty(parts: seq<bytes>, l: bytes)
    ensures l in NonEmpty(parts) <==> l != [] && l in parts
  {
    if parts != [] {
      InNonEmpty(parts[1..], l);
      assert parts == [parts[0]] + parts[1..];
    }
  }

  function Join(labels: seq<bytes>): bytes {
    if labels == [] then []
    else if |labels| == 1 then labels[0]
    else labels[0] + [DOT] + Join(labels[1..])
  }

  ghost predicate Ascii7(s: bytes) {
    forall i | 0 <= i < |s| :: s[i] < 128
  }

  /** At least one label, each of 1 to 63 ASCII bytes. */
  ghost predicate GoodLabels(labels: seq<bytes>) {
    labels != [] && forall i | 0 <= i < |labels| :: 1 <= |labels[i]| <= 63 && Ascii7(labels[i])
  }

  // ---------------------------------------------------------------- printer

  const HEADER: bytes := [0x12, 0x34, 1, 0, 0, 1, 0, 0, 0, 0, 0, 0]

  /** Length-prefixed labels; the length byte is the length truncated to 8 bits. */
  function Wire(labels: seq<bytes>): bytes {
    if labels == [] then [] else [(|labels[0]| % 256) as byte] + labels[0] + Wire(labels[1..])
  }

  function Query(labels: seq<bytes>, ipv6: bool): bytes {
    HEADER + (Wire(labels) + ([0] + (if ipv6 then [0, 28] else [0, 1]) + [0, 1]))
  }

  lemma {:induction false} WireSnoc(labels: seq<bytes>, l: bytes)
    ensures Wire(labels + [l]) == Wire(labels) + ([(|l| % 256) as byte] + l)
  {
    if labels == [] {
      assert labels + [l] == [l];
    } else {
      assert (labels + [l])[1..] == labels[1..] + [l];
      WireSnoc(labels[1..], l);
      Assoc([(|labels[0]| % 256) as byte] + labels[0], Wire(labels[1..]), [(|l| % 256) as byte] + l);
    }
  }

  lemma NonEmptySnoc(parts: seq<bytes>, p: bytes)
    ensures NonEmpty(parts + [p]) == NonEmpty(parts) + (if p == [] then [] else [p])
  {
    if parts == [] {
      assert parts + [p] == [p];
    } else {
      assert (parts + [p])[1..] == parts[1..] + [p];
      NonEmptySnoc(parts[1..], p);
    }
  }

  method BuildQuery(host: bytes, ipv6: bool) returns (out: bytes)
    ensures out == Query(Labels(host), ipv6)
  {
    var parts := Split(host);
    out := HEADER;
    for i := 0 to |parts|
      invariant out == HEADER + Wire(NonEmpty(parts[..i]))
    {
      NonEmptySnoc(parts[..i], parts[i]);
      assert parts[..i + 1] == parts[..i] + [parts[i]];
      var l := parts[i];
      if l == [] {
        assert NonEmpty(parts[..i + 1]) == NonEmpty(parts[..i]);
        continue;
      }
      WireSnoc(NonEmpty(parts[..i]), l);
      Assoc(HEADER, Wire(NonEmpty(parts[..i])), [(|l| % 256) as byte] + l);
      Assoc(HEADER + Wire(NonEmpty(parts[..i])), [(|l| % 256) as byte], l);
      out := out + [(|l| % 256) as byte];
      out := out + l;
    }
    assert parts[..|parts|] == parts;
    ghost var tail := [0] + (if ipv6 then [0, 28] else [0, 1]) + [0, 1];
    Assoc(HEADER, Wire(Labels(host)), tail);
    Assoc(HEADER + Wire(Labels(host)), [0], if ipv6 then [0, 28] else [0, 1]);
    Assoc(HEADER + Wire(Labels(host)), [0] + (if ipv6 then [0, 28] else [0, 1]), [0, 1]);
    out := out + [0];
    out := out + (if ipv6 then [0, 28] else [0, 1]);
    out := out + [0, 1];
  }

  // ---------------------------------------------------------------- readers

  /** What the DNS inbound sees: labels up to a zero byte or the end; `lossy` turns bytes into text. */
  function LabelsFrom(lossy: bytes -> bytes, query: bytes, offset: nat): seq<bytes>
    decreases |query| - offset
  {
    if offset >= |query| || query[offset] == 0 then []
    else
      var end := offset + 1 + query[offset] as int;
      if end > |query| then [] else [lossy(query[offset + 1..end])] + LabelsFrom(lossy, query, end)
  }

  function QueryName(lossy: bytes -> bytes, query: bytes): Result<bytes> {
    if |query| < 13 then Err("short query")
    else
      var labels := LabelsFrom(lossy, query, 12);
      if labels == [] then Err("empty qname") else Ok(Join(labels))
  }

  method ExtractQueryName(lossy: bytes -> bytes, query: bytes) returns (r: Result<bytes>)
    ensures r == QueryName(lossy, query)
  {
    if |query| < 13 {
      return Err("short query");
    }
    var offset := 12;
    var labels: seq<bytes> := [];
    while true
      invariant LabelsFrom(lossy, query, 12) == labels + LabelsFrom(lossy, query, offset)
      decreases |query| - offset
    {
      assert labels + [] == labels;
      if offset >= |query| {
        break;
      }
      var len := query[offset] as int;
      if len == 0 {
        break;
      }
      offset := offset + 1;
      if offset + len > |query| {
        break;
      }
      Assoc2(labels, [lossy(query[offset..offset + len])], LabelsFrom(lossy, query, offset + len));
      labels := labels + [lossy(query[offset..offset + len])];
      offset := offset + len;
    }
    assert LabelsFrom(lossy, query, 12) == labels;
    if labels == [] {
      return Err("empty qname");
    }
    return Ok(Join(labels));
  }

  /** What the sniffer sees: an over-long, truncated or non-text label spoils the name; `utf8` says what is text. */
  function SniffFrom(utf8: bytes -> bool, data: bytes, pos: nat): Option<seq<bytes>>
    decreases |data| - pos
  {
    if pos >= |data| || data[pos] == 0 then Some([])
    else
      var end := pos + 1 + data[pos] as int;
      if data[pos] > 63 || end > |data| || !utf8(data[pos + 1..end]) then None
      else
        Before([data[pos + 1..end]], SniffFrom(utf8, data, end))
  }

  function SniffedName(utf8: bytes -> bool, data: bytes): Option<bytes> {
    if |data| < 13 || FromU16(data[4], data[5]) == 0 then None
    else
      var labels := SniffFrom(utf8, data, 12);
      if labels.None? || labels.value == [] then None else Some(Join(labels.value))
  }

  function Before(labels: seq<bytes>, rest: Option<seq<bytes>>): Option<seq<bytes>> {
    if rest.None? then None else Some(labels + rest.value)
  }

  lemma Assoc2(a: seq<bytes>, b: seq<bytes>, c: seq<bytes>)
    ensures (a + b) + c == a + (b + c)
  {
  }

  lemma BeforeBefore(a: seq<bytes>, b: seq<bytes>, r: Option<seq<bytes>>)
    ensures Before(a, Before(b, r)) == Before(a + b, r)
    ensures Before([], r) == r && Before(a, Some([])) == Some(a)
  {
    assert a + [] == a;
    if r.Some? {
      Assoc2(a, b, r.value);
      assert [] + r.value == r.value;
    }
  }

  method ParseDnsQueryName(utf8: bytes -> bool, data: bytes) returns (r: Option<bytes>)
    ensures r == SniffedName(utf8, data)
  {
    if |data| < 13 {
      return None;
    }
    if FromU16(data[4], data[5]) == 0 {
      return None;
    }
    var labels: seq<bytes> := [];
    var pos := 12;
    BeforeBefore([], [], SniffFrom(utf8, data, 12));
    while pos < |data|
      invariant SniffFrom(utf8, data, 12) == Before(labels, SniffFrom(utf8, data, pos))
      decreases |data| - pos
    {
      var len := data[pos] as int;
      if len == 0 {
        break;
      }
      if len > 63 || pos + 1 + len > |data| {
        return None;
      }
      if !utf8(data[pos + 1..pos + 1 + len]) {
        return None;
      }
      BeforeBefore(labels, [data[pos + 1..pos + 1 + len]], SniffFrom(utf8, data, pos + 1 + len));
      labels := labels + [data[pos + 1..pos + 1 + len]];
      pos := pos + 1 + len;
    }
    BeforeBefore(labels, [], Some([]));
    if labels == [] {
      return None;
    } else {
      return Some(Join(labels));
    }
  }

  // ---------------------------------------------------------------- the readers agree with the printer

  lemma {:induction false} WireIsEncoded(labels: seq<Label>)
    ensures Wire(labels) == EncodeLabels(labels)
  {
    if labels != [] {
      WireIsEncoded(labels[1..]);
    }
  }

  lemma OneLabelRead(buf: bytes, offset: nat, l: Label)
    requires At(buf, offset, [|l| as byte] + l)
    ensures offset + 1 + |l| <= |buf| && buf[offset] as int == |l| && buf[offset + 1..offset + 1 + |l|] == l
  {
    AtByte(buf, offset, [|l| as byte] + l, 0);
    AtSplit(buf, offset, [|l| as byte], l);
    AtSlice(buf, offset + 1, l);
  }

  lemma OneLabelExtracted(lossy: bytes -> bytes, buf: bytes, offset: nat, l: Label)
    requires At(buf, offset, [|l| as byte] + l) && lossy(l) == l
    ensures LabelsFrom(lossy, buf, offset) == [l] + LabelsFrom(lossy, buf, offset + 1 + |l|)
  {
    OneLabelRead(buf, offset, l);
    hide At;
  }

  lemma {:induction false} LabelsExtracted(lossy: bytes -> bytes, buf: bytes, offset: nat, labels: seq<Label>)
    requires At(buf, offset, EncodeLabels(labels))
    requires forall i | 0 <= i < |labels| :: lossy(labels[i]) == labels[i]
    ensures LabelsFrom(lossy, buf, offset)
            == labels + LabelsFrom(lossy, buf, offset + |EncodeLabels(labels)|)
    decreases |labels|
  {
    hide At, LabelsFrom;
    if labels == [] {
      assert labels + LabelsFrom(lossy, buf, offset) == LabelsFrom(lossy, buf, offset);
    } else {
      var first := [|labels[0]| as byte] + labels[0];
      AtSplit(buf, offset, first, EncodeLabels(labels[1..]));
      OneLabelExtracted(lossy, buf, offset, labels[0]);
      LabelsExtracted(lossy, buf, offset + |first|, labels[1..]);
      Assoc2([labels[0]], labels[1..], LabelsFrom(lossy, buf, offset + |EncodeLabels(labels)|));
      assert labels == [labels[0]] + labels[1..];
    }
  }

  lemma {:induction false} LabelsSniffed(utf8: bytes -> bool, buf: bytes, offset: nat, labels: seq<Label>)
    requires At(buf, offset, EncodeLabels(labels))
    requires forall i | 0 <= i < |labels| :: utf8(labels[i])
    ensures SniffFrom(utf8, buf, offset)
            == Before(labels, SniffFrom(utf8, buf, offset + |EncodeLabels(labels)|))
    decreases |labels|
  {
    hide At;
    var rest := SniffFrom(utf8, buf, offset + |EncodeLabels(labels)|);
    if labels == [] {
      BeforeBefore([], [], rest);
    } else {
      var first := [|labels[0]| as byte] + labels[0];
      AtSplit(buf, offset, first, EncodeLabels(labels[1..]));
      OneLabelRead(buf, offset, labels[0]);
      LabelsSniffed(utf8, buf, offset + |first|, labels[1..]);
      BeforeBefore([labels[0]], labels[1..], rest);
      assert labels == [labels[0]] + labels[1..];
    }
  }

  /** Both readers give back the labels of a query, and skipping its name leaves exactly type and class. */
  lemma LabelsComeBack(
    lossy: bytes -> bytes, utf8: bytes -> bool, labels: seq<Label>, ipv6: bool)
    requires labels != []
    requires forall i | 0 <= i < |labels| :: lossy(labels[i]) == labels[i] && utf8(labels[i])
    ensures var q := Query(labels, ipv6);
            && QueryName(lossy, q) == Ok(Join(labels))
            && SniffedName(utf8, q) == Some(Join(labels))
            && AfterName(q, 12) == Ok(|q| - 4)
  {
    var q := Query(labels, ipv6);
    var tail := [0] + (if ipv6 then [0, 28] else [0, 1]) + [0, 1];
    var end := 12 + |EncodeLabels(labels)|;
    QueryParts(labels, ipv6);
    hide At, Query, EncodeLabels, Join;
    LabelsExtracted(lossy, q, 12, labels);
    LabelsSniffed(utf8, q, 12, labels);
    LabelsSkipped(q, 12, labels);
    BeforeBefore(labels, [], Some([]));
    assert labels + [] == labels;
  }

  lemma QueryParts(labels: seq<Label>, ipv6: bool)
    ensures var q := Query(labels, ipv6);
            && |q| == 17 + |EncodeLabels(labels)|
            && q[4] == 0 && q[5] == 1 && q[12 + |EncodeLabels(labels)|] == 0
            && At(q, 12, EncodeLabels(labels))
  {
    WireIsEncoded(labels);
    HeaderThen(EncodeLabels(labels), [0] + (if ipv6 then [0, 28] else [0, 1]) + [0, 1]);
  }

  lemma HeaderThen(body: bytes, tail: bytes)
    requires |tail| > 0
    ensures var q := HEADER + (body + tail);
            q[4] == 0 && q[5] == 1 && q[12 + |body|] == tail[0] && At(q, 12, body)
  {
  }

  // ---------------------------------------------------------------- from host to host

  /** Text decoding leaves ASCII alone. */
  ghost predicate TextOnAscii(lossy: bytes -> bytes, utf8: bytes -> bool) {
    forall s :: Ascii7(s) ==> lossy(s) == s && utf8(s)
  }

  /**
   For a host whose non-empty labels are 1 to 63 ASCII bytes, both readers give back the host without its empty
   labels, and skipping the name from the header's end lands 4 bytes before the end.
   */
  lemma ReadersInvertBuildQuery(lossy: bytes -> bytes, utf8: bytes -> bool, host: bytes, ipv6: bool)
    requires TextOnAscii(lossy, utf8) && GoodLabels(Labels(host))
    ensures var q := Query(Labels(host), ipv6);
            && QueryName(lossy, q) == Ok(Join(Labels(host)))
            && SniffedName(utf8, q) == Some(Join(Labels(host)))
            && AfterName(q, 12) == Ok(|q| - 4)
  {
    LabelsComeBack(lossy, utf8, Labels(host), ipv6);
  }

  lemma {:induction false} JoinSplit(host: bytes)
    ensures Join(Split(host)) == host
  {
    if host != [] {
      JoinSplit(host[1..]);
      var rest := Split(host[1..]);
      assert Split(host)[1..] == if host[0] == DOT then rest else rest[1..];
      assert host == [host[0]] + host[1..];
    }
  }

  lemma {:induction false} NothingToDrop(parts: seq<bytes>)
    requires forall i | 0 <= i < |parts| :: parts[i] != []
    ensures NonEmpty(parts) == parts
  {
    if parts != [] {
      NothingToDrop(parts[1..]);
    }
  }

  /** A host with no empty labels is itself what the readers return. */
  lemma CleanHostUnchanged(host: bytes)
    requires forall i | 0 <= i < |Split(host)| :: Split(host)[i] != []
    ensures Join(Labels(host)) == host
  {
    NothingToDrop(Split(host));
    JoinSplit(host);
  }

  /** A query in bytes: the fixed header, the name, and the type asked for in class IN. */
  lemma QueryOnTheWire(labels: seq<bytes>, ipv6: bool)
    ensures var q := Query(labels, ipv6);
            && |q| >= 17 && q[..12] == [0x12, 0x34, 1, 0, 0, 1, 0, 0, 0, 0, 0, 0]
            && q[12..|q| - 5] == Wire(labels) && q[|q| - 5..] == [0, 0, if ipv6 then 28 else 1, 0, 1]
  {
    hide Wire;
    var tail: bytes := [0] + (if ipv6 then [0, 28] else [0, 1]) + [0, 1];
    Thirds(HEADER, Wire(labels), tail);
  }

  /**
   A name spoilt after some labels: the sniffer gives up on a label that is too long, cut off or no text; the
   inbound takes the labels before one that is cut off.
   */
  lemma SpoiltName(lossy: bytes -> bytes, utf8: bytes -> bool, buf: bytes, labels: seq<Label>)
    requires |buf| >= 13 && (buf[4] != 0 || buf[5] != 0) && At(buf, 12, EncodeLabels(labels))
    requires forall i | 0 <= i < |labels| :: lossy(labels[i]) == labels[i] && utf8(labels[i])
    requires 12 + |EncodeLabels(labels)| < |buf| && buf[12 + |EncodeLabels(labels)|] != 0
    ensures var p := 12 + |EncodeLabels(labels)|;
            var end := p + 1 + buf[p] as int;
            && (buf[p] > 63 || end > |buf| || !utf8(buf[p + 1..end]) ==> SniffedName(utf8, buf) == None)
            && (end > |buf| ==>
                  QueryName(lossy, buf) == if labels == [] then Err("empty qname") else Ok(Join(labels)))
  {
    hide EncodeLabels, At, Join;
    LabelsSniffed(utf8, buf, 12, labels);
    LabelsExtracted(lossy, buf, 12, labels);
    var p := 12 + |EncodeLabels(labels)|;
    if p + 1 + buf[p] as int > |buf| {
      assert LabelsFrom(lossy, buf, p) == [];
      assert labels + [] == labels;
    }
  }
}
