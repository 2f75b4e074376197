/** The client side: `encode_domain_name` and `build_dns_query` of
    app/tester.py, which turn a dotted name and a packet id into the bytes
    of a standard query for an A record in class IN. */
module Tester {
  import opened Wire
  import opened PyStr
  import PyStruct
  import Message

  /** The exceptions `encode_domain_name` raises. */
  datatype EncodeError =
    | LabelTooLong(length: nat)     // ValueError of `bytes([len(part)])`
    | NonAsciiLabel(part: string)  // UnicodeEncodeError of `part.encode('ascii')`

  /** The exceptions `build_dns_query` raises. */
  datatype QueryError =
    | NameError(nameError: EncodeError)
    | PackError(packError: PyStruct.StructError)

  /** The flags word of the query: only RD (recursion desired) is set. */
  const QUERY_FLAGS: nat := 0x0100
  /** QTYPE A and QCLASS IN. */
  const TYPE_A: nat := 1
  const CLASS_IN: nat := 1
  /** The `struct` formats of the header and of the question's tail. */
  const HEADER_FORMAT: string := "!HHHHHH"
  const QUESTION_FORMAT: string := "!HH"

  /** A part of the split name that the loop body accepts: its length fits
      in one octet and it is plain ASCII. Nothing here checks the 63-octet
      limit of RFC 1035 or rejects an empty part. */
  predicate Encodable(part: string)
  {
    |part| < 256 && IsAscii(part)
  }

  /** Every part of the split name is accepted by the loop body. */
  predicate AllEncodable(parts: seq<string>)
  {
    forall i :: 0 <= i < |parts| ==> Encodable(parts[i])
  }

  /** The exception the loop body raises for a part it cannot encode: the
      length octet is built before the characters are encoded, so a long
      part reports its length even when it is not ASCII. */
  function PartError(part: string): EncodeError
    requires !Encodable(part)
  {
    if |part| >= 256 then LabelTooLong(|part|) else NonAsciiLabel(part)
  }

  /** `bytes([len(part)]) + part.encode('ascii')`: the length octet, then
      one octet per character holding its code. A part that is too long
      raises `LabelTooLong`, whether or not it is ASCII. */
  function EncodeLabel(part: string): (r: Result<seq<byte>, EncodeError>)
    ensures r.Ok? <==> Encodable(part)
    ensures r.Ok? ==> |r.value| == |part| + 1 && r.value[0] == |part|
    ensures r.Ok? ==> forall i :: 0 <= i < |part| ==> r.value[1 + i] == part[i] as int
    ensures r.Err? ==> (r.error.LabelTooLong? <==> |part| >= 256)
  {
    if Encodable(part) then Ok([|part|] + EncodeAscii(part)) else Err(PartError(part))
  }

  /** The accumulator once the loop has run over `parts`, or the exception
      of the first part that fails. Every part adds at least its length
      octet. */
  function EncodedParts(parts: seq<string>): (r: Result<seq<byte>, EncodeError>)
    ensures r.Ok? ==> |r.value| >= |parts|
  {
    if parts == [] then Ok([])
    else
      match EncodedParts(parts[..|parts| - 1])
      case Err(e) => Err(e)
      case Ok(prefix) =>
        match EncodeLabel(parts[|parts| - 1])
        case Err(e) => Err(e)
        case Ok(encodedPart) => Ok(prefix + encodedPart)
  }

  /** What `encode_domain_name(name)` returns or raises. A returned name
      has an octet for each part at least, and ends with the zero octet. */
  function EncodedName(name: string): (r: Result<seq<byte>, EncodeError>)
    ensures r.Ok? ==> |r.value| > |Split(name, '.')| && r.value[|r.value| - 1] == 0
  {
    match EncodedParts(Split(name, '.'))
    case Err(e) => Err(e)
    case Ok(b) => Ok(b + [0])
  }

  /** `encode_domain_name`: appends each part of the split name to an
      accumulator, then the terminating zero octet. */
  method EncodeDomainName(domainName: string) returns (r: Result<seq<byte>, EncodeError>)
    ensures r == EncodedName(domainName)
  {
    var parts := Split(domainName, '.');
    var encoded: seq<byte> := [];
    for i := 0 to |parts|
      invariant EncodedParts(parts[..i]) == Ok(encoded)
    {
      var part := parts[i];
      assert parts[..i + 1][..i] == parts[..i];
      if |part| >= 256 {
        FailureSticks(parts, i + 1);
        return Err(LabelTooLong(|part|));
      }
      if !IsAscii(part) {
        FailureSticks(parts, i + 1);
        return Err(NonAsciiLabel(part));
      }
      assert EncodeLabel(part) == Ok([|part|] + EncodeAscii(part));
      encoded := encoded + ([|part|] + EncodeAscii(part));
    }
    assert parts[..|parts|] == parts;
    encoded := encoded + [0];
    return Ok(encoded);
  }

  /** Once a part has failed, the parts after it change nothing. */
  lemma {:induction false} FailureSticks(parts: seq<string>, k: nat)
    requires k <= |parts|
    requires EncodedParts(parts[..k]).Err?
    ensures EncodedParts(parts) == EncodedParts(parts[..k])
    decreases |parts| - k
  {
    if k < |parts| {
      assert parts[..k + 1][..k] == parts[..k];
      FailureSticks(parts, k + 1);
    } else {
      assert parts[..k] == parts;
    }
  }

  /** Where the length octet of part `i` sits in the encoded name. */
  function LabelOffset(parts: seq<string>, i: nat): nat
    requires i <= |parts|
  {
    Message.LabelsSize(parts[..i])
  }

  /** The accumulator read front to back: a proof device for the layout. */
  ghost function Flat(parts: seq<string>): (b: seq<byte>)
    requires AllEncodable(parts)
    ensures |b| == Message.LabelsSize(parts)
  {
    if parts == [] then []
    else
      assert Encodable(parts[0]);
      [|parts[0]|] + EncodeAscii(parts[0]) + Flat(parts[1..])
  }

  lemma {:induction false} FlatSnoc(parts: seq<string>, last: string)
    requires AllEncodable(parts)
    requires Encodable(last)
    ensures Flat(parts + [last]) == Flat(parts) + [|last|] + EncodeAscii(last)
  {
    if parts != [] {
      assert (parts + [last])[1..] == parts[1..] + [last];
      FlatSnoc(parts[1..], last);
    }
  }

  /** One more turn of the loop: an earlier failure is kept, an encodable
      part appends its label, any other part raises its error. */
  lemma EncodedPartsStep(init: seq<string>, last: string)
    ensures EncodedParts(init).Err? ==> EncodedParts(init + [last]) == EncodedParts(init)
    ensures EncodedParts(init).Ok? && !Encodable(last) ==>
              EncodedParts(init + [last]) == Err(PartError(last))
    ensures EncodedParts(init).Ok? && Encodable(last) ==>
              EncodedParts(init + [last]).Ok?
              && EncodedParts(init + [last]).value == EncodedParts(init).value + [|last|] + EncodeAscii(last)
  {
    assert (init + [last])[..|init|] == init;
  }

  /** When every part is encodable the loop runs to the end and has
      produced the parts front to back. */
  lemma {:induction false} EncodedPartsSucceed(parts: seq<string>)
    requires AllEncodable(parts)
    ensures EncodedParts(parts).Ok? && EncodedParts(parts).value == Flat(parts)
  {
    if parts != [] {
      var init := parts[..|parts| - 1];
      var last := parts[|parts| - 1];
      assert AllEncodable(init) by {
        assert forall i :: 0 <= i < |init| ==> init[i] == parts[i];
      }
      EncodedPartsSucceed(init);
      EncodedPartsStep(init, last);
      FlatSnoc(init, last);
      assert init + [last] == parts;
    }
  }

  /** When some part is not encodable the loop raises the error of the
      first part that is not. */
  lemma {:induction false} EncodedPartsFail(parts: seq<string>)
    requires exists i :: 0 <= i < |parts| && !Encodable(parts[i])
    ensures EncodedParts(parts).Err?
    ensures exists i :: 0 <= i < |parts| && !Encodable(parts[i])
                     && (forall j :: 0 <= j < i ==> Encodable(parts[j]))
                     && EncodedParts(parts).error == PartError(parts[i])
  {
    var init := parts[..|parts| - 1];
    var last := parts[|parts| - 1];
    assert init + [last] == parts;
    assert forall i :: 0 <= i < |init| ==> init[i] == parts[i];
    EncodedPartsStep(init, last);
    if exists i :: 0 <= i < |init| && !Encodable(init[i]) {
      EncodedPartsFail(init);
      var i :| 0 <= i < |init| && !Encodable(init[i])
               && (forall j :: 0 <= j < i ==> Encodable(init[j]))
               && EncodedParts(init).error == PartError(init[i]);
      assert !Encodable(parts[i]) && EncodedParts(parts).error == PartError(parts[i]);
    } else {
      EncodedPartsSucceed(init);
    }
  }

  /** The loop succeeds exactly when every part is encodable, and then it
      has produced the parts front to back; otherwise it raises the error of
      the first part that is not. */
  lemma EncodedPartsOutcome(parts: seq<string>)
    ensures EncodedParts(parts).Ok? <==> AllEncodable(parts)
    ensures EncodedParts(parts).Ok? ==> EncodedParts(parts).value == Flat(parts)
    ensures EncodedParts(parts).Err? ==>
              exists i :: 0 <= i < |parts| && !Encodable(parts[i])
                       && (forall j :: 0 <= j < i ==> Encodable(parts[j]))
                       && EncodedParts(parts).error == PartError(parts[i])
  {
    if AllEncodable(parts) {
      EncodedPartsSucceed(parts);
    } else {
      EncodedPartsFail(parts);
    }
  }

  /** `encode_domain_name` returns exactly when every part of
      `name.split('.')` is shorter than 256 characters and ASCII (empty parts
      included, and parts of 64 to 255 characters included); otherwise it
      raises for the first part that is not. */
  lemma EncodedNameOutcome(name: string)
    ensures EncodedName(name).Ok? <==>
              AllEncodable(Split(name, '.'))
    ensures EncodedName(name).Err? ==>
              exists i :: 0 <= i < |Split(name, '.')| && !Encodable(Split(name, '.')[i])
                       && (forall j :: 0 <= j < i ==> Encodable(Split(name, '.')[j]))
                       && EncodedName(name).error == PartError(Split(name, '.')[i])
  {
    var parts := Split(name, '.');
    EncodedPartsOutcome(parts);
    assert EncodedName(name).Ok? == EncodedParts(parts).Ok?;
    if EncodedParts(parts).Err? {
      assert EncodedName(name).error == EncodedParts(parts).error;
    }
  }

  /** `b` holds `part` at offset `at`: one octet with its length, then its
      character codes. */
  predicate LabelAt(b: seq<byte>, at: nat, part: string)
  {
    at + 1 + |part| <= |b| && b[at] == |part|
    && forall k :: 0 <= k < |part| ==> b[at + 1 + k] == part[k] as int
  }

  lemma {:induction false} FlatAt(parts: seq<string>, i: nat)
    requires AllEncodable(parts)
    requires i < |parts|
    ensures LabelAt(Flat(parts), LabelOffset(parts, i), parts[i])
  {
    assert Encodable(parts[0]);
    var head := [|parts[0]|] + EncodeAscii(parts[0]);
    var rest := Flat(parts[1..]);
    assert Flat(parts) == head + rest;
    if i == 0 {
      assert parts[..0] == [];
    } else {
      FlatAt(parts[1..], i - 1);
      assert parts[..i][1..] == parts[1..][..i - 1];
      assert parts[..i][0] == parts[0];
      assert LabelOffset(parts, i) == |head| + LabelOffset(parts[1..], i - 1);
    }
  }

  /** The layout of an encoded name: every part of `name.split('.')`, in
      input order, as one octet holding its length followed by its ASCII
      codes, and then a single zero octet, for a total of the sum of
      1 + len(part) over the parts, plus 1. */
  lemma EncodedNameLayout(name: string)
    requires EncodedName(name).Ok?
    ensures |EncodedName(name).value| == Message.LabelsSize(Split(name, '.')) + 1
    ensures EncodedName(name).value[|EncodedName(name).value| - 1] == 0
    ensures forall i :: 0 <= i < |Split(name, '.')| ==>
              LabelAt(EncodedName(name).value, LabelOffset(Split(name, '.'), i), Split(name, '.')[i])
  {
    var parts := Split(name, '.');
    EncodedPartsOutcome(parts);
    var b := EncodedName(name).value;
    assert b == Flat(parts) + [0];
    forall i | 0 <= i < |parts|
      ensures LabelAt(b, LabelOffset(parts, i), parts[i])
    {
      FlatAt(parts, i);
    }
  }

  /** A label list the RFC 1035 reader accepts: at least one label, each of
      1 to 63 ASCII characters without a dot. */
  predicate ValidLabels(labels: seq<string>)
  {
    |labels| >= 1
    && forall i :: 0 <= i < |labels| ==>
         1 <= |labels[i]| <= 63 && IsAscii(labels[i]) && Free(labels[i], '.')
  }

  lemma FlatCons(labels: seq<string>, tail: seq<byte>)
    requires |labels| >= 1
    requires AllEncodable(labels)
    ensures Flat(labels) + [0] + tail
            == [|labels[0]|] + EncodeAscii(labels[0]) + (Flat(labels[1..]) + [0] + tail)
  {
    var l, others := labels[0], labels[1..];
    assert Encodable(l);
    assert AllEncodable(others) by {
      forall i | 0 <= i < |others|
        ensures Encodable(others[i])
      {
        assert others[i] == labels[i + 1];
      }
    }
    var head := [|l|] + EncodeAscii(l);
    var rest := Flat(others);
    assert Flat(labels) == head + rest;
    AppendRegroup(head, rest, tail);
  }

  lemma AppendRegroup(head: seq<byte>, rest: seq<byte>, tail: seq<byte>)
    ensures head + rest + [0] + tail == head + (rest + [0] + tail)
  {
  }

  lemma HeadTail(labels: seq<string>)
    requires |labels| >= 1
    ensures [labels[0]] + labels[1..] == labels
  {
  }

  lemma {:induction false} FlatDecodes(labels: seq<string>, tail: seq<byte>)
    requires forall i :: 0 <= i < |labels| ==> 1 <= |labels[i]| <= 63 && Encodable(labels[i])
    ensures Message.DecodeLabels(Flat(labels) + [0] + tail).Some?
    ensures Message.DecodeLabels(Flat(labels) + [0] + tail).value.0 == labels
    ensures Message.DecodeLabels(Flat(labels) + [0] + tail).value.1 == |Flat(labels)| + 1
  {
    var x := Flat(labels) + [0] + tail;
    if labels == [] {
      assert x == [0] + tail;
    } else {
      var l, others := labels[0], labels[1..];
      assert 1 <= |l| <= 63 && Encodable(l);
      var e := EncodeAscii(l);
      var rest := Flat(others) + [0] + tail;
      assert x == [|e|] + e + rest by {
        FlatCons(labels, tail);
      }
      assert Message.DecodeLabels(rest).Some?
             && Message.DecodeLabels(rest).value.0 == others
             && Message.DecodeLabels(rest).value.1 == |Flat(others)| + 1 by {
        FlatDecodes(others, tail);
      }
      assert PyStr.DecodeLatin1(e) == l by {
        AsciiRoundTrip(l);
      }
      HeadTail(labels);
      Message.DecodeLabelsCons(x, e, rest);
    }
  }

  /** Round trip: the name joined from valid labels encodes, and the RFC 1035
      length-prefix reader, stopping at the zero octet, gives back exactly
      those labels and stops right after the name, whatever follows it. */
  lemma NameRoundTrip(labels: seq<string>, tail: seq<byte>)
    requires ValidLabels(labels)
    ensures EncodedName(Join(labels, '.')).Ok?
    ensures Message.DecodeLabels(EncodedName(Join(labels, '.')).value + tail).Some?
    ensures Message.DecodeLabels(EncodedName(Join(labels, '.')).value + tail).value.0 == labels
    ensures Message.DecodeLabels(EncodedName(Join(labels, '.')).value + tail).value.1
            == |EncodedName(Join(labels, '.')).value|
  {
    SplitJoin(labels, '.');
    EncodedPartsOutcome(labels);
    FlatDecodes(labels, tail);
  }

  /** The empty name is one empty part, written as a zero length octet
      before the terminating zero. */
  lemma EmptyNameExample()
    ensures EncodedName("").Ok? && EncodedName("").value == [0, 0]
  {
    assert Split("", '.') == [""];
    assert EncodedParts([""]).Ok? && EncodedParts([""]).value == [0] by {
      assert Encodable("") && EncodeAscii("") == [];
      EncodedPartsStep([], "");
      assert [] + [""] == [""];
    }
  }

  /** The reader stops at the first zero octet, with no labels. */
  lemma EmptyNameRead()
    ensures Message.DecodeLabels([0, 0]).Some?
    ensures Message.DecodeLabels([0, 0]).value.0 == []
    ensures Message.DecodeLabels([0, 0]).value.1 == 1
  {
  }

  lemma SplitTrailingDot(c: char)
    requires c != '.'
    ensures Split([c, '.'], '.') == [[c], []]
  {
    assert [c, '.'][1..] == ['.'] && ['.'][1..] == [];
    assert Split([], '.') == [[]];
    var rest := Split(['.'], '.');
    assert rest == [[], []];
    assert [c] + rest[0] == [c] && rest[1..] == [[]];
  }

  /** A trailing dot gives an empty last part: `"a."` is `01 61 00 00`. */
  lemma TrailingDotExample(c: char)
    requires c != '.' && c as int < 128
    ensures EncodedName([c, '.']).Ok? && EncodedName([c, '.']).value == [1, c as int, 0, 0]
  {
    SplitTrailingDot(c);
    assert EncodedParts([[c]]).Ok? && EncodedParts([[c]]).value == [1, c as int] by {
      assert Encodable([c]) && EncodeAscii([c]) == [c as int];
      EncodedPartsStep([], [c]);
      assert [] + [[c]] == [[c]];
    }
    assert EncodedParts([[c], []]).Ok? && EncodedParts([[c], []]).value == [1, c as int, 0] by {
      assert Encodable([]) && EncodeAscii([]) == [];
      EncodedPartsStep([[c]], []);
      assert [[c]] + [[]] == [[c], []];
    }
  }

  lemma SplitLeadingDot(c: char)
    requires c != '.'
    ensures Split(['.', c], '.') == [[], [c]]
  {
    assert ['.', c][1..] == [c];
    SplitFree([c], '.');
  }

  /** A leading dot gives an empty first part: `".a"` is `00 01 61 00`. */
  lemma LeadingDotExample(c: char)
    requires c != '.' && c as int < 128
    ensures EncodedName(['.', c]).Ok? && EncodedName(['.', c]).value == [0, 1, c as int, 0]
  {
    SplitLeadingDot(c);
    assert EncodedParts([[]]).Ok? && EncodedParts([[]]).value == [0] by {
      assert Encodable([]) && EncodeAscii([]) == [];
      EncodedPartsStep([], "");
      assert [] + [""] == [""];
    }
    assert EncodedParts([[], [c]]).Ok? && EncodedParts([[], [c]]).value == [0, 1, c as int] by {
      assert Encodable([c]) && EncodeAscii([c]) == [c as int];
      EncodedPartsStep([[]], [c]);
      assert [[]] + [[c]] == [[], [c]];
    }
  }

  /** A label of 64 to 255 characters is written as it is, beyond the
      63-octet limit of section 2.3.4 of RFC 1035; the RFC reader refuses it. */
  lemma LongLabelAccepted(long: string)
    requires 64 <= |long| < 256 && IsAscii(long) && Free(long, '.')
    ensures EncodedName(long).Ok? && EncodedName(long).value == [|long|] + EncodeAscii(long) + [0]
    ensures Message.DecodeLabels(EncodedName(long).value).None?
  {
    assert Split(long, '.') == [long] by {
      SplitFree(long, '.');
    }
    assert EncodedParts([long]).Ok? && EncodedParts([long]).value == [|long|] + EncodeAscii(long) by {
      assert [long][..0] == [];
      assert EncodeLabel(long).value == [|long|] + EncodeAscii(long);
    }
  }

  /** `build_dns_query(domain_name, packet_id)`; `host` is the byte order of
      the machine, which the `!` prefix of both formats overrides. A built
      query is the 12 header octets, the encoded name and 4 more octets. */
  function BuildDnsQuery(domainName: string, packetId: int, host: PyStruct.ByteOrder): (r: Result<seq<byte>, QueryError>)
    ensures r.Ok? ==> EncodedName(domainName).Ok? && |r.value| == 12 + |EncodedName(domainName).value| + 4
  {
    match EncodedName(domainName)
    case Err(e) => Err(NameError(e))
    case Ok(name) =>
      match PyStruct.Pack(HEADER_FORMAT, [packetId, QUERY_FLAGS, 1, 0, 0, 0], host)
      case Err(e) => Err(PackError(e))
      case Ok(header) =>
        match PyStruct.Pack(QUESTION_FORMAT, [TYPE_A, CLASS_IN], host)
        case Err(e) => Err(PackError(e))
        case Ok(question) => Ok(header + name + question)
  }

  /** Three zero counts pack to six zero octets. */
  lemma PackZeros()
    ensures PyStruct.PackShorts([0, 0, 0], PyStruct.BigEndian).Ok?
    ensures PyStruct.PackShorts([0, 0, 0], PyStruct.BigEndian).value == [0, 0, 0, 0, 0, 0]
  {
    assert PyStruct.PackShorts([0], PyStruct.BigEndian).value == [0, 0];
    assert PyStruct.PackShorts([0, 0], PyStruct.BigEndian).value == [0, 0, 0, 0];
  }

  /** The query is built when the name encodes and the packet id fits in 16
      bits. The name is encoded first, so its error wins; a packet id
      outside 0..65535 is then refused by `struct.pack`. */
  lemma BuildDnsQueryOutcome(domainName: string, packetId: int, host: PyStruct.ByteOrder)
    ensures BuildDnsQuery(domainName, packetId, host).Ok? <==>
              EncodedName(domainName).Ok? && 0 <= packetId < 65536
    ensures EncodedName(domainName).Err? ==>
              BuildDnsQuery(domainName, packetId, host) == Err(NameError(EncodedName(domainName).error))
    ensures EncodedName(domainName).Ok? && !(0 <= packetId < 65536) ==>
              BuildDnsQuery(domainName, packetId, host) == Err(PackError(PyStruct.OutOfRange(packetId)))
  {
    if 0 <= packetId < 65536 {
      QueryHeaderBytes(packetId, host);
    } else {
      PyStruct.PackPrefixed(HEADER_FORMAT, [packetId, QUERY_FLAGS, 1, 0, 0, 0], host);
    }
  }

  /** The twelve header octets of a query: the packet id big-endian, the
      flags `01 00`, QDCOUNT 1 and three zero counts. */
  function HeaderOctets(packetId: int): seq<byte>
    requires 0 <= packetId < 65536
  {
    [packetId / 256, packetId % 256, 0x01, 0x00, 0, 1, 0, 0, 0, 0, 0, 0]
  }

  /** The six header values of a query as big-endian shorts. */
  lemma QueryHeaderShorts(packetId: int)
    requires 0 <= packetId < 65536
    ensures PyStruct.PackShorts([packetId, QUERY_FLAGS, 1, 0, 0, 0], PyStruct.BigEndian).Ok?
    ensures PyStruct.PackShorts([packetId, QUERY_FLAGS, 1, 0, 0, 0], PyStruct.BigEndian).value
            == HeaderOctets(packetId)
  {
    PackZeros();
    assert PyStruct.PackShorts([1, 0, 0, 0], PyStruct.BigEndian).value == [0, 1, 0, 0, 0, 0, 0, 0];
    assert PyStruct.PackShorts([QUERY_FLAGS, 1, 0, 0, 0], PyStruct.BigEndian).value
        == [0x01, 0x00, 0, 1, 0, 0, 0, 0, 0, 0];
  }

  /** The header `build_dns_query` packs for a packet id that fits in 16
      bits, and the QTYPE and QCLASS after the name. */
  lemma QueryHeaderBytes(packetId: int, host: PyStruct.ByteOrder)
    requires 0 <= packetId < 65536
    ensures PyStruct.Pack(HEADER_FORMAT, [packetId, QUERY_FLAGS, 1, 0, 0, 0], host).Ok?
    ensures PyStruct.Pack(HEADER_FORMAT, [packetId, QUERY_FLAGS, 1, 0, 0, 0], host).value
            == HeaderOctets(packetId)
    ensures PyStruct.Pack(QUESTION_FORMAT, [TYPE_A, CLASS_IN], host).Ok?
    ensures PyStruct.Pack(QUESTION_FORMAT, [TYPE_A, CLASS_IN], host).value == [0, 1, 0, 1]
  {
    PyStruct.PackPrefixed(HEADER_FORMAT, [packetId, QUERY_FLAGS, 1, 0, 0, 0], host);
    QueryHeaderShorts(packetId);
    PyStruct.PackPrefixed(QUESTION_FORMAT, [TYPE_A, CLASS_IN], host);
    var question := [TYPE_A, CLASS_IN];
    assert question[1..] == [CLASS_IN] && [CLASS_IN][1..] == [];
    assert PyStruct.PackShorts([CLASS_IN], PyStruct.BigEndian).Ok?
           && PyStruct.PackShorts([CLASS_IN], PyStruct.BigEndian).value == [0, 1];
  }

  /** The layout of a query: the 12 header octets, the encoded name, then
      QTYPE 1 and QCLASS 1. */
  lemma BuildDnsQueryLayout(domainName: string, packetId: int, host: PyStruct.ByteOrder)
    requires BuildDnsQuery(domainName, packetId, host).Ok?
    ensures 0 <= packetId < 65536 && EncodedName(domainName).Ok?
    ensures BuildDnsQuery(domainName, packetId, host).value
            == HeaderOctets(packetId) + EncodedName(domainName).value + [0, 1, 0, 1]
  {
    BuildDnsQueryOutcome(domainName, packetId, host);
    QueryHeaderBytes(packetId, host);
  }

  /** The query does not depend on the machine: the same octets, or the
      same exception, on a big-endian and a little-endian host. */
  lemma BuildDnsQueryAnyHost(domainName: string, packetId: int, host: PyStruct.ByteOrder)
    ensures BuildDnsQuery(domainName, packetId, host) == BuildDnsQuery(domainName, packetId, PyStruct.BigEndian)
  {
    BuildDnsQueryOutcome(domainName, packetId, host);
    BuildDnsQueryOutcome(domainName, packetId, PyStruct.BigEndian);
    if BuildDnsQuery(domainName, packetId, host).Ok? {
      BuildDnsQueryLayout(domainName, packetId, host);
      BuildDnsQueryLayout(domainName, packetId, PyStruct.BigEndian);
    }
  }

  /** The header octets read back as the header `build_dns_query` meant. */
  lemma HeaderOctetsRead(packetId: int, rest: seq<byte>)
    requires 0 <= packetId < 65536
    ensures Message.DecodeHeader(HeaderOctets(packetId) + rest)
            == Some(Message.Header(packetId, QUERY_FLAGS, 1, 0, 0, 0))
  {
    var values := [packetId, QUERY_FLAGS, 1, 0, 0, 0];
    assert (HeaderOctets(packetId) + rest)[..12] == HeaderOctets(packetId);
    assert PyStruct.UnpackShorts(HeaderOctets(packetId), PyStruct.BigEndian) == values by {
      QueryHeaderShorts(packetId);
      PyStruct.PackShortsRoundTrip(values, PyStruct.BigEndian);
    }
  }

  /** In the flags word `01 00` only RD is set: QR 0 (a query), Opcode 0
      (a standard query), and every other field 0. */
  lemma QueryFlagsFields()
    ensures Message.DecodeFlags(QUERY_FLAGS) == Message.HeaderFlags(0, 0, 0, 0, 1, 0, 0, 0)
  {
    Message.Pow2Values();
  }

  /** Reading a query back from its three parts: the header octets, an
      encoded name the label reader accepts, and QTYPE 1, QCLASS 1. */
  lemma ReadBackQuery(packetId: int, e: seq<byte>, labels: seq<string>)
    requires 0 <= packetId < 65536
    requires Message.DecodeLabels(e + [0, 1, 0, 1]).Some?
    requires Message.DecodeLabels(e + [0, 1, 0, 1]).value.0 == labels
    requires Message.DecodeLabels(e + [0, 1, 0, 1]).value.1 == |e|
    ensures Message.ParseQuery(HeaderOctets(packetId) + e + [0, 1, 0, 1])
            == Some(Message.Query(Message.Header(packetId, QUERY_FLAGS, 1, 0, 0, 0), labels, TYPE_A, CLASS_IN))
  {
    var h := HeaderOctets(packetId);
    var t := e + [0, 1, 0, 1];
    var q := h + t;
    assert q == h + e + [0, 1, 0, 1];
    assert |q| == 12 + |e| + 4 && q[12..] == t;
    assert q[12 + |e|] == 0 && q[13 + |e|] == 1 && q[14 + |e|] == 0 && q[15 + |e|] == 1 by {
      assert q[12 + |e|..] == [0, 1, 0, 1];
    }
    HeaderOctetsRead(packetId, t);
    Message.ParseQueryParts(q, |e|);
  }

  /** Round trip of a whole query: reading back what `build_dns_query`
      wrote for a name of valid labels gives the packet id, the flags, the
      counts, the labels, QTYPE A and QCLASS IN, with nothing left over. */
  lemma QueryRoundTrip(labels: seq<string>, packetId: int, host: PyStruct.ByteOrder)
    requires ValidLabels(labels) && 0 <= packetId < 65536
    ensures BuildDnsQuery(Join(labels, '.'), packetId, host).Ok?
    ensures Message.ParseQuery(BuildDnsQuery(Join(labels, '.'), packetId, host).value)
            == Some(Message.Query(Message.Header(packetId, QUERY_FLAGS, 1, 0, 0, 0), labels, TYPE_A, CLASS_IN))
  {
    var name := Join(labels, '.');
    NameRoundTrip(labels, [0, 1, 0, 1]);
    BuildDnsQueryOutcome(name, packetId, host);
    BuildDnsQueryLayout(name, packetId, host);
    ReadBackQuery(packetId, EncodedName(name).value, labels);
  }
}
