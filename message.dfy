/** Reference readers for the DNS message layout of RFC 1035: the 12-octet
    header of section 4.1.1 with the flag fields inside it, the
    length-prefixed labels of section 3.1 and the question of section
    4.1.2. The writers of the client and the server are proved against
    them. */
module Message {
  import opened Wire
  import opened Bits
  import PyStr
  import PyStruct

  /** The six 16-bit header fields, in wire order. */
  datatype Header = Header(id: nat, flags: nat, qdCount: nat, anCount: nat, nsCount: nat, arCount: nat)

  /** The fields of the flags word. */
  datatype HeaderFlags = HeaderFlags(qr: nat, opcode: nat, aa: nat, tc: nat, rd: nat, ra: nat, z: nat, rcode: nat)

  /** A message made of a header and one question. */
  datatype Query = Query(header: Header, labels: seq<string>, qtype: nat, qclass: nat)

  /** The powers of two that the flags layout uses. */
  lemma Pow2Values()
    ensures Pow2(0) == 1 && Pow2(1) == 2 && Pow2(3) == 8 && Pow2(4) == 16
    ensures Pow2(7) == 128 && Pow2(8) == 256 && Pow2(9) == 512 && Pow2(10) == 1024
    ensures Pow2(11) == 2048 && Pow2(15) == 32768
  {
    assert Pow2(4) == 16;
    assert Pow2(8) == 256;
    assert Pow2(11) == 2048;
  }

  /** Reads the fields of a flags word by shift and mask: QR is bit 15,
      Opcode bits 11-14, AA bit 10, TC bit 9, RD bit 8, RA bit 7, Z bits
      4-6 and RCODE bits 0-3. */
  function DecodeFlags(word: nat): (f: HeaderFlags)
    ensures f.qr < 2 && f.opcode < 16 && f.aa < 2 && f.tc < 2
    ensures f.rd < 2 && f.ra < 2 && f.z < 8 && f.rcode < 16
  {
    assert Pow2(1) == 2 && Pow2(3) == 8 && Pow2(4) == 16;
    HeaderFlags(Field(word, 15, 1), Field(word, 11, 4), Field(word, 10, 1), Field(word, 9, 1),
                Field(word, 8, 1), Field(word, 7, 1), Field(word, 4, 3), Field(word, 0, 4))
  }

  /** The header read big-endian from the first 12 octets, or `None` when
      the message is shorter. */
  function DecodeHeader(b: seq<byte>): (h: Option<Header>)
    ensures h.Some? <==> |b| >= 12
    ensures h.Some? ==> 0 <= h.value.id < 65536 && h.value.id == ReadU16(b[0], b[1])
  {
    if |b| < 12 then None
    else
      var v := PyStruct.UnpackShorts(b[..12], PyStruct.BigEndian);
      Some(Header(v[0], v[1], v[2], v[3], v[4], v[5]))
  }

  /** Reads a name from the front of `b`: a length octet of 1 to 63
      followed by that many octets, label after label, until a zero octet.
      Returns the labels and the number of octets read, or `None` when the
      octets run out or a length octet is 64 or more (compression pointers
      and reserved label types are outside this reader). */
  function DecodeLabels(b: seq<byte>): (r: Option<(seq<string>, nat)>)
    ensures r.Some? ==> 1 <= r.value.1 <= |b| && b[r.value.1 - 1] == 0
    decreases |b|
  {
    if b == [] then None
    else if b[0] == 0 then Some(([], 1))
    else if b[0] > 63 || |b| < 1 + b[0] then None
    else
      var rest := DecodeLabels(b[1 + b[0]..]);
      if rest.None? then None
      else Some(([PyStr.DecodeLatin1(b[1..1 + b[0]])] + rest.value.0, 1 + b[0] + rest.value.1))
  }

  /** Every label the reader returns holds 1 to 63 octets, and the octets
      it reads are the labels' octets, one length octet each, and the zero
      octet. */
  lemma {:induction false} DecodeLabelsLengths(b: seq<byte>)
    requires DecodeLabels(b).Some?
    ensures forall i :: 0 <= i < |DecodeLabels(b).value.0| ==> 1 <= |DecodeLabels(b).value.0[i]| <= 63
    ensures DecodeLabels(b).value.1 == LabelsSize(DecodeLabels(b).value.0) + 1
    decreases |b|
  {
    if b[0] != 0 {
      DecodeLabelsLengths(b[1 + b[0]..]);
    }
  }

  /** The octets a list of labels takes: a length octet and the characters of each. */
  function LabelsSize(labels: seq<string>): nat
  {
    if labels == [] then 0 else 1 + |labels[0]| + LabelsSize(labels[1..])
  }

  /** One step of the reader: a length octet of 1 to 63, that many
      octets, then the rest of the name. */
  lemma DecodeLabelsCons(b: seq<byte>, e: seq<byte>, rest: seq<byte>)
    requires b == [|e|] + e + rest
    requires 1 <= |e| <= 63 && DecodeLabels(rest).Some?
    ensures DecodeLabels(b).Some?
    ensures DecodeLabels(b).value.0 == [PyStr.DecodeLatin1(e)] + DecodeLabels(rest).value.0
    ensures DecodeLabels(b).value.1 == 1 + |e| + DecodeLabels(rest).value.1
  {
    assert b[1..1 + b[0]] == e;
    assert b[1 + b[0]..] == rest;
  }

  /** Reads a header, one question (name, QTYPE, QCLASS) and nothing more. */
  function ParseQuery(b: seq<byte>): (q: Option<Query>)
    ensures q.Some? ==> |b| >= 17 && q.value.header == DecodeHeader(b).value
  {
    if |b| < 12 then None
    else
      var name := DecodeLabels(b[12..]);
      if name.None? || |b| != 12 + name.value.1 + 4 then None
      else
        var question := PyStruct.UnpackShorts(b[12 + name.value.1..], PyStruct.BigEndian);
        Some(Query(DecodeHeader(b).value, name.value.0, question[0], question[1]))
  }

  /** What the question reader gives once the name has been read. */
  lemma ParseQueryParts(b: seq<byte>, n: nat)
    requires |b| == 12 + n + 4
    requires DecodeLabels(b[12..]).Some? && DecodeLabels(b[12..]).value.1 == n
    ensures ParseQuery(b).Some?
    ensures ParseQuery(b).value.header == DecodeHeader(b).value
    ensures ParseQuery(b).value.labels == DecodeLabels(b[12..]).value.0
    ensures ParseQuery(b).value.qtype == ReadU16(b[12 + n], b[13 + n])
    ensures ParseQuery(b).value.qclass == ReadU16(b[14 + n], b[15 + n])
  {
    var t := b[12 + n..];
    var v := PyStruct.UnpackShorts(t, PyStruct.BigEndian);
    assert t[2..] == [b[14 + n], b[15 + n]];
    assert v[1..] == PyStruct.UnpackShorts(t[2..], PyStruct.BigEndian);
  }
}
