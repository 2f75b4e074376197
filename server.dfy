/** The server side: one pass of the receive loop of app/main.py, which
    tries to answer the datagram it receives with a fixed 12-octet header;
    as written, the pack raises and the loop ends without a reply. The
    flags word is modelled as written, with the comparison `aa < 10` where the shift
    `aa << 10` was meant, and as intended; the header pack is modelled as
    written, with the byte-order character `!` at the end of the format
    where Python refuses it, and as intended, with `!` in front. */
module Server {
  import opened Wire
  import opened Bits
  import PyStruct
  import Message

  /** The fixed fields of the response. */
  const PACKET_ID: nat := 1234
  const QR: nat := 1
  const OPCODE: nat := 0
  const AA: nat := 0
  const TC: nat := 0
  const RD: nat := 0
  const RA: nat := 0
  const Z: nat := 0
  const RCODE: nat := 0
  const QDCOUNT: nat := 0
  const ANCOUNT: nat := 0
  const NSCOUNT: nat := 0
  const ARCOUNT: nat := 0

  /** The format the header is packed with, and the one that was meant. */
  const RESPONSE_FORMAT: string := "HHHHHH!"
  const INTENDED_FORMAT: string := "!HHHHHH"

  /** A Python `bool` taken as an operand of `|`: `True` is 1. */
  function BoolAsInt(b: bool): nat
  {
    if b then 1 else 0
  }

  /** The flags word as the server computes it: QR shifted to bit 15,
      Opcode to bit 11, then the truth value of `aa < 10`, TC to bit 9, RD
      to bit 8, RA to bit 7, Z to bit 4 and RCODE, or-ed left to right.
      Whenever `aa < 10` holds, bit 0 (the low bit of RCODE) is set. */
  function ResponseFlags(qr: nat, opcode: nat, aa: int, tc: nat, rd: nat, ra: nat, z: nat, rcode: nat): (r: nat)
    ensures aa < 10 ==> r % 2 == 1
    ensures rcode <= r
  {
    Or(Or(Or(Or(Or(Or(Or(ShiftLeft(qr, 15), ShiftLeft(opcode, 11)), BoolAsInt(aa < 10)),
       ShiftLeft(tc, 9)), ShiftLeft(rd, 8)), ShiftLeft(ra, 7)), ShiftLeft(z, 4)), rcode)
  }

  /** The flags word with AA shifted to bit 10, as the header layout of
      section 4.1.1 of RFC 1035 has it. Bit 0 is the low bit of RCODE
      alone. */
  function EncodeFlags(f: Message.HeaderFlags): (r: nat)
    ensures r % 2 == f.rcode % 2
    ensures f.rcode <= r
  {
    Or(Or(Or(Or(Or(Or(Or(ShiftLeft(f.qr, 15), ShiftLeft(f.opcode, 11)), ShiftLeft(f.aa, 10)),
       ShiftLeft(f.tc, 9)), ShiftLeft(f.rd, 8)), ShiftLeft(f.ra, 7)), ShiftLeft(f.z, 4)), f.rcode)
  }

  /** Every field fits its width: one bit for QR, AA, TC, RD and RA, four
      for Opcode and RCODE, three for Z. */
  predicate InRange(f: Message.HeaderFlags)
  {
    f.qr < 2 && f.opcode < 16 && f.aa < 2 && f.tc < 2 && f.rd < 2 && f.ra < 2 && f.z < 8 && f.rcode < 16
  }

  /** The flags word laid out as a sum of the fields times their bit weights. */
  function FlagsSum(f: Message.HeaderFlags): nat
  {
    f.qr * 32768 + f.opcode * 2048 + f.aa * 1024 + f.tc * 512 + f.rd * 256 + f.ra * 128 + f.z * 16 + f.rcode
  }

  /** With fields in range no two of them share a bit, so or-ing them is
      adding them. */
  lemma EncodeFlagsSum(f: Message.HeaderFlags)
    requires InRange(f)
    ensures EncodeFlags(f) == FlagsSum(f)
  {
    Message.Pow2Values();
    var x1 := Or(ShiftLeft(f.qr, 15), ShiftLeft(f.opcode, 11));
    assert x1 == f.qr * 32768 + f.opcode * 2048 by {
      OrAt(f.qr * 32768, f.qr, f.opcode * 2048, 15);
    }
    var x2 := Or(x1, ShiftLeft(f.aa, 10));
    assert x2 == x1 + f.aa * 1024 by {
      OrAt(x1, f.qr * 16 + f.opcode, f.aa * 1024, 11);
    }
    var x3 := Or(x2, ShiftLeft(f.tc, 9));
    assert x3 == x2 + f.tc * 512 by {
      OrAt(x2, f.qr * 32 + f.opcode * 2 + f.aa, f.tc * 512, 10);
    }
    var x4 := Or(x3, ShiftLeft(f.rd, 8));
    assert x4 == x3 + f.rd * 256 by {
      OrAt(x3, f.qr * 64 + f.opcode * 4 + f.aa * 2 + f.tc, f.rd * 256, 9);
    }
    var x5 := Or(x4, ShiftLeft(f.ra, 7));
    assert x5 == x4 + f.ra * 128 by {
      OrAt(x4, f.qr * 128 + f.opcode * 8 + f.aa * 4 + f.tc * 2 + f.rd, f.ra * 128, 8);
    }
    var x6 := Or(x5, ShiftLeft(f.z, 4));
    assert x6 == x5 + f.z * 16 by {
      OrAt(x5, f.qr * 256 + f.opcode * 16 + f.aa * 8 + f.tc * 4 + f.rd * 2 + f.ra, f.z * 16, 7);
    }
    assert Or(x6, f.rcode) == x6 + f.rcode by {
      OrAt(x6, f.qr * 2048 + f.opcode * 128 + f.aa * 64 + f.tc * 32 + f.rd * 16 + f.ra * 8 + f.z, f.rcode, 4);
    }
  }

  /** Shift and mask read every field back from the sum. */
  lemma DecodeFlagsSum(f: Message.HeaderFlags)
    requires InRange(f)
    ensures Message.DecodeFlags(FlagsSum(f)) == f
  {
    Message.Pow2Values();
    var w := FlagsSum(f);
    FieldAt(w, 0, f.qr, w - f.qr * 32768, 15, 1);
    FieldAt(w, f.qr, f.opcode, w - f.qr * 32768 - f.opcode * 2048, 11, 4);
    FieldAt(w, f.qr * 16 + f.opcode, f.aa, w - (f.qr * 32 + f.opcode * 2 + f.aa) * 1024, 10, 1);
    FieldAt(w, f.qr * 32 + f.opcode * 2 + f.aa, f.tc,
            w - (f.qr * 64 + f.opcode * 4 + f.aa * 2 + f.tc) * 512, 9, 1);
    FieldAt(w, f.qr * 64 + f.opcode * 4 + f.aa * 2 + f.tc, f.rd,
            w - (f.qr * 128 + f.opcode * 8 + f.aa * 4 + f.tc * 2 + f.rd) * 256, 8, 1);
    FieldAt(w, f.qr * 128 + f.opcode * 8 + f.aa * 4 + f.tc * 2 + f.rd, f.ra, f.z * 16 + f.rcode, 7, 1);
    FieldAt(w, f.qr * 256 + f.opcode * 16 + f.aa * 8 + f.tc * 4 + f.rd * 2 + f.ra, f.z, f.rcode, 4, 3);
    FieldAt(w, f.qr * 2048 + f.opcode * 128 + f.aa * 64 + f.tc * 32 + f.rd * 16 + f.ra * 8 + f.z,
            f.rcode, 0, 0, 4);
  }

  /** Round trip: the intended flags word fits in 16 bits and the reader of
      section 4.1.1 of RFC 1035 gives back every field, AA included. */
  lemma EncodeFlagsRoundTrip(f: Message.HeaderFlags)
    requires InRange(f)
    ensures EncodeFlags(f) < 65536
    ensures Message.DecodeFlags(EncodeFlags(f)) == f
  {
    EncodeFlagsSum(f);
    DecodeFlagsSum(f);
  }

  /** RCODE with bit 0 forced on when `low` holds, as `| (aa < 10)` leaves it. */
  function WithLowBit(rcode: nat, low: bool): (r: nat)
    ensures rcode < 16 ==> r < 16
  {
    if low then rcode + 1 - rcode % 2 else rcode
  }

  /** The word the server computes is the intended word with AA cleared
      and with bit 0 set when `aa < 10`: the comparison lands on the low
      bit of RCODE and never reaches bit 10. */
  lemma ResponseFlagsAsWritten(qr: nat, opcode: nat, aa: int, tc: nat, rd: nat, ra: nat, z: nat, rcode: nat)
    requires InRange(Message.HeaderFlags(qr, opcode, 0, tc, rd, ra, z, rcode))
    ensures ResponseFlags(qr, opcode, aa, tc, rd, ra, z, rcode)
            == EncodeFlags(Message.HeaderFlags(qr, opcode, 0, tc, rd, ra, z,
                                               WithLowBit(rcode, aa < 10)))
  {
    var b := BoolAsInt(aa < 10);
    var x0 := Or(ShiftLeft(qr, 15), ShiftLeft(opcode, 11));
    var t, d, a, zz := ShiftLeft(tc, 9), ShiftLeft(rd, 8), ShiftLeft(ra, 7), ShiftLeft(z, 4);
    var y := Or(Or(Or(Or(Or(x0, t), d), a), zz), rcode);
    assert ResponseFlags(qr, opcode, aa, tc, rd, ra, z, rcode) == Or(y, b) by {
      OrSwap(x0, b, t);
      OrSwap(Or(x0, t), b, d);
      OrSwap(Or(Or(x0, t), d), b, a);
      OrSwap(Or(Or(Or(x0, t), d), a), b, zz);
      OrSwap(Or(Or(Or(Or(x0, t), d), a), zz), b, rcode);
    }
    var f := Message.HeaderFlags(qr, opcode, 0, tc, rd, ra, z, rcode);
    assert y == FlagsSum(f) by {
      assert ShiftLeft(0, 10) == 0;
      OrZero(x0);
      EncodeFlagsSum(f);
    }
    var g := Message.HeaderFlags(qr, opcode, 0, tc, rd, ra, z,
                                 WithLowBit(rcode, aa < 10));
    assert EncodeFlags(g) == FlagsSum(g) by {
      EncodeFlagsSum(g);
    }
    if aa < 10 {
      var k := qr * 16384 + opcode * 1024 + tc * 256 + rd * 128 + ra * 64 + z * 8 + rcode / 2;
      OrOneAt(y, k, rcode % 2);
    } else {
      OrZero(y);
    }
  }

  /** What a receiver reads in the word the server computes: QR, Opcode,
      TC, RD, RA and Z where they belong, AA always 0 whatever `aa` is, and
      RCODE with its low bit or-ed with `aa < 10`. */
  lemma ResponseFlagsFields(qr: nat, opcode: nat, aa: int, tc: nat, rd: nat, ra: nat, z: nat, rcode: nat)
    requires InRange(Message.HeaderFlags(qr, opcode, 0, tc, rd, ra, z, rcode))
    ensures ResponseFlags(qr, opcode, aa, tc, rd, ra, z, rcode) < 65536
    ensures Message.DecodeFlags(ResponseFlags(qr, opcode, aa, tc, rd, ra, z, rcode))
            == Message.HeaderFlags(qr, opcode, 0, tc, rd, ra, z,
                                   WithLowBit(rcode, aa < 10))
  {
    var g := Message.HeaderFlags(qr, opcode, 0, tc, rd, ra, z, WithLowBit(rcode, aa < 10));
    assert ResponseFlags(qr, opcode, aa, tc, rd, ra, z, rcode) == EncodeFlags(g) by {
      ResponseFlagsAsWritten(qr, opcode, aa, tc, rd, ra, z, rcode);
    }
    EncodeFlagsRoundTrip(g);
  }

  /** With the server's constants the word is 0x8001: a response (QR 1)
      whose RCODE reads 1, a format error, instead of 0. */
  lemma ServerFlagsAsWritten()
    ensures ResponseFlags(QR, OPCODE, AA, TC, RD, RA, Z, RCODE) == 0x8001
    ensures Message.DecodeFlags(ResponseFlags(QR, OPCODE, AA, TC, RD, RA, Z, RCODE))
            == Message.HeaderFlags(1, 0, 0, 0, 0, 0, 0, 1)
  {
    Message.Pow2Values();
    OrOne(32768);
  }

  /** The fields the server meant to send: a response (QR 1), every other
      field 0. */
  const SERVER_FLAGS: Message.HeaderFlags := Message.HeaderFlags(QR, OPCODE, 0, TC, RD, RA, Z, RCODE)

  /** As intended, the server's word is 0x8000. */
  lemma ServerFlagsIntended()
    ensures EncodeFlags(SERVER_FLAGS) == 0x8000
    ensures Message.DecodeFlags(EncodeFlags(SERVER_FLAGS)) == Message.HeaderFlags(1, 0, 0, 0, 0, 0, 0, 0)
  {
    EncodeFlagsSum(SERVER_FLAGS);
    EncodeFlagsRoundTrip(SERVER_FLAGS);
  }

  /** The values the header is packed from: the id, the flags word and the
      four zero counts. */
  function HeaderValues(flags: int): seq<int>
  {
    [PACKET_ID, flags, QDCOUNT, ANCOUNT, NSCOUNT, ARCOUNT]
  }

  /** The twelve octets of the response header: id 1234 (`04 D2`), the
      flags word big-endian and four zero counts. */
  function ResponseOctets(flags: int): seq<byte>
    requires 0 <= flags < 65536
  {
    [0x04, 0xD2, flags / 256, flags % 256, 0, 0, 0, 0, 0, 0, 0, 0]
  }

  /** `struct.pack("HHHHHH!", ...)` as written; `host` is the byte order of
      the machine, which a format without a leading order character uses.
      Any header it produced would hold 12 octets. */
  function ResponseHeader(host: PyStruct.ByteOrder): (r: Result<seq<byte>, PyStruct.StructError>)
    ensures r.Ok? ==> |r.value| == 12
  {
    FormatsSupported();
    PyStruct.Pack(RESPONSE_FORMAT, HeaderValues(ResponseFlags(QR, OPCODE, AA, TC, RD, RA, Z, RCODE)), host)
  }

  /** Both formats use only byte-order characters and `H` codes. */
  lemma FormatsSupported()
    ensures PyStruct.Supported(RESPONSE_FORMAT) && PyStruct.Supported(INTENDED_FORMAT)
  {
  }

  /** The pack always raises, on every machine: the `!` after the six `H`
      codes is a bad character, since Python reads a byte-order character
      only in first position. No header is ever produced. */
  lemma ResponseHeaderFails(host: PyStruct.ByteOrder)
    ensures ResponseHeader(host).Err?
    ensures ResponseHeader(host).error == PyStruct.BadChar('!')
  {
    var values := HeaderValues(ResponseFlags(QR, OPCODE, AA, TC, RD, RA, Z, RCODE));
    assert PyStruct.PrefixLength(RESPONSE_FORMAT) == 0;
    assert RESPONSE_FORMAT[0..] == RESPONSE_FORMAT;
    assert PyStruct.CountCodes("!").error == PyStruct.BadChar('!');
    assert RESPONSE_FORMAT[1..] == "HHHHH!" && "HHHHH!"[1..] == "HHHH!" && "HHHH!"[1..] == "HHH!";
    assert "HHH!"[1..] == "HH!" && "HH!"[1..] == "H!" && "H!"[1..] == "!";
  }

  /** The six header values packed big-endian. */
  lemma HeaderShorts(flags: int)
    requires 0 <= flags < 65536
    ensures PyStruct.PackShorts(HeaderValues(flags), PyStruct.BigEndian).Ok?
    ensures PyStruct.PackShorts(HeaderValues(flags), PyStruct.BigEndian).value
            == ResponseOctets(flags)
  {
    assert PyStruct.PackShorts([0], PyStruct.BigEndian).value == [0, 0];
    assert PyStruct.PackShorts([0, 0], PyStruct.BigEndian).value == [0, 0, 0, 0];
    assert PyStruct.PackShorts([0, 0, 0], PyStruct.BigEndian).value == [0, 0, 0, 0, 0, 0];
    assert PyStruct.PackShorts([0, 0, 0, 0], PyStruct.BigEndian).value == [0, 0, 0, 0, 0, 0, 0, 0];
    assert PyStruct.PackShorts([flags, 0, 0, 0, 0], PyStruct.BigEndian).value
        == [flags / 256, flags % 256, 0, 0, 0, 0, 0, 0, 0, 0];
  }

  /** Packing the header with a `!` in front: big-endian whatever the
      machine, the id, the flags word and four zero counts. */
  lemma HeaderPack(flags: int, host: PyStruct.ByteOrder)
    requires 0 <= flags < 65536
    ensures PyStruct.Pack(INTENDED_FORMAT, HeaderValues(flags), host).Ok?
    ensures PyStruct.Pack(INTENDED_FORMAT, HeaderValues(flags), host).value
            == ResponseOctets(flags)
  {
    PyStruct.PackPrefixed(INTENDED_FORMAT, HeaderValues(flags), host);
    HeaderShorts(flags);
  }

  /** The RFC 1035 reader finds the id, the flags word and four zero counts
      in those octets. */
  lemma HeaderRead(flags: int)
    requires 0 <= flags < 65536
    ensures Message.DecodeHeader(ResponseOctets(flags))
            == Some(Message.Header(PACKET_ID, flags, 0, 0, 0, 0))
  {
    var b := ResponseOctets(flags);
    assert PyStruct.UnpackShorts(b, PyStruct.BigEndian) == HeaderValues(flags) by {
      HeaderShorts(flags);
      PyStruct.PackShortsRoundTrip(HeaderValues(flags), PyStruct.BigEndian);
    }
    assert b[..12] == b;
  }

  /** The header packed as intended: the flags word with the AA shift,
      packed with `!` in front; a header it produces holds 12 octets. */
  function IntendedResponseHeader(f: Message.HeaderFlags, host: PyStruct.ByteOrder): (r: Result<seq<byte>, PyStruct.StructError>)
    ensures r.Ok? ==> |r.value| == 12
  {
    FormatsSupported();
    PyStruct.Pack(INTENDED_FORMAT, HeaderValues(EncodeFlags(f)), host)
  }

  /** For any fields in range the intended header is 12 octets, the same on
      every machine, and the RFC 1035 reader finds id 1234, the flags word,
      zero counts, and in the flags word every field back. */
  lemma IntendedResponseHeaderLayout(f: Message.HeaderFlags, host: PyStruct.ByteOrder)
    requires InRange(f)
    ensures EncodeFlags(f) < 65536
    ensures IntendedResponseHeader(f, host).Ok?
    ensures IntendedResponseHeader(f, host).value
            == ResponseOctets(EncodeFlags(f))
    ensures Message.DecodeHeader(IntendedResponseHeader(f, host).value)
            == Some(Message.Header(PACKET_ID, EncodeFlags(f), 0, 0, 0, 0))
    ensures Message.DecodeFlags(Message.DecodeHeader(IntendedResponseHeader(f, host).value).value.flags) == f
  {
    EncodeFlagsRoundTrip(f);
    HeaderPack(EncodeFlags(f), host);
    HeaderRead(EncodeFlags(f));
  }

  /** What one pass of the receive loop does with a datagram: send a
      reply, or leave the loop after the exception is caught. */
  datatype Step = Reply(response: seq<byte>) | Stop(error: PyStruct.StructError)

  /** One pass of the loop as written. The received octets are not read;
      a reply, if one were sent, would be a 12-octet header. */
  function HandleDatagram(buf: seq<byte>, host: PyStruct.ByteOrder): (r: Step)
    ensures r.Reply? ==> |r.response| == 12
  {
    match ResponseHeader(host)
    case Ok(response) => Reply(response)
    case Err(e) => Stop(e)
  }

  /** The first datagram, whatever it holds, ends the loop without a reply. */
  lemma HandleDatagramStops(buf: seq<byte>, host: PyStruct.ByteOrder)
    ensures HandleDatagram(buf, host).Stop?
    ensures HandleDatagram(buf, host).error == PyStruct.BadChar('!')
  {
    ResponseHeaderFails(host);
  }

  /** One pass of the loop as intended, answering with header fields `f`;
      the server's own fields are `SERVER_FLAGS`. A reply is a 12-octet
      header. */
  function IntendedHandleDatagram(buf: seq<byte>, f: Message.HeaderFlags, host: PyStruct.ByteOrder): (r: Step)
    ensures r.Reply? ==> |r.response| == 12
  {
    match IntendedResponseHeader(f, host)
    case Ok(response) => Reply(response)
    case Err(e) => Stop(e)
  }

  /** As intended, every datagram gets a reply, the same whatever the
      datagram holds and whatever the machine, and the RFC 1035 reader finds
      in it id 1234, zero counts and the fields `f`. */
  lemma IntendedHandleDatagramReplies(buf: seq<byte>, f: Message.HeaderFlags, host: PyStruct.ByteOrder)
    requires InRange(f)
    ensures IntendedHandleDatagram(buf, f, host).Reply?
    ensures IntendedHandleDatagram(buf, f, host) == IntendedHandleDatagram([], f, PyStruct.BigEndian)
    ensures Message.DecodeHeader(IntendedHandleDatagram(buf, f, host).response)
            == Some(Message.Header(PACKET_ID, EncodeFlags(f), 0, 0, 0, 0))
    ensures Message.DecodeFlags(Message.DecodeHeader(IntendedHandleDatagram(buf, f, host).response).value.flags) == f
  {
    IntendedResponseHeaderLayout(f, host);
    IntendedResponseHeaderLayout(f, PyStruct.BigEndian);
  }
}
