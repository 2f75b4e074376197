/** The part of Python's `struct.pack` that the client and the server call:
    a format made of an optional byte-order character followed by `H`
    codes (unsigned 16-bit integers, two octets each). */
module PyStruct {
  import opened Wire

  datatype ByteOrder = BigEndian | LittleEndian

  /** The `struct.error` that `struct.pack` raises. */
  datatype StructError =
    | BadChar(c: char)                     // "bad char in struct format"
    | WrongCount(expected: nat, got: nat)  // "pack expected N items for packing (got M)"
    | OutOfRange(value: int)               // "ushort format requires 0 <= number <= 65535"

  predicate IsOrderChar(c: char)
  {
    c == '@' || c == '=' || c == '<' || c == '>' || c == '!'
  }

  /** The format characters this model covers: the byte-order characters and `H`. */
  predicate Supported(fmt: string)
  {
    forall i :: 0 <= i < |fmt| ==> IsOrderChar(fmt[i]) || fmt[i] == 'H'
  }

  /** Python honours a byte-order character only in first position. */
  function PrefixLength(fmt: string): (n: nat)
    ensures n <= |fmt|
  {
    if fmt != [] && IsOrderChar(fmt[0]) then 1 else 0
  }

  /** `@` and `=` use the host's order, `<` is little-endian, `>` and `!` big-endian. */
  function OrderOf(fmt: string, host: ByteOrder): ByteOrder
  {
    if PrefixLength(fmt) == 0 then host
    else if fmt[0] == '<' then LittleEndian
    else if fmt[0] == '>' || fmt[0] == '!' then BigEndian
    else host
  }

  /** Reads the codes after the prefix: every one must be `H`; the first
      other character is reported. */
  function CountCodes(codes: string): (r: Result<nat, StructError>)
    ensures r.Ok? <==> forall i :: 0 <= i < |codes| ==> codes[i] == 'H'
    ensures r.Ok? ==> r.value == |codes|
    ensures r.Err? ==> r.error.BadChar? && r.error.c in codes && r.error.c != 'H'
  {
    if codes == [] then Ok(0)
    else if codes[0] != 'H' then Err(BadChar(codes[0]))
    else match CountCodes(codes[1..])
      case Ok(n) => Ok(n + 1)
      case Err(e) => Err(e)
  }

  /** One 16-bit value as two octets in the given order. */
  function Short(v: int, order: ByteOrder): seq<byte>
    requires 0 <= v < 65536
  {
    if order == BigEndian then [v / 256, v % 256] else [v % 256, v / 256]
  }

  /** The values packed one after the other; the first value outside
      0..65535 raises. A packed run has two octets per value; the only
      error is a value out of range. */
  function PackShorts(values: seq<int>, order: ByteOrder): (r: Result<seq<byte>, StructError>)
    ensures r.Ok? ==> |r.value| == 2 * |values|
    ensures r.Err? ==> r.error.OutOfRange? && r.error.value in values && !(0 <= r.error.value < 65536)
  {
    if values == [] then Ok([])
    else if !(0 <= values[0] < 65536) then Err(OutOfRange(values[0]))
    else match PackShorts(values[1..], order)
      case Err(e) => Err(e)
      case Ok(rest) => Ok(Short(values[0], order) + rest)
  }

  /** `struct.pack(fmt, *values)`: the format is read first, then the
      number of values is checked, then each value's range. `host` is the
      byte order of the machine, used by the `@` and `=` prefixes and by a
      format without a prefix. A packed result has two octets per value;
      a count mismatch reports the number of values given. */
  function Pack(fmt: string, values: seq<int>, host: ByteOrder): (r: Result<seq<byte>, StructError>)
    requires Supported(fmt)
    ensures r.Ok? ==> |r.value| == 2 * |values|
    ensures r.Err? && r.error.BadChar? ==> r.error.c in fmt && r.error.c != 'H'
    ensures r.Err? && r.error.WrongCount? ==> r.error.got == |values| != r.error.expected
  {
    match CountCodes(fmt[PrefixLength(fmt)..])
    case Err(e) => Err(e)
    case Ok(n) =>
      if n != |values| then Err(WrongCount(n, |values|))
      else PackShorts(values, OrderOf(fmt, host))
  }

  /** `struct.unpack` of a run of `H` codes: the partner of `PackShorts`. */
  function UnpackShorts(b: seq<byte>, order: ByteOrder): (values: seq<int>)
    requires |b| % 2 == 0
    ensures |values| == |b| / 2
    ensures forall i :: 0 <= i < |values| ==> 0 <= values[i] < 65536
  {
    if b == [] then []
    else
      [if order == BigEndian then ReadU16(b[0], b[1]) else ReadU16(b[1], b[0])]
      + UnpackShorts(b[2..], order)
  }

  /** Every value fits in an unsigned 16-bit field. */
  predicate AllShorts(values: seq<int>)
  {
    forall i :: 0 <= i < |values| ==> 0 <= values[i] < 65536
  }

  /** Packing succeeds exactly when every value is in range; otherwise it
      reports a value that is not. */
  lemma {:induction false} PackShortsOutcome(values: seq<int>, order: ByteOrder)
    ensures PackShorts(values, order).Ok? <==> AllShorts(values)
    ensures PackShorts(values, order).Err? ==>
              exists i :: 0 <= i < |values| && !(0 <= values[i] < 65536)
                       && PackShorts(values, order).error == OutOfRange(values[i])
  {
    if values != [] && 0 <= values[0] < 65536 {
      var tail := values[1..];
      PackShortsOutcome(tail, order);
      assert forall i :: 1 <= i < |values| ==> values[i] == tail[i - 1];
      if PackShorts(tail, order).Err? {
        var i :| 0 <= i < |tail| && !(0 <= tail[i] < 65536)
                 && PackShorts(tail, order).error == OutOfRange(tail[i]);
        assert values[i + 1] == tail[i];
      }
    }
  }

  /** What packing yields is two octets per value, and unpacking it gives
      the values back. */
  lemma {:induction false} PackShortsRoundTrip(values: seq<int>, order: ByteOrder)
    requires PackShorts(values, order).Ok?
    ensures |PackShorts(values, order).value| == 2 * |values|
    ensures UnpackShorts(PackShorts(values, order).value, order) == values
  {
    if values != [] {
      var tail := values[1..];
      PackShortsRoundTrip(tail, order);
      var b := PackShorts(values, order).value;
      var rest := PackShorts(tail, order).value;
      assert b == Short(values[0], order) + rest;
      assert b[2..] == rest;
      assert [values[0]] + tail == values;
    }
  }

  /** The other direction of the round trip: any even run of octets is the
      packing of what it unpacks to. */
  lemma {:induction false} UnpackThenPack(b: seq<byte>, order: ByteOrder)
    requires |b| % 2 == 0
    ensures PackShorts(UnpackShorts(b, order), order).Ok?
    ensures PackShorts(UnpackShorts(b, order), order).value == b
  {
    if b != [] {
      var rest := b[2..];
      UnpackThenPack(rest, order);
      var vs := UnpackShorts(b, order);
      assert vs[1..] == UnpackShorts(rest, order);
      assert Short(vs[0], order) == b[..2] by {
        ShortOfRead(b[0], b[1], order);
      }
      assert b == b[..2] + rest;
    }
  }

  /** The two octets read in an order are written back in that order. */
  lemma ShortOfRead(x: byte, y: byte, order: ByteOrder)
    ensures order == BigEndian ==> Short(ReadU16(x, y), order) == [x, y]
    ensures order == LittleEndian ==> Short(ReadU16(y, x), order) == [x, y]
  {
  }

  /** The codes after the prefix are read without error exactly when
      every one of them is `H`, and then there are as many as the format
      has characters after the prefix. */
  lemma CodesAfterPrefix(fmt: string)
    ensures CountCodes(fmt[PrefixLength(fmt)..]).Ok? <==>
              forall i :: PrefixLength(fmt) <= i < |fmt| ==> fmt[i] == 'H'
    ensures CountCodes(fmt[PrefixLength(fmt)..]).Ok? ==>
              CountCodes(fmt[PrefixLength(fmt)..]).value == |fmt| - PrefixLength(fmt)
  {
    var p := PrefixLength(fmt);
    var codes := fmt[p..];
    assert forall i :: p <= i < |fmt| ==> fmt[i] == codes[i - p];
    assert forall i :: 0 <= i < |codes| ==> codes[i] == fmt[i + p];
  }

  /** A format of one leading byte-order character and one `H` per value
      packs the values in that character's order. */
  lemma PackPrefixed(fmt: string, values: seq<int>, host: ByteOrder)
    requires |fmt| == |values| + 1 && IsOrderChar(fmt[0])
    requires forall i :: 1 <= i < |fmt| ==> fmt[i] == 'H'
    ensures Supported(fmt)
    ensures Pack(fmt, values, host) == PackShorts(values, OrderOf(fmt, host))
  {
    CodesAfterPrefix(fmt);
  }

  /** What `struct.pack` does with a format of this model: a character
      other than `H` after the prefix (a byte-order character out of first
      position among them) raises before anything else is looked at; then a
      wrong number of values raises; then the first value out of range. On
      success the result is two octets per value and unpacks to the values. */
  lemma PackOutcome(fmt: string, values: seq<int>, host: ByteOrder)
    requires Supported(fmt)
    ensures (exists i :: PrefixLength(fmt) <= i < |fmt| && fmt[i] != 'H') ==>
              Pack(fmt, values, host).Err? && Pack(fmt, values, host).error.BadChar?
    ensures (forall i :: PrefixLength(fmt) <= i < |fmt| ==> fmt[i] == 'H') ==>
              if |fmt| - PrefixLength(fmt) != |values| then
                Pack(fmt, values, host) == Err(WrongCount(|fmt| - PrefixLength(fmt), |values|))
              else
                Pack(fmt, values, host) == PackShorts(values, OrderOf(fmt, host))
    ensures Pack(fmt, values, host).Ok? <==>
              (forall i :: PrefixLength(fmt) <= i < |fmt| ==> fmt[i] == 'H')
              && |fmt| - PrefixLength(fmt) == |values|
              && (forall i :: 0 <= i < |values| ==> 0 <= values[i] < 65536)
    ensures Pack(fmt, values, host).Ok? ==>
              |Pack(fmt, values, host).value| == 2 * |values|
              && UnpackShorts(Pack(fmt, values, host).value, OrderOf(fmt, host)) == values
  {
    CodesAfterPrefix(fmt);
    var order := OrderOf(fmt, host);
    PackShortsOutcome(values, order);
    if PackShorts(values, order).Ok? {
      PackShortsRoundTrip(values, order);
    }
  }
}
