# DNS query builder and response header, modelled in Dafny

This project models the two pieces of DNS wire-format code in the
repository:

- the client's name encoder and query builder (`encode_domain_name` and
  `build_dns_query` in app/tester.py);
- the server's response header (the flags word and the header pack in
  app/main.py).

The client splits a dotted name and writes each part as a length octet
followed by its ASCII octets, then a zero octet. It then packs a 12-octet
big-endian header in front (id, flags `01 00`, QDCOUNT 1, three zero
counts) and appends QTYPE 1 and QCLASS 1. Both packs use the `!`
prefix, so the query is the same on every machine.

The server reads a datagram and tries to answer it with a fixed header:
id 1234, a flags word built from eight header fields, and zero counts.
The pack of that header raises, the handler leaves the loop, and no
datagram is ever answered. The code parses no incoming query, follows no
compression pointer, has no local table and does no forwarding.

Modules:

- `Wire`: octets, and `Result`/`Option` standing for Python's return-or-raise.
- `Bits`: Python's `<<` and `|` on non-negative integers, and field extraction.
- `PyStr`: `str.split` with an explicit separator, `str.join`,
  `str.encode('ascii')`, and the Latin-1 reading of octets.
- `PyStruct`: `struct.pack` for formats made of a byte-order character
  and `H` codes, and the matching `unpack`.
- `Message`: reference readers for the layout of RFC 1035. They cover the
  header and flags of section 4.1.1, the labels of section 3.1 and the
  question of section 4.1.2. The writers are proved against them.
- `Tester`: app/tester.py. `encode_domain_name` is an imperative method
  with a `for` loop, proved against the function `EncodedName`.
  `build_dns_query` is a function.
- `Server`: app/main.py. The flags word and the header pack are each
  modelled twice: once as written and once as evidently intended.

## Model

| member | source | states |
|---|---|---|
| Tester.EncodeLabel | app/tester.py:41 | A label is the length octet, then one octet per character equal to its code. It is produced exactly for parts under 256 characters that are ASCII, and `LabelTooLong` is raised exactly for parts of 256 characters or more. EncodedPartsStep states how it feeds the loop. |
| Tester.EncodedParts | app/tester.py:39-41 | The accumulator after the loop holds at least one octet per part. EncodedPartsSucceed, EncodedPartsFail and EncodedPartsOutcome state its value and its error. |
| Tester.EncodedName | app/tester.py:37-43 | A returned name has more octets than there are parts, and ends with the zero octet. EncodedNameOutcome, EncodedNameLayout and NameRoundTrip state when it returns, its layout and how it reads back. |
| Tester.EncodeDomainName | app/tester.py:37-43 | The loop returns exactly what `EncodedName` gives: the accumulated labels plus a zero octet, or the exception of the first part that fails. |
| Tester.FailureSticks | app/tester.py:40-41 | Once a part has raised, the parts after it do not change the outcome. |
| Tester.EncodedPartsStep | app/tester.py:40-41 | One loop turn keeps an earlier error, appends `[len] + ascii` for an encodable part, and otherwise raises that part's error. |
| Tester.EncodedPartsSucceed | app/tester.py:39-41 | When every part is under 256 characters and ASCII, the loop succeeds with the parts' labels front to back. |
| Tester.EncodedPartsFail | app/tester.py:39-41 | When some part is not encodable, the loop raises the error of the first such part, and all earlier parts are encodable. |
| Tester.EncodedPartsOutcome | app/tester.py:39-41 | The loop succeeds if and only if every part is encodable; the success value and the error are as in the two lemmas above. |
| Tester.EncodedNameOutcome | app/tester.py:37-43 | `encode_domain_name` returns if and only if every part of `split('.')` is encodable. Otherwise it raises the first failing part's error: `LabelTooLong` for 256+ characters (checked first), else `NonAsciiLabel`. |
| Tester.EncodedNameLayout | app/tester.py:38-42 | The output length is the sum of 1 + len(part) over the parts, plus 1. The last octet is 0. Each part sits at its offset as one length octet and its character codes, in input order. |
| Tester.FlatDecodes | app/tester.py:40-42 | The RFC 1035 label reader reads the encoded labels back exactly, with any trailing octets left alone, when each label has 1 to 63 ASCII characters. |
| Tester.NameRoundTrip | app/tester.py:37-43 | For 1 to 63-character ASCII labels without dots, encoding their dotted join succeeds and the label reader recovers the label list. It consumes exactly the encoded octets. |
| Tester.EmptyNameExample | app/tester.py:38-42 | `""` encodes to `00 00`: the empty name is one empty label. |
| Tester.EmptyNameRead | app/tester.py:42 | The RFC 1035 reader stops at the first zero octet of `00 00` with no labels, after one octet. |
| Tester.TrailingDotExample | app/tester.py:38-42 | For any ASCII character c other than a dot, `c + "."` encodes to `01 c 00 00` (`"a."` gives `01 61 00 00`): the trailing dot gives an empty label. |
| Tester.LeadingDotExample | app/tester.py:38-42 | For any ASCII character c other than a dot, `"." + c` encodes to `00 01 c 00`: the leading dot gives an empty label. |
| Tester.LongLabelAccepted | app/tester.py:41 | A dot-free ASCII part of 64 to 255 characters is accepted and written with its length octet. The RFC 1035 reader rejects the result. |
| Tester.BuildDnsQuery | app/tester.py:26-35 | A built query comes from a name that encodes, and has 12 header octets, the encoded name and 4 more octets. BuildDnsQueryOutcome, BuildDnsQueryLayout, BuildDnsQueryAnyHost and QueryRoundTrip state when it is built, its octets, its independence of the machine and how it reads back. |
| Tester.BuildDnsQueryOutcome | app/tester.py:26-35 | The query is built if and only if the name encodes and 0 <= packet_id < 65536. The name error wins. Otherwise the pack raises `OutOfRange(packet_id)`. |
| Tester.QueryHeaderBytes | app/tester.py:28-34 | The header pack gives the id big-endian, then `01 00 00 01 00 00 00 00 00 00`. The question pack gives `00 01 00 01`. |
| Tester.BuildDnsQueryLayout | app/tester.py:33-35 | A built query is the 12 header octets, then the encoded name, then `00 01 00 01` (length 12 + len(name) + 4). |
| Tester.BuildDnsQueryAnyHost | app/tester.py:33-34 | The query, or the exception, is the same on every machine: the `!` prefix of both formats overrides the native byte order. |
| Tester.QueryFlagsFields | app/tester.py:28 | In the flags word `0x0100`, only RD is set: QR 0, Opcode 0, every other field 0. |
| Tester.QueryRoundTrip | app/tester.py:26-43 | For valid labels and a 16-bit id, the RFC 1035 query reader reads back the id, flags 0x0100, counts 1/0/0/0, the labels, QTYPE 1 and QCLASS 1, with nothing left over. |
| PyStr.Split | app/tester.py:38 | `split` returns at least one piece, and no piece holds the separator. |
| PyStr.JoinSplit | app/tester.py:38 | Joining the pieces gives the string back. There is one more piece than there are separators. |
| PyStr.SplitJoin | app/tester.py:38 | Splitting a join of separator-free pieces gives the pieces back. |
| PyStr.SplitFree | app/tester.py:38 | A string without the separator splits into itself alone. |
| PyStr.EncodeAscii | app/tester.py:41 | The ASCII encoding has one octet per character, equal to its code. |
| PyStr.AsciiRoundTrip | app/tester.py:41 | Reading the ASCII encoding back gives the string. |
| PyStruct.PackShorts | app/tester.py:33-34 | A packed run has two octets per value. Its only error is `OutOfRange` of a value in the list that lies outside 0..65535. PackShortsOutcome, PackShortsRoundTrip and UnpackThenPack state when it succeeds and that it is the inverse of the unpack. |
| PyStruct.Pack | app/main.py:40 | A packed result has two octets per value. A `BadChar` is a character of the format other than `H`, and a `WrongCount` reports the number of values given, which differs from the number of codes. PackPrefixed and PackOutcome state the whole outcome. |
| PyStruct.CountCodes | app/main.py:40 | Reading the codes succeeds if and only if every one is `H`, counting them. Otherwise it reports a non-`H` character of the codes as `BadChar`. |
| PyStruct.UnpackShorts | app/tester.py:33-34 | Unpacking gives one value per two octets, each below 65536. |
| PyStruct.PackShortsOutcome | app/tester.py:33 | Packing `H` values succeeds if and only if every value is in 0..65535. Otherwise it raises `OutOfRange` for an offending value. |
| PyStruct.PackShortsRoundTrip | app/tester.py:33-34 | A successful pack has two octets per value and unpacks to the values. |
| PyStruct.UnpackThenPack | app/tester.py:33-34 | Any even run of octets is the pack of what it unpacks to. |
| PyStruct.PackPrefixed | app/tester.py:33-34 | A format of one byte-order character and one `H` per value packs the values in that character's order. |
| PyStruct.PackOutcome | app/main.py:40 | `struct.pack` errors come in the order BadChar, then WrongCount, then OutOfRange. It succeeds if and only if the codes are all `H`, their count matches and all values fit. Success gives two octets per value, which unpack to the values. |
| Bits.Or | app/main.py:32 | Python's bitwise or is at least each operand and at most their sum, and has bit 0 set exactly when one operand has. OrZero, OrComm, OrAssoc, OrAddMultiple and OrOne state its algebra. |
| Bits.ShiftLeft | app/main.py:32 | `x << n` is at least `x`, and even when n is at least 1. EncodeFlagsSum states that the shifted fields add up to their weighted sum. |
| Bits.OrZero | app/main.py:32 | 0 is the identity of Python's bitwise or. |
| Bits.OrComm | app/main.py:32 | Python's bitwise or is commutative. |
| Bits.OrAssoc | app/main.py:32 | Python's bitwise or is associative. |
| Bits.OrAddMultiple | app/main.py:32 | Or-ing a multiple of 2^k with a value below 2^k adds them. |
| Bits.OrOne | app/main.py:32 | Or-ing with 1 sets bit 0 and leaves the other bits alone. |
| Bits.FieldOf | app/main.py:32 | Shift and mask recover a field placed at bit `lo` of width `w`. |
| Message.DecodeFlags | app/main.py:32 | The flags reader gives every field within its width (1, 4 or 3 bits). |
| Message.DecodeHeader | app/tester.py:33 | The header reader succeeds if and only if there are 12 octets, and the id is the big-endian first two octets. |
| Message.DecodeLabels | app/tester.py:40-42 | A name read by the reader ends on a zero octet within the input. |
| Message.DecodeLabelsLengths | app/tester.py:40-42 | Every label read has 1 to 63 octets, and the octets read are one length octet plus the characters per label, plus the zero octet. |
| Message.ParseQuery | app/tester.py:33-35 | A query read back holds at least 17 octets, and its header is the header reader's result. |
| Message.ParseQueryParts | app/tester.py:33-35 | Once the name is read, the query reader takes QTYPE and QCLASS big-endian from the last four octets. |
| Server.EncodeFlags | app/main.py:32 | The word as intended (`aa << 10`): bit 0 is the low bit of RCODE alone, and the word is at least RCODE. EncodeFlagsSum, EncodeFlagsRoundTrip and ServerFlagsIntended state the whole word and how it reads back. |
| Server.EncodeFlagsSum | app/main.py:32 | With fields in range, the intended or-chain of shifted fields equals their weighted sum: no two fields share a bit. |
| Server.DecodeFlagsSum | app/main.py:32 | Shift and mask read every field back from the weighted sum. |
| Server.EncodeFlagsRoundTrip | app/main.py:32 | With fields in range, the intended word is below 65536, and the RFC 1035 flags reader gives back all eight fields, AA included. |
| Server.ResponseFlags | app/main.py:32 | The word as written: whenever `aa < 10`, bit 0 (the low bit of RCODE) is set, and the word is at least `rcode`. ResponseFlagsAsWritten, ResponseFlagsFields and ServerFlagsAsWritten state the whole word. |
| Server.ResponseFlagsAsWritten | app/main.py:32 | The word as written equals the intended word with AA 0 and RCODE's bit 0 or-ed with `aa < 10`, for any `aa`. |
| Server.ResponseFlagsFields | app/main.py:32 | The word as written is below 65536. The reader finds QR, Opcode, TC, RD, RA and Z where they belong, AA always 0, and RCODE with bit 0 set when `aa < 10`. |
| Server.ServerFlagsAsWritten | app/main.py:23-32 | With the server's constants the word is 0x8001, which reads as QR 1 and RCODE 1. |
| Server.ServerFlagsIntended | app/main.py:23-32 | With the AA shift the server's word is 0x8000, which reads as QR 1 with every other field 0. |
| Server.ResponseHeader | app/main.py:40 | A header, if one were produced, would have 12 octets. ResponseHeaderFails states that none is: the pack raises `BadChar('!')`. |
| Server.ResponseHeaderFails | app/main.py:40 | Packing with `"HHHHHH!"` raises `BadChar('!')` on every machine; no header is produced. |
| Server.HeaderPack | app/main.py:40 | Packing with `"!HHHHHH"` gives `04 D2`, the flags word big-endian, and eight zero octets, whatever the machine. |
| Server.HeaderRead | app/main.py:20-40 | The header reader finds id 1234, the flags word and four zero counts in those octets. |
| Server.IntendedResponseHeader | app/main.py:40 | With `"!HHHHHH"` a produced header has 12 octets. IntendedResponseHeaderLayout states its octets and how it reads back. |
| Server.IntendedResponseHeaderLayout | app/main.py:20-40 | The intended header is those 12 octets. The reader finds id 1234, zero counts and, in the flags word, the fields it was built from. |
| Server.HandleDatagram | app/main.py:14-45 | A reply, if one were sent, would be 12 octets. HandleDatagramStops states that the pass always leaves the loop without a reply. |
| Server.HandleDatagramStops | app/main.py:40-45 | One pass of the receive loop as written stops on every datagram and machine with `BadChar('!')`, without sending a reply. |
| Server.IntendedHandleDatagram | app/main.py:14-45 | As intended, a reply is 12 octets. IntendedHandleDatagramReplies states that every datagram gets the same reply, which reads back as the header meant. |
| Server.IntendedHandleDatagramReplies | app/main.py:16-42 | As intended, every datagram gets a reply. The reply is the same whatever the datagram and the machine, and it reads as id 1234, zero counts and the given fields. |

## Left out

- The sockets: creating, binding, `recvfrom`, `sendto`, the timeout and `close` (app/tester.py:8-24, app/main.py:11-16, app/main.py:42). These are I/O. A received datagram is a parameter that the server never reads.
- The server's `while True` loop: one pass is modelled (`Server.HandleDatagram`), because the loop only repeats that pass.
- The load test (`run_load_test`): it uses threads, timing and floating-point rates. The command-line parsing and the `__main__` blocks are left out too.
- The `print` calls, including the one in the server's `except` branch (app/main.py:44).
- The machine's native byte order: it is a parameter (`host`), used by a `struct` format without a byte-order character.
- PyStruct.Pack: covers only formats of byte-order characters and `H` codes, the only ones the code uses. Repeat counts, other codes and whitespace are not modelled, and values are integers, never other Python objects.
- Server.ResponseFlags: the fields are non-negative integers. Python's `<<` raises on a negative count, and bitwise or on negative integers (two's complement) is not modelled.
- Message.DecodeLabels: compression pointers and label types other than plain lengths are outside the reader. No code in the repository reads them.
- Tester.EncodedNameOutcome: `str.encode('ascii')` is modelled on code points. Unicode normalisation and surrogates are not modelled.

## Findings

| source | as written | input that shows it | evidently intended | confidence | as-written member | corrected member |
|---|---|---|---|---|---|---|
| app/main.py:32 | `(aa < 10)` or-ed into the flags word: a comparison, whose value `True` lands on bit 0 | the server's own constants (aa = 0) give 0x8001, so RCODE reads 1 (format error) and AA can never be set | `(aa << 10)`, AA at bit 10 as in section 4.1.1 of RFC 1035, giving 0x8000 | high (not executed) | Server.ServerFlagsAsWritten | Server.ServerFlagsIntended |
| app/main.py:40 | `struct.pack("HHHHHH!", ...)`: byte-order character after the codes | any received datagram: the pack raises `struct.error` (bad char `!`), the handler catches it and breaks the loop, no reply is sent | `"!HHHHHH"`, a big-endian header | high (not executed) | Server.HandleDatagramStops | Server.IntendedHandleDatagramReplies |
