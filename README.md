# dunce-rs query builder in Dafny

This project models the part of dunce-rs that builds a DNS query message. It
has two pieces:

- `Packet` owns a byte buffer whose first 12 bytes are the message header of
  section 4.1.1 of RFC 1035. Its getters read big-endian words at fixed
  offsets, or mask and shift bits out of the flags word. Its setters do one of
  two things: overwrite one two-byte word, or read the flags word, clear or OR
  bits into it, and write it back. `add_question` appends the bytes of a
  question and adds one to QDCOUNT. `new_query` chains these calls into a
  ready query.
- `Question` splits a dotted name on `.` and stores the labels in reverse
  order. `as_bytes` writes each label as a length byte followed by its bytes.
  It then writes a zero terminator, then QTYPE 1 (A) and QCLASS 1 (IN) as
  big-endian words.

The Dafny modules follow the source files:

- `Consts` (consts.dfy) is src/consts.rs.
- `Wire` (wire.dfy) holds the big-endian reads and writes and
  the `u8` narrowing.
- `Question` (question.dfy) is src/question.rs.
- `Packet` (packet.dfy) is src/packet.rs.
- `Wrappers` holds the `Option` type.

Bytes are `bv8` and 16-bit words are `bv16`, so Rust's `&`, `|`, `!`, `<<`
and `>>` on `u16` keep their 16-bit meaning. `Packet` is a class with one
field, `buf: seq<byte>`, and every setter is a method that reassigns it. The
getters are functions over the buffer contents. `HeaderOf(buf)` collects what
the getters read, plus the reserved Z bits, which no getter reads. Each setter states two things:

- the new `HeaderOf(buf)`, as the old one with exactly its own field replaced;
- that every byte outside its two-byte word is unchanged.

`SameHeaderSameBuffer` shows that these two facts pin the new buffer down
completely.

RFC 1035 (section 3.1 and section 4.1.2) writes the labels in input order;
the code reverses them (`split('.').rev()`, src/question.rs:9), and the model
follows the code, so `"www.icann.org"` is encoded as
`03 org 05 icann 03 www 00 00 01 00 01` (`Question.IcannExample`).

Two setters are modelled on every input, including the cases the field width
does not cover:

- `set_opcode` does not mask the shifted opcode. An opcode whose bit 4 is set
  (16 to 31, 48 to 63, ...) sets QR and makes the packet a response; bits 5 to
  7 are shifted out.
- `set_rcode` ORs the rcode in unmasked. Bits 4 to 6 land in the reserved Z
  field and bit 7 lands in RA.

Both setters carry no precondition. Their contracts state these effects, and
`SmallOpcode` and `SmallRcode` give the plain round trip below 16.

## Model

| member | source | states |
|---|---|---|
| Consts.HeaderSlots | src/consts.rs:1-8 | the six header words are consecutive two-byte slots at 0, 2, 4, 6, 8, 10, and the last one ends at HEADER_LENGTH = 12 |
| Consts.FlagBits | src/consts.rs:10-14 | QR, AA, TC, RD and RA are single bits: bits 15, 10, 9, 8 and 7 |
| Consts.FieldMasks | src/consts.rs:16-18 | OPCODE_MASK is 0x7800 and OPCODE_MASK >> OPCODE_SHIFT is 15; RCODE_MASK is 0x000F; so both fields read at most 15 |
| Consts.MasksDisjoint | src/consts.rs:10-18 | the seven masks are pairwise disjoint and together leave exactly bits 4 to 6 (Z, 0x0070) uncovered |
| Wire.ReadU16 | src/packet.rs:83 | a big-endian read is high byte * 256 + low byte |
| Wire.WriteU16 | src/packet.rs:87 | a big-endian write keeps the length, changes only the two bytes at the offset, and reads back as the written value |
| Question.Split | src/question.rs:9 | `split('.')` always yields at least one part |
| Question.SplitParts | src/question.rs:9 | the parts number one more than the dots, contain no dot, and joined with dots give back the input (empty parts kept) |
| Question.Reverse | src/question.rs:9 | `rev().collect()` keeps the length and puts element i at position len-1-i |
| Question.ReverseReverse | src/question.rs:9 | reversing twice gives the original list back, so the stored labels determine the split order |
| Question.New | src/question.rs:8-11 | `new` always stores Some(labels); the labels are the dot-free components of the query in reverse order, one more than there are dots |
| Question.SplitJoin | src/question.rs:9 | splitting a dot-joined list of dot-free parts gives the parts back |
| Question.SplitPrefix | src/question.rs:9 | a dot-free prefix glues onto the first component of the rest's split, and the other components stay |
| Question.NewLabelsUnique | src/question.rs:9 | any non-empty list of dot-free labels whose reverse joins to the query is exactly what `new` stores |
| Question.LengthByte | src/question.rs:18 | `label.len() as u8` is the label length modulo 256 |
| Question.AsBytes | src/question.rs:13-31 | `as_bytes` returns Some of the encoding exactly when labels are present, otherwise None |
| Question.EncodeLabelsConcat | src/question.rs:17-20 | the label loop's output for two lists in a row is the output for their concatenation |
| Question.EncodeLabelsLength | src/question.rs:17-20 | the label loop writes Σ(len + 1) bytes |
| Question.EncodingLength | src/question.rs:16-26 | the output is Σ(len + 1) + 1 + 4 bytes long |
| Question.EncodingLabelAt | src/question.rs:17-20 | at the offset of label i the output holds its length byte followed by exactly its bytes, in list order |
| Question.EncodingTrailer | src/question.rs:21-26 | after the labels come one zero byte, then 00 01 (QTYPE A) and 00 01 (QCLASS IN), and nothing else |
| Question.ReadEncodedLabels | src/question.rs:17-21 | with labels of 1 to 63 bytes, scanning by length bytes reads back the labels and stops at the terminator |
| Question.ScanRecoversLabels | src/question.rs:17-21 | with labels of 1 to 63 bytes, scanning the encoding from index 0 recovers exactly the label list and the terminator's index |
| Question.QueryRoundTrip | src/question.rs:8-31 | for a query whose components are 1 to 63 bytes, the scan of its encoding recovers the reversed components, and joining them back in reverse gives the query |
| Question.IcannLabels | src/question.rs:9 | "www.icann.org" is stored as [org, icann, www] |
| Question.IcannBytes | src/question.rs:13-31 | [org, icann, www] is encoded as 03 org 05 icann 03 www 00 00 01 00 01 |
| Question.IcannExample | src/question.rs:8-31 | the encoding of the question for "www.icann.org", byte for byte |
| Packet.Id | src/packet.rs:82-84 | the id is bytes 0 and 1, big-endian |
| Packet.Flags | src/packet.rs:90-92 | the flags word is bytes 2 and 3, big-endian |
| Packet.IsQuery | src/packet.rs:98-101 | a query is a message whose QR bit (top bit of byte 2) is clear |
| Packet.Opcode | src/packet.rs:115-117 | the opcode is bits 3 to 6 of byte 2, so it is below 16 |
| Packet.IsAuthoritative | src/packet.rs:126-128 | AA is bit 2 of byte 2 |
| Packet.IsTruncated | src/packet.rs:141-143 | TC is bit 1 of byte 2 |
| Packet.IsRecursionDesired | src/packet.rs:156-158 | RD is bit 0 of byte 2 |
| Packet.IsRecursionAvailable | src/packet.rs:171-173 | RA is the top bit of byte 3 |
| Packet.Rcode | src/packet.rs:186-188 | the rcode is the low four bits of byte 3, so it is below 16 |
| Packet.QdCount | src/packet.rs:197-199 | QDCOUNT is bytes 4 and 5, big-endian |
| Packet.AnCount | src/packet.rs:205-207 | ANCOUNT is bytes 6 and 7, big-endian |
| Packet.NsCount | src/packet.rs:213-215 | NSCOUNT is bytes 8 and 9, big-endian |
| Packet.ArCount | src/packet.rs:221-223 | ARCOUNT is bytes 10 and 11, big-endian |
| Packet.FieldsDetermine | src/packet.rs:63-80 | the flag fields cover all 16 bits of the flags word, so equal fields mean equal words |
| Packet.SameHeaderSameBuffer | src/packet.rs:63-80 | two buffers that agree on every header field and on the bytes after the header are equal |
| Packet.WriteIdHeader | src/packet.rs:86-88 | writing the id word changes the id and no other header field |
| Packet.WriteFlagsHeader | src/packet.rs:94-96 | writing the flags word replaces the flag fields and changes neither the id nor any count |
| Packet.WriteQdCountHeader | src/packet.rs:201-203 | writing QDCOUNT changes QDCOUNT and no other header field |
| Packet.WriteAnCountHeader | src/packet.rs:209-211 | writing ANCOUNT changes ANCOUNT and no other header field |
| Packet.WriteNsCountHeader | src/packet.rs:217-219 | writing NSCOUNT changes NSCOUNT and no other header field |
| Packet.WriteArCountHeader | src/packet.rs:225-227 | writing ARCOUNT changes ARCOUNT and no other header field |
| Packet.AppendHeader | src/packet.rs:59 | appending after the header leaves every header field as it was |
| Packet.ClearQrWord | src/packet.rs:105-107 | clearing QR makes a query and moves no other flag field |
| Packet.SetQrWord | src/packet.rs:109-110 | setting QR makes a response and moves no other flag field |
| Packet.SetAaWord | src/packet.rs:132-134 | ORing AA sets `authoritative` and moves no other flag field |
| Packet.ClearAaWord | src/packet.rs:135-137 | masking AA off clears `authoritative` and moves no other flag field |
| Packet.SetTcWord | src/packet.rs:147-149 | ORing TC sets `truncated` and moves no other flag field |
| Packet.ClearTcWord | src/packet.rs:150-152 | masking TC off clears `truncated` and moves no other flag field |
| Packet.SetRdWord | src/packet.rs:162-164 | ORing RD sets `recursionDesired` and moves no other flag field |
| Packet.ClearRdWord | src/packet.rs:165-167 | masking RD off clears `recursionDesired` and moves no other flag field |
| Packet.SetRaWord | src/packet.rs:177-179 | ORing RA sets `recursionAvailable` and moves no other flag field |
| Packet.ClearRaWord | src/packet.rs:180-182 | masking RA off clears `recursionAvailable` and moves no other flag field |
| Packet.OpcodeWord | src/packet.rs:119-124 | the opcode read-modify-write stores the low four bits of the opcode and clears QR's query reading when bit 4 is set; the other fields stay |
| Packet.RcodeWord | src/packet.rs:190-195 | the rcode read-modify-write stores the low four bits, ORs bits 4 to 6 into Z and bit 7 into RA; the other fields stay |
| Packet.SmallOpcode | src/packet.rs:119-124 | for an opcode below 16 the opcode field becomes exactly that opcode and QR is kept |
| Packet.SmallOpcodeKeepsOtherBits | src/packet.rs:121-122 | for an opcode below 16 every bit outside OPCODE_MASK keeps its value and the masked bits hold the shifted opcode |
| Packet.SmallRcode | src/packet.rs:190-195 | for an rcode below 16 the rcode field becomes exactly that rcode and Z and RA are kept |
| Packet.SmallRcodeKeepsOtherBits | src/packet.rs:192-193 | for an rcode below 16 bits 4 to 15 of the flags word keep their values |
| Packet.Packet.constructor | src/packet.rs:26-29 | a new packet is 12 zero bytes: id, opcode, rcode and counts 0, every flag false, and it is a query |
| Packet.Packet.Buf | src/packet.rs:48-50 | the buffer is always present and at least a header long |
| Packet.Packet.SetId | src/packet.rs:86-88 | the id becomes the value; no other header field and no byte outside 0 and 1 changes |
| Packet.Packet.SetFlags | src/packet.rs:94-96 | the flags word becomes the value; the id, the counts and every byte outside 2 and 3 stay |
| Packet.Packet.SetQuery | src/packet.rs:103-113 | only `query` changes, to the value; no byte outside the flags word changes |
| Packet.Packet.SetOpcode | src/packet.rs:119-124 | the flag fields change as `WithOpcode` says, nothing else in the header, no byte outside the flags word |
| Packet.Packet.SetAuthoritative | src/packet.rs:130-139 | only `authoritative` changes, to the value; no byte outside the flags word changes |
| Packet.Packet.SetTruncated | src/packet.rs:145-154 | only `truncated` changes, to the value; no byte outside the flags word changes |
| Packet.Packet.SetRecursionDesired | src/packet.rs:160-169 | only `recursionDesired` changes, to the value; no byte outside the flags word changes |
| Packet.Packet.SetRecursionAvailable | src/packet.rs:175-184 | only `recursionAvailable` changes, to the value; no byte outside the flags word changes |
| Packet.Packet.SetRcode | src/packet.rs:190-195 | the flag fields change as `WithRcode` says, nothing else in the header, no byte outside the flags word |
| Packet.Packet.SetQdCount | src/packet.rs:201-203 | QDCOUNT becomes the value; nothing else in the header and no byte outside 4 and 5 changes |
| Packet.Packet.SetAnCount | src/packet.rs:209-211 | ANCOUNT becomes the value; nothing else in the header and no byte outside 6 and 7 changes |
| Packet.Packet.SetNsCount | src/packet.rs:217-219 | NSCOUNT becomes the value; nothing else in the header and no byte outside 8 and 9 changes |
| Packet.Packet.SetArCount | src/packet.rs:225-227 | ARCOUNT becomes the value; nothing else in the header and no byte outside 10 and 11 changes |
| Packet.Packet.AddQuestion | src/packet.rs:56-61 | the buffer becomes the old buffer followed by the question's bytes, QDCOUNT goes up by exactly one, and every other header field stays |
| Packet.Packet.NewQuery | src/packet.rs:31-46 | a new query is the id, bytes 01 00 00 01 00 00 00 00 00 00, then the encoding of `Question::new(query)`. So it is a query with opcode 0 and RD set, AA, TC and RA clear, rcode 0, QDCOUNT 1 and the other counts 0 |
| Packet.NewQueryBytes | src/packet.rs:31-46 | the only buffer with the header of a new query and the question's bytes after it is that byte string |
| Packet.SetQueryTwice | src/packet.rs:103-113 | a second `set_query` with the same value leaves the buffer as the first left it |
| Packet.SetAuthoritativeTwice | src/packet.rs:130-139 | a second `set_authoritative` with the same value leaves the buffer as the first left it |
| Packet.SetTruncatedTwice | src/packet.rs:145-154 | a second `set_truncated` with the same value leaves the buffer as the first left it |
| Packet.SetRecursionDesiredTwice | src/packet.rs:160-169 | a second `set_recursion_desired` with the same value leaves the buffer as the first left it |
| Packet.SetRecursionAvailableTwice | src/packet.rs:175-184 | a second `set_recursion_available` with the same value leaves the buffer as the first left it |

## Left out

- src/main.rs is not part of this model. It is an earlier draft of `Packet` with different constants (ARCOUNT at offset 16, inverted QR, a 512-byte buffer) and a `main` that only prints.
- `fmt::Display` for `Packet` (src/packet.rs:13-23) is string formatting only.
- The random id of `new_query` (src/packet.rs:35) comes from a foreign random number generator. `Packet.Packet.NewQuery` takes the id as a parameter instead.
- The byteorder crate is not modelled. Its big-endian `read_u16` and `write_u16` are stated directly as `Wire.ReadU16` and `Wire.WriteU16`.
- The buffer's `Option` and the `unwrap` in `buf` and `mut_buf` (src/packet.rs:48-54) are not modelled. The buffer is always `Some`, so the model keeps a plain byte sequence. `mut_buf` becomes the setters reassigning `buf`, and the invariant `Valid()` states that the buffer is at least a header long.
- The query `&str` and the label `&str` slices are modelled by their UTF-8 bytes. That the labels borrow from the query string is not modelled: the labels are copies.
- Packet.Packet.AddQuestion: requires that QDCOUNT is below 65535. The source's `qdcount() + 1` overflows a `u16` there: it panics in a debug build and wraps in a release build, and neither behaviour is modelled.
- Packet.Packet.AddQuestion: requires that the question's labels are present, which is what the source's `unwrap` of `as_bytes` demands. `Question::new` always stores them.
- `Question.ReadLabels` is a scanner used only to state what the encoding contains. The source has no decoder, and none is modelled: no response parsing, no name compression, no resource records, no sockets and no 512-byte limit.
- Vector capacity and allocation, which `push`, `extend_from_slice` and `resize` manage in the source, are not modelled.
