/**
 * The query packet of src/packet.rs: a byte buffer whose first 12 bytes are
 * the header of section 4.1.1 of RFC 1035, followed by the question bytes.
 * The getters are pure reads of the buffer; each setter either rewrites one
 * big-endian word at a fixed offset or reads the flags word, masks or ORs
 * it, and writes it back.
 */
module Packet {
  import opened Consts
  import opened Wire
  import opened Wrappers
  import Question

  // ---------------------------------------------------------------------
  // Getters: reads of the header bytes at the offsets of src/consts.rs.

  function Id(b: seq<byte>): (r: u16)
    requires |b| >= HEADER_LENGTH
    ensures r == (b[0] as u16) * 256 + b[1] as u16
  {
    ReadU16(b, ID_OFFSET)
  }

  function Flags(b: seq<byte>): (r: u16)
    requires |b| >= HEADER_LENGTH
    ensures r == (b[2] as u16) * 256 + b[3] as u16
  {
    ReadU16(b, FLAGS_OFFSET)
  }

  // The fields of the flags word, as the getters mask and shift them out.

  /** A message is a query when its QR bit is clear. */
  function QueryOf(flags: u16): bool { !(flags & QR == QR) }
  function OpcodeOf(flags: u16): byte { ((flags & OPCODE_MASK) >> OPCODE_SHIFT) as byte }
  function AuthoritativeOf(flags: u16): bool { flags & AA == AA }
  function TruncatedOf(flags: u16): bool { flags & TC == TC }
  function RecursionDesiredOf(flags: u16): bool { flags & RD == RD }
  function RecursionAvailableOf(flags: u16): bool { flags & RA == RA }
  function RcodeOf(flags: u16): byte { (flags & RCODE_MASK) as byte }
  /** The reserved bits 4 to 6, which no getter reads. */
  ghost function ZOf(flags: u16): byte { ((flags >> 4) & 0x07) as byte }

  /** A query is a message whose QR bit, the top bit of byte 2, is clear. */
  function IsQuery(b: seq<byte>): (r: bool)
    requires |b| >= HEADER_LENGTH
    ensures r <==> b[2] & 0x80 == 0
  {
    QueryOf(Flags(b))
  }

  /** The opcode is bits 3 to 6 of byte 2, so it is always below 16. */
  function Opcode(b: seq<byte>): (r: byte)
    requires |b| >= HEADER_LENGTH
    ensures r < 16 && r == (b[2] >> 3) & 0x0F
  {
    OpcodeOf(Flags(b))
  }

  function IsAuthoritative(b: seq<byte>): (r: bool)
    requires |b| >= HEADER_LENGTH
    ensures r <==> b[2] & 0x04 != 0
  {
    AuthoritativeOf(Flags(b))
  }

  function IsTruncated(b: seq<byte>): (r: bool)
    requires |b| >= HEADER_LENGTH
    ensures r <==> b[2] & 0x02 != 0
  {
    TruncatedOf(Flags(b))
  }

  function IsRecursionDesired(b: seq<byte>): (r: bool)
    requires |b| >= HEADER_LENGTH
    ensures r <==> b[2] & 0x01 != 0
  {
    RecursionDesiredOf(Flags(b))
  }

  function IsRecursionAvailable(b: seq<byte>): (r: bool)
    requires |b| >= HEADER_LENGTH
    ensures r <==> b[3] & 0x80 != 0
  {
    RecursionAvailableOf(Flags(b))
  }

  /** The rcode is the low four bits of byte 3, so it is always below 16. */
  function Rcode(b: seq<byte>): (r: byte)
    requires |b| >= HEADER_LENGTH
    ensures r < 16 && r == b[3] & 0x0F
  {
    RcodeOf(Flags(b))
  }

  function QdCount(b: seq<byte>): (r: u16)
    requires |b| >= HEADER_LENGTH
    ensures r == (b[4] as u16) * 256 + b[5] as u16
  {
    ReadU16(b, QDCOUNT_OFFSET)
  }

  function AnCount(b: seq<byte>): (r: u16)
    requires |b| >= HEADER_LENGTH
    ensures r == (b[6] as u16) * 256 + b[7] as u16
  {
    ReadU16(b, ANCOUNT_OFFSET)
  }

  function NsCount(b: seq<byte>): (r: u16)
    requires |b| >= HEADER_LENGTH
    ensures r == (b[8] as u16) * 256 + b[9] as u16
  {
    ReadU16(b, NSCOUNT_OFFSET)
  }

  function ArCount(b: seq<byte>): (r: u16)
    requires |b| >= HEADER_LENGTH
    ensures r == (b[10] as u16) * 256 + b[11] as u16
  {
    ReadU16(b, ARCOUNT_OFFSET)
  }

  // ---------------------------------------------------------------------
  // The header as the getters see it.

  /** The fields packed into the flags word. `z` is the reserved field, bits 4 to 6, which no getter reads. */
  datatype FlagFields = FlagFields(
    query: bool,
    opcode: byte,
    authoritative: bool,
    truncated: bool,
    recursionDesired: bool,
    recursionAvailable: bool,
    z: byte,
    rcode: byte)

  /** The header: the id, the fields of the flags word and the four section counts. */
  datatype Header = Header(
    id: u16,
    flags: FlagFields,
    qdcount: u16,
    ancount: u16,
    nscount: u16,
    arcount: u16)

  ghost function FieldsOf(f: u16): FlagFields
  {
    FlagFields(QueryOf(f), OpcodeOf(f), AuthoritativeOf(f), TruncatedOf(f),
               RecursionDesiredOf(f), RecursionAvailableOf(f), ZOf(f), RcodeOf(f))
  }

  /** What the getters read from `b`, plus the reserved Z bits, which no getter reads. */
  ghost function HeaderOf(b: seq<byte>): Header
    requires |b| >= HEADER_LENGTH
  {
    Header(Id(b), FieldsOf(Flags(b)), QdCount(b), AnCount(b), NsCount(b), ArCount(b))
  }

  /** The fields cover all 16 bits of the word, so they pin it down. */
  lemma FieldsDetermine(f: u16, g: u16)
    requires FieldsOf(f) == FieldsOf(g)
    ensures f == g
  {
  }

  /** Two buffers with the same header fields and the same bytes after the header are equal. */
  lemma SameHeaderSameBuffer(a: seq<byte>, b: seq<byte>)
    requires |a| >= HEADER_LENGTH && |b| >= HEADER_LENGTH
    requires HeaderOf(a) == HeaderOf(b)
    requires a[HEADER_LENGTH..] == b[HEADER_LENGTH..]
    ensures a == b
  {
    FieldsDetermine(Flags(a), Flags(b));
    assert a[..HEADER_LENGTH] == b[..HEADER_LENGTH] by {
      forall i | 0 <= i < HEADER_LENGTH
        ensures a[i] == b[i]
      {
        var off := i - i % 2;
        assert ReadU16(a, off) == ReadU16(b, off) by {
          assert off in {ID_OFFSET, FLAGS_OFFSET, QDCOUNT_OFFSET, ANCOUNT_OFFSET, NSCOUNT_OFFSET, ARCOUNT_OFFSET};
        }
      }
    }
    assert a == a[..HEADER_LENGTH] + a[HEADER_LENGTH..];
    assert b == b[..HEADER_LENGTH] + b[HEADER_LENGTH..];
  }

  // ---------------------------------------------------------------------
  // What one two-byte write does to the header.

  lemma WriteIdHeader(a: seq<byte>, v: u16)
    requires |a| >= HEADER_LENGTH
    ensures HeaderOf(WriteU16(a, ID_OFFSET, v)) == HeaderOf(a).(id := v)
  {
    ReadOtherWord(a, ID_OFFSET, v, FLAGS_OFFSET);
    ReadOtherWord(a, ID_OFFSET, v, QDCOUNT_OFFSET);
    ReadOtherWord(a, ID_OFFSET, v, ANCOUNT_OFFSET);
    ReadOtherWord(a, ID_OFFSET, v, NSCOUNT_OFFSET);
    ReadOtherWord(a, ID_OFFSET, v, ARCOUNT_OFFSET);
  }

  lemma WriteFlagsHeader(a: seq<byte>, v: u16)
    requires |a| >= HEADER_LENGTH
    ensures HeaderOf(WriteU16(a, FLAGS_OFFSET, v)) == HeaderOf(a).(flags := FieldsOf(v))
  {
    ReadOtherWord(a, FLAGS_OFFSET, v, ID_OFFSET);
    ReadOtherWord(a, FLAGS_OFFSET, v, QDCOUNT_OFFSET);
    ReadOtherWord(a, FLAGS_OFFSET, v, ANCOUNT_OFFSET);
    ReadOtherWord(a, FLAGS_OFFSET, v, NSCOUNT_OFFSET);
    ReadOtherWord(a, FLAGS_OFFSET, v, ARCOUNT_OFFSET);
  }

  lemma WriteQdCountHeader(a: seq<byte>, v: u16)
    requires |a| >= HEADER_LENGTH
    ensures HeaderOf(WriteU16(a, QDCOUNT_OFFSET, v)) == HeaderOf(a).(qdcount := v)
  {
    ReadOtherWord(a, QDCOUNT_OFFSET, v, ID_OFFSET);
    ReadOtherWord(a, QDCOUNT_OFFSET, v, FLAGS_OFFSET);
    ReadOtherWord(a, QDCOUNT_OFFSET, v, ANCOUNT_OFFSET);
    ReadOtherWord(a, QDCOUNT_OFFSET, v, NSCOUNT_OFFSET);
    ReadOtherWord(a, QDCOUNT_OFFSET, v, ARCOUNT_OFFSET);
  }

  lemma WriteAnCountHeader(a: seq<byte>, v: u16)
    requires |a| >= HEADER_LENGTH
    ensures HeaderOf(WriteU16(a, ANCOUNT_OFFSET, v)) == HeaderOf(a).(ancount := v)
  {
    ReadOtherWord(a, ANCOUNT_OFFSET, v, ID_OFFSET);
    ReadOtherWord(a, ANCOUNT_OFFSET, v, FLAGS_OFFSET);
    ReadOtherWord(a, ANCOUNT_OFFSET, v, QDCOUNT_OFFSET);
    ReadOtherWord(a, ANCOUNT_OFFSET, v, NSCOUNT_OFFSET);
    ReadOtherWord(a, ANCOUNT_OFFSET, v, ARCOUNT_OFFSET);
  }

  lemma WriteNsCountHeader(a: seq<byte>, v: u16)
    requires |a| >= HEADER_LENGTH
    ensures HeaderOf(WriteU16(a, NSCOUNT_OFFSET, v)) == HeaderOf(a).(nscount := v)
  {
    ReadOtherWord(a, NSCOUNT_OFFSET, v, ID_OFFSET);
    ReadOtherWord(a, NSCOUNT_OFFSET, v, FLAGS_OFFSET);
    ReadOtherWord(a, NSCOUNT_OFFSET, v, QDCOUNT_OFFSET);
    ReadOtherWord(a, NSCOUNT_OFFSET, v, ANCOUNT_OFFSET);
    ReadOtherWord(a, NSCOUNT_OFFSET, v, ARCOUNT_OFFSET);
  }

  lemma WriteArCountHeader(a: seq<byte>, v: u16)
    requires |a| >= HEADER_LENGTH
    ensures HeaderOf(WriteU16(a, ARCOUNT_OFFSET, v)) == HeaderOf(a).(arcount := v)
  {
    ReadOtherWord(a, ARCOUNT_OFFSET, v, ID_OFFSET);
    ReadOtherWord(a, ARCOUNT_OFFSET, v, FLAGS_OFFSET);
    ReadOtherWord(a, ARCOUNT_OFFSET, v, QDCOUNT_OFFSET);
    ReadOtherWord(a, ARCOUNT_OFFSET, v, ANCOUNT_OFFSET);
    ReadOtherWord(a, ARCOUNT_OFFSET, v, NSCOUNT_OFFSET);
  }

  /** Appending after the header leaves every header field as it was. */
  lemma AppendHeader(a: seq<byte>, t: seq<byte>)
    requires |a| >= HEADER_LENGTH
    ensures HeaderOf(a + t) == HeaderOf(a)
  {
    var b := a + t;
    assert b[..HEADER_LENGTH] == a[..HEADER_LENGTH];
    assert forall i :: 0 <= i < HEADER_LENGTH ==> b[i] == a[i];
  }

  // ---------------------------------------------------------------------
  // What each read-modify-write of the flags word does to its fields.

  /** Clearing QR makes a query and moves no other field. */
  lemma ClearQrWord(f: u16)
    ensures FieldsOf(f & !QR) == FieldsOf(f).(query := true)
  {
  }

  /** Setting QR makes a response and moves no other field. */
  lemma SetQrWord(f: u16)
    ensures FieldsOf(f | QR) == FieldsOf(f).(query := false)
  {
  }

  lemma SetAaWord(f: u16)
    ensures FieldsOf(f | AA) == FieldsOf(f).(authoritative := true)
  {
  }

  lemma ClearAaWord(f: u16)
    ensures FieldsOf(f & !AA) == FieldsOf(f).(authoritative := false)
  {
  }

  lemma SetTcWord(f: u16)
    ensures FieldsOf(f | TC) == FieldsOf(f).(truncated := true)
  {
  }

  lemma ClearTcWord(f: u16)
    ensures FieldsOf(f & !TC) == FieldsOf(f).(truncated := false)
  {
  }

  lemma SetRdWord(f: u16)
    ensures FieldsOf(f | RD) == FieldsOf(f).(recursionDesired := true)
  {
  }

  lemma ClearRdWord(f: u16)
    ensures FieldsOf(f & !RD) == FieldsOf(f).(recursionDesired := false)
  {
  }

  lemma SetRaWord(f: u16)
    ensures FieldsOf(f | RA) == FieldsOf(f).(recursionAvailable := true)
  {
  }

  lemma ClearRaWord(f: u16)
    ensures FieldsOf(f & !RA) == FieldsOf(f).(recursionAvailable := false)
  {
  }

  /**
   * What `set_opcode` does to the fields: the opcode field takes the low four
   * bits of `opcode`; bit 4 of the unmasked shifted value lands in QR and
   * makes a response; higher bits are shifted out.
   */
  function WithOpcode(fl: FlagFields, opcode: byte): FlagFields
  {
    fl.(opcode := opcode & 0x0F, query := fl.query && opcode & 0x10 == 0)
  }

  /**
   * What `set_rcode` does to the fields: the rcode field takes the low four
   * bits of `rcode`; the value is ORed in unmasked, so its bits 4 to 6 are
   * ORed into Z and bit 7 into RA.
   */
  function WithRcode(fl: FlagFields, rcode: byte): FlagFields
  {
    fl.(rcode := rcode & 0x0F, z := fl.z | ((rcode >> 4) & 0x07),
        recursionAvailable := fl.recursionAvailable || rcode & 0x80 != 0)
  }

  lemma OpcodeWord(f: u16, opcode: byte, shifted: u16)
    requires shifted == (opcode as u16) << OPCODE_SHIFT
    ensures FieldsOf((f & !OPCODE_MASK) | shifted) == WithOpcode(FieldsOf(f), opcode)
  {
  }

  lemma RcodeWord(f: u16, rcode: byte, wide: u16)
    requires wide == rcode as u16
    ensures FieldsOf((f & !RCODE_MASK) | wide) == WithRcode(FieldsOf(f), rcode)
  {
  }

  /** For an opcode below 16 the setter stores exactly that opcode and keeps QR. */
  lemma SmallOpcode(fl: FlagFields, opcode: byte)
    requires opcode < 16
    ensures WithOpcode(fl, opcode) == fl.(opcode := opcode)
  {
  }

  /** For an opcode below 16 every bit outside OPCODE_MASK keeps its value. */
  lemma SmallOpcodeKeepsOtherBits(f: u16, opcode: byte, shifted: u16)
    requires opcode < 16 && shifted == (opcode as u16) << OPCODE_SHIFT
    ensures ((f & !OPCODE_MASK) | shifted) & !OPCODE_MASK == f & !OPCODE_MASK
    ensures ((f & !OPCODE_MASK) | shifted) & OPCODE_MASK == shifted
  {
  }

  /** For an rcode below 16 the setter stores exactly that rcode and keeps Z and RA. */
  lemma SmallRcode(fl: FlagFields, rcode: byte)
    requires rcode < 16
    ensures WithRcode(fl, rcode) == fl.(rcode := rcode)
  {
  }

  /** For an rcode below 16 bits 4 to 15 of the flags word keep their values. */
  lemma SmallRcodeKeepsOtherBits(f: u16, rcode: byte, wide: u16)
    requires rcode < 16 && wide == rcode as u16
    ensures ((f & !RCODE_MASK) | wide) & !RCODE_MASK == f & !RCODE_MASK
    ensures ((f & !RCODE_MASK) | wide) & RCODE_MASK == wide
  {
  }

  // ---------------------------------------------------------------------
  // The packet object.

  class Packet {
    /** The buffer; the source keeps it in an Option that is always Some. */
    var buf: seq<byte>

    ghost predicate Valid()
      reads this
    {
      |buf| >= HEADER_LENGTH
    }

    /** `Packet::new`: a 12-byte all-zero header; every getter reads 0 or false, except that it is a query. */
    constructor ()
      ensures Valid()
      ensures buf == [0, 0, 0, 0, 0, 0, 0, 0, 0, 0, 0, 0]
      ensures HeaderOf(buf) == Header(0, FlagFields(true, 0, false, false, false, false, 0, 0), 0, 0, 0, 0)
    {
      buf := [0, 0, 0, 0, 0, 0, 0, 0, 0, 0, 0, 0];
    }

    /** `buf()`: the whole buffer, never absent and never shorter than the header. */
    function Buf(): (r: seq<byte>)
      reads this
      requires Valid()
      ensures |r| >= HEADER_LENGTH && r == buf
    {
      buf
    }

    method SetId(id: u16)
      requires Valid()
      modifies this
      ensures Valid()
      ensures HeaderOf(buf) == HeaderOf(old(buf)).(id := id)
      ensures SameOutside(old(buf), buf, ID_OFFSET)
      ensures buf[HEADER_LENGTH..] == old(buf[HEADER_LENGTH..])
    {
      WriteIdHeader(buf, id);
      buf := WriteU16(buf, ID_OFFSET, id);
    }

    /** `set_flags`: every flag field becomes the field of `flags`; the id, the counts and the bytes after the header stay. */
    method SetFlags(flags: u16)
      requires Valid()
      modifies this
      ensures Valid()
      ensures Flags(buf) == flags
      ensures HeaderOf(buf) == HeaderOf(old(buf)).(flags := FieldsOf(flags))
      ensures SameOutside(old(buf), buf, FLAGS_OFFSET)
      ensures buf[HEADER_LENGTH..] == old(buf[HEADER_LENGTH..])
    {
      WriteFlagsHeader(buf, flags);
      buf := WriteU16(buf, FLAGS_OFFSET, flags);
    }

    /** A query clears QR, a response sets it. */
    method SetQuery(isQuery: bool)
      requires Valid()
      modifies this
      ensures Valid()
      ensures var h := HeaderOf(old(buf)); HeaderOf(buf) == h.(flags := h.flags.(query := isQuery))
      ensures SameOutside(old(buf), buf, FLAGS_OFFSET)
      ensures buf[HEADER_LENGTH..] == old(buf[HEADER_LENGTH..])
    {
      var flags := Flags(Buf());
      if isQuery {
        ClearQrWord(flags);
        flags := flags & !QR;
      } else {
        SetQrWord(flags);
        flags := flags | QR;
      }
      SetFlags(flags);
    }

    /**
     * The opcode field gets the low four bits of `opcode`. The shifted value
     * is not masked, so an opcode whose bit 4 is set (16 to 31, 48 to 63, ...)
     * sets QR and makes the packet a response; bits 5 to 7 are shifted out.
     */
    method SetOpcode(opcode: byte)
      requires Valid()
      modifies this
      ensures Valid()
      ensures var h := HeaderOf(old(buf)); HeaderOf(buf) == h.(flags := WithOpcode(h.flags, opcode))
      ensures SameOutside(old(buf), buf, FLAGS_OFFSET)
      ensures buf[HEADER_LENGTH..] == old(buf[HEADER_LENGTH..])
    {
      var flags := Flags(Buf());
      var shifted := (opcode as u16) << OPCODE_SHIFT;
      OpcodeWord(flags, opcode, shifted);
      flags := flags & !OPCODE_MASK;
      flags := flags | shifted;
      SetFlags(flags);
    }

    method SetAuthoritative(isAuthoritative: bool)
      requires Valid()
      modifies this
      ensures Valid()
      ensures var h := HeaderOf(old(buf)); HeaderOf(buf) == h.(flags := h.flags.(authoritative := isAuthoritative))
      ensures SameOutside(old(buf), buf, FLAGS_OFFSET)
      ensures buf[HEADER_LENGTH..] == old(buf[HEADER_LENGTH..])
    {
      var flags := Flags(Buf());
      if isAuthoritative {
        SetAaWord(flags);
        flags := flags | AA;
      } else {
        ClearAaWord(flags);
        flags := flags & !AA;
      }
      SetFlags(flags);
    }

    method SetTruncated(isTruncated: bool)
      requires Valid()
      modifies this
      ensures Valid()
      ensures var h := HeaderOf(old(buf)); HeaderOf(buf) == h.(flags := h.flags.(truncated := isTruncated))
      ensures SameOutside(old(buf), buf, FLAGS_OFFSET)
      ensures buf[HEADER_LENGTH..] == old(buf[HEADER_LENGTH..])
    {
      var flags := Flags(Buf());
      if isTruncated {
        SetTcWord(flags);
        flags := flags | TC;
      } else {
        ClearTcWord(flags);
        flags := flags & !TC;
      }
      SetFlags(flags);
    }

    method SetRecursionDesired(isRecursionDesired: bool)
      requires Valid()
      modifies this
      ensures Valid()
      ensures var h := HeaderOf(old(buf)); HeaderOf(buf) == h.(flags := h.flags.(recursionDesired := isRecursionDesired))
      ensures SameOutside(old(buf), buf, FLAGS_OFFSET)
      ensures buf[HEADER_LENGTH..] == old(buf[HEADER_LENGTH..])
    {
      var flags := Flags(Buf());
      if isRecursionDesired {
        SetRdWord(flags);
        flags := flags | RD;
      } else {
        ClearRdWord(flags);
        flags := flags & !RD;
      }
      SetFlags(flags);
    }

    method SetRecursionAvailable(isRecursionAvailable: bool)
      requires Valid()
      modifies this
      ensures Valid()
      ensures var h := HeaderOf(old(buf)); HeaderOf(buf) == h.(flags := h.flags.(recursionAvailable := isRecursionAvailable))
      ensures SameOutside(old(buf), buf, FLAGS_OFFSET)
      ensures buf[HEADER_LENGTH..] == old(buf[HEADER_LENGTH..])
    {
      var flags := Flags(Buf());
      if isRecursionAvailable {
        SetRaWord(flags);
        flags := flags | RA;
      } else {
        ClearRaWord(flags);
        flags := flags & !RA;
      }
      SetFlags(flags);
    }

    /**
     * The rcode field gets the low four bits of `rcode`. The value is ORed in
     * unmasked, so bits 4 to 6 of an rcode of 16 or more are ORed into Z and
     * bit 7 into RA.
     */
    method SetRcode(rcode: byte)
      requires Valid()
      modifies this
      ensures Valid()
      ensures var h := HeaderOf(old(buf)); HeaderOf(buf) == h.(flags := WithRcode(h.flags, rcode))
      ensures SameOutside(old(buf), buf, FLAGS_OFFSET)
      ensures buf[HEADER_LENGTH..] == old(buf[HEADER_LENGTH..])
    {
      var flags := Flags(Buf());
      var wide := rcode as u16;
      RcodeWord(flags, rcode, wide);
      flags := flags & !RCODE_MASK;
      flags := flags | wide;
      SetFlags(flags);
    }

    method SetQdCount(qdcount: u16)
      requires Valid()
      modifies this
      ensures Valid()
      ensures HeaderOf(buf) == HeaderOf(old(buf)).(qdcount := qdcount)
      ensures SameOutside(old(buf), buf, QDCOUNT_OFFSET)
      ensures buf[HEADER_LENGTH..] == old(buf[HEADER_LENGTH..])
    {
      WriteQdCountHeader(buf, qdcount);
      buf := WriteU16(buf, QDCOUNT_OFFSET, qdcount);
    }

    method SetAnCount(ancount: u16)
      requires Valid()
      modifies this
      ensures Valid()
      ensures HeaderOf(buf) == HeaderOf(old(buf)).(ancount := ancount)
      ensures SameOutside(old(buf), buf, ANCOUNT_OFFSET)
      ensures buf[HEADER_LENGTH..] == old(buf[HEADER_LENGTH..])
    {
      WriteAnCountHeader(buf, ancount);
      buf := WriteU16(buf, ANCOUNT_OFFSET, ancount);
    }

    method SetNsCount(nscount: u16)
      requires Valid()
      modifies this
      ensures Valid()
      ensures HeaderOf(buf) == HeaderOf(old(buf)).(nscount := nscount)
      ensures SameOutside(old(buf), buf, NSCOUNT_OFFSET)
      ensures buf[HEADER_LENGTH..] == old(buf[HEADER_LENGTH..])
    {
      WriteNsCountHeader(buf, nscount);
      buf := WriteU16(buf, NSCOUNT_OFFSET, nscount);
    }

    method SetArCount(arcount: u16)
      requires Valid()
      modifies this
      ensures Valid()
      ensures HeaderOf(buf) == HeaderOf(old(buf)).(arcount := arcount)
      ensures SameOutside(old(buf), buf, ARCOUNT_OFFSET)
      ensures buf[HEADER_LENGTH..] == old(buf[HEADER_LENGTH..])
    {
      WriteArCountHeader(buf, arcount);
      buf := WriteU16(buf, ARCOUNT_OFFSET, arcount);
    }

    /**
     * `add_question`: the question's bytes are appended to the buffer and
     * QDCOUNT goes up by one; nothing else changes. The source unwraps the
     * question's bytes and adds 1 to a 16-bit count, hence the requires.
     */
    method AddQuestion(q: Question.Question)
      requires Valid()
      requires q.labels.Some?
      requires QdCount(buf) < 0xFFFF
      modifies this
      ensures Valid()
      ensures HeaderOf(buf) == HeaderOf(old(buf)).(qdcount := QdCount(old(buf)) + 1)
      ensures buf[HEADER_LENGTH..] == old(buf[HEADER_LENGTH..]) + Question.Encoding(q.labels.value)
    {
      var bytes := Question.AsBytes(q);
      AppendHeader(buf, bytes.value);
      buf := buf + bytes.value;
      SetQdCount(QdCount(Buf()) + 1);
    }

    /**
     * `new_query`: a header with the given id (the source draws it at
     * random), QR clear, opcode 0 and RD set, every other flag and the rcode
     * zero, QDCOUNT 1 and the other counts 0; then the question for `query`.
     */
    static method NewQuery(query: seq<byte>, id: u16) returns (p: Packet)
      ensures fresh(p) && p.Valid()
      ensures HeaderOf(p.buf) == Header(id, FlagFields(true, 0, false, false, true, false, 0, 0), 1, 0, 0, 0)
      ensures p.buf == U16Bytes(id) + QueryHeaderTail() + Question.Encoding(Question.New(query).labels.value)
    {
      p := new Packet();
      p.SetId(id);
      p.SetQuery(true);
      p.SetOpcode(0);
      p.SetRecursionDesired(true);
      var question := Question.New(query);
      p.AddQuestion(question);
      NewQueryBytes(id, question.labels.value, p.buf);
    }
  }

  /** Bytes 2 to 11 of a fresh query: flags 0x0100 (only RD), QDCOUNT 1, the other counts 0. */
  function QueryHeaderTail(): (r: seq<byte>)
    ensures |r| == 10
  {
    [0x01, 0x00, 0x00, 0x01, 0, 0, 0, 0, 0, 0]
  }

  /** The one buffer whose header is that of a fresh query and whose question bytes are `Encoding(labels)`. */
  lemma NewQueryBytes(id: u16, labels: seq<Question.Label>, b: seq<byte>)
    requires |b| >= HEADER_LENGTH
    requires HeaderOf(b) == Header(id, FlagFields(true, 0, false, false, true, false, 0, 0), 1, 0, 0, 0)
    requires b[HEADER_LENGTH..] == Question.Encoding(labels)
    ensures b == U16Bytes(id) + QueryHeaderTail() + Question.Encoding(labels)
  {
    var c := U16Bytes(id) + QueryHeaderTail() + Question.Encoding(labels);
    assert Flags(c) == 0x0100;
    assert HeaderOf(c) == HeaderOf(b);
    assert c[HEADER_LENGTH..] == Question.Encoding(labels);
    SameHeaderSameBuffer(c, b);
  }

  // ---------------------------------------------------------------------
  // Applying a flag setter twice with the same value equals applying it once.

  /** `once` is the buffer after the first call; the second call leaves it as it is. */
  method SetQueryTwice(p: Packet, isQuery: bool) returns (ghost once: seq<byte>)
    requires p.Valid()
    modifies p
    ensures p.Valid() && p.buf == once
    ensures var h := HeaderOf(old(p.buf)); HeaderOf(once) == h.(flags := h.flags.(query := isQuery))
    ensures once[HEADER_LENGTH..] == old(p.buf[HEADER_LENGTH..])
  {
    p.SetQuery(isQuery);
    once := p.buf;
    p.SetQuery(isQuery);
    SameHeaderSameBuffer(p.buf, once);
  }

  /** `once` is the buffer after the first call; the second call leaves it as it is. */
  method SetAuthoritativeTwice(p: Packet, isAuthoritative: bool) returns (ghost once: seq<byte>)
    requires p.Valid()
    modifies p
    ensures p.Valid() && p.buf == once
    ensures var h := HeaderOf(old(p.buf)); HeaderOf(once) == h.(flags := h.flags.(authoritative := isAuthoritative))
    ensures once[HEADER_LENGTH..] == old(p.buf[HEADER_LENGTH..])
  {
    p.SetAuthoritative(isAuthoritative);
    once := p.buf;
    p.SetAuthoritative(isAuthoritative);
    SameHeaderSameBuffer(p.buf, once);
  }

  /** `once` is the buffer after the first call; the second call leaves it as it is. */
  method SetTruncatedTwice(p: Packet, isTruncated: bool) returns (ghost once: seq<byte>)
    requires p.Valid()
    modifies p
    ensures p.Valid() && p.buf == once
    ensures var h := HeaderOf(old(p.buf)); HeaderOf(once) == h.(flags := h.flags.(truncated := isTruncated))
    ensures once[HEADER_LENGTH..] == old(p.buf[HEADER_LENGTH..])
  {
    p.SetTruncated(isTruncated);
    once := p.buf;
    p.SetTruncated(isTruncated);
    SameHeaderSameBuffer(p.buf, once);
  }

  /** `once` is the buffer after the first call; the second call leaves it as it is. */
  method SetRecursionDesiredTwice(p: Packet, isRecursionDesired: bool) returns (ghost once: seq<byte>)
    requires p.Valid()
    modifies p
    ensures p.Valid() && p.buf == once
    ensures var h := HeaderOf(old(p.buf)); HeaderOf(once) == h.(flags := h.flags.(recursionDesired := isRecursionDesired))
    ensures once[HEADER_LENGTH..] == old(p.buf[HEADER_LENGTH..])
  {
    p.SetRecursionDesired(isRecursionDesired);
    once := p.buf;
    p.SetRecursionDesired(isRecursionDesired);
    SameHeaderSameBuffer(p.buf, once);
  }

  /** `once` is the buffer after the first call; the second call leaves it as it is. */
  method SetRecursionAvailableTwice(p: Packet, isRecursionAvailable: bool) returns (ghost once: seq<byte>)
    requires p.Valid()
    modifies p
    ensures p.Valid() && p.buf == once
    ensures var h := HeaderOf(old(p.buf)); HeaderOf(once) == h.(flags := h.flags.(recursionAvailable := isRecursionAvailable))
    ensures once[HEADER_LENGTH..] == old(p.buf[HEADER_LENGTH..])
  {
    p.SetRecursionAvailable(isRecursionAvailable);
    once := p.buf;
    p.SetRecursionAvailable(isRecursionAvailable);
    SameHeaderSameBuffer(p.buf, once);
  }
}
