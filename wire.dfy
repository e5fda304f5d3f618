/**
 * Bytes, 16-bit words and the big-endian (network order) two-byte reads and
 * writes that src/packet.rs and src/question.rs do at fixed offsets.
 */
module Wire {
  type byte = bv8
  type u16 = bv16

  /**
   * The big-endian 16-bit word in `b[off]`, `b[off + 1]`: high byte times 256
   * plus low byte (the sum is below 2^16, so the 16-bit arithmetic does not wrap).
   */
  function ReadU16(b: seq<byte>, off: nat): (v: u16)
    requires off + 2 <= |b|
    ensures v == (b[off] as u16) * 256 + b[off + 1] as u16
  {
    ((b[off] as u16) << 8) | (b[off + 1] as u16)
  }

  /** `a` and `b` have the same length and differ at most in the two bytes at `off`. */
  ghost predicate SameOutside(a: seq<byte>, b: seq<byte>, off: nat)
  {
    |a| == |b| && forall i :: 0 <= i < |a| && i != off && i != off + 1 ==> a[i] == b[i]
  }

  /** `b` with `v` written big-endian into `b[off]`, `b[off + 1]`. */
  function WriteU16(b: seq<byte>, off: nat, v: u16): (r: seq<byte>)
    requires off + 2 <= |b|
    ensures SameOutside(b, r, off)
    ensures ReadU16(r, off) == v
  {
    b[off := (v >> 8) as byte][off + 1 := (v & 0xFF) as byte]
  }

  /** A write leaves every word that does not overlap it as it was. */
  lemma ReadOtherWord(b: seq<byte>, off: nat, v: u16, other: nat)
    requires off + 2 <= |b| && other + 2 <= |b|
    requires other + 2 <= off || off + 2 <= other
    ensures ReadU16(WriteU16(b, off, v), other) == ReadU16(b, other)
  {
    SameBytesSameWord(WriteU16(b, off, v), b, other);
  }

  lemma SameBytesSameWord(a: seq<byte>, b: seq<byte>, off: nat)
    requires off + 2 <= |a| && off + 2 <= |b|
    requires a[off] == b[off] && a[off + 1] == b[off + 1]
    ensures ReadU16(a, off) == ReadU16(b, off)
  {
  }

  /** The two bytes of `v`, high byte first. */
  function U16Bytes(v: u16): (r: seq<byte>)
    ensures |r| == 2 && ReadU16(r, 0) == v
  {
    [(v >> 8) as byte, (v & 0xFF) as byte]
  }

  /**
   * A byte counted up to `n`: a witness that every `n` below 256 is the value
   * of a byte, so that `ToByte` need not invert the conversion `n as byte`
   * on the solver's bit-vector theory.
   */
  ghost function ByteOf(n: nat): (b: byte)
    requires n < 256
    ensures b as int == n
  {
    if n == 0 then 0
    else
      var p := ByteOf(n - 1);
      assert p as int < 255;
      p + 1
  }

  lemma CastOfValue(x: byte, n: int)
    requires x as int == n
    ensures x == n as byte
  {
  }

  /** `n as u8` for a value that fits: the byte whose value is `n`. */
  function ToByte(n: nat): (b: byte)
    requires n < 256
    ensures b as int == n
  {
    CastOfValue(ByteOf(n), n);
    n as byte
  }
}
