/**
 * The question entry of src/question.rs: a dotted name is split on '.', the
 * labels are stored in reverse order, and `AsBytes` writes each label as a
 * length byte followed by its bytes, then a zero terminator, then QTYPE A and
 * QCLASS IN as big-endian words (section 4.1.2 of RFC 1035, labels as in
 * section 3.1).
 *
 * The query text is modelled by its UTF-8 bytes. '.' is the ASCII byte 0x2E,
 * which never occurs inside a multi-byte UTF-8 sequence, so splitting the
 * bytes on 0x2E splits the text on '.'.
 */
module Question {
  import opened Wire
  import opened Wrappers

  const DOT: byte := 0x2E
  const QTYPE_A: u16 := 1
  const QCLASS_IN: u16 := 1

  type Label = seq<byte>

  /** A question as the source stores it: its labels, always present after `New`. */
  datatype Question = Question(labels: Option<seq<Label>>)

  /** The parts of `parts` with `sep` between consecutive ones. */
  function Join(parts: seq<Label>, sep: byte): seq<byte>
  {
    if |parts| == 0 then []
    else if |parts| == 1 then parts[0]
    else parts[0] + [sep] + Join(parts[1..], sep)
  }

  /** How many times `b` occurs in `s`. */
  function Occurrences(s: seq<byte>, b: byte): nat
  {
    if |s| == 0 then 0 else (if s[0] == b then 1 else 0) + Occurrences(s[1..], b)
  }

  /**
   * Rust's `str::split` on one separator: the maximal runs between
   * separators, empty runs included, so there is always one more part than
   * there are separators.
   */
  function Split(s: seq<byte>, sep: byte): (r: seq<Label>)
    ensures |r| >= 1
    decreases |s|
  {
    if |s| == 0 then [[]]
    else
      var rest := Split(s[1..], sep);
      if s[0] == sep then [[]] + rest
      else [[s[0]] + rest[0]] + rest[1..]
  }

  /**
   * The parts of `Split` hold no separator and joined with the separator give
   * back the input; there is one part more than there are separators.
   */
  lemma {:induction false} SplitParts(s: seq<byte>, sep: byte)
    ensures |Split(s, sep)| == Occurrences(s, sep) + 1
    ensures forall i :: 0 <= i < |Split(s, sep)| ==> sep !in Split(s, sep)[i]
    ensures Join(Split(s, sep), sep) == s
    decreases |s|
  {
    if |s| > 0 {
      SplitParts(s[1..], sep);
      var rest := Split(s[1..], sep);
      assert s == [s[0]] + s[1..];
      if s[0] == sep {
        assert Split(s, sep) == [[]] + rest;
        assert Join([[]] + rest, sep) == [] + [sep] + Join(rest, sep);
      } else {
        var r := Split(s, sep);
        assert r == [[s[0]] + rest[0]] + rest[1..];
        assert |r| == |rest|;
        if |rest| == 1 {
          assert Join(r, sep) == [s[0]] + rest[0];
        } else {
          assert Join(rest, sep) == rest[0] + [sep] + Join(rest[1..], sep);
          assert r[1..] == rest[1..];
          assert Join(r, sep) == ([s[0]] + rest[0]) + [sep] + Join(rest[1..], sep);
        }
        forall i | 0 <= i < |r| ensures sep !in r[i] {
          if i > 0 { assert r[i] == rest[i]; }
        }
      }
    }
  }

  /** Rust's `rev().collect()`: the elements of `s` in reverse order. */
  function Reverse<T>(s: seq<T>): (r: seq<T>)
    ensures |r| == |s|
    ensures forall i :: 0 <= i < |s| ==> r[i] == s[|s| - 1 - i]
  {
    if |s| == 0 then [] else Reverse(s[1..]) + [s[0]]
  }

  lemma ReverseReverse<T>(s: seq<T>)
    ensures Reverse(Reverse(s)) == s
  {
  }

  /**
   * `Question::new`: the labels are the '.'-separated components of the
   * query, empty ones included, in reverse order.
   */
  function New(query: seq<byte>): (q: Question)
    ensures q.labels.Some?
    ensures |q.labels.value| == Occurrences(query, DOT) + 1
    ensures forall i :: 0 <= i < |q.labels.value| ==> DOT !in q.labels.value[i]
    ensures Join(Reverse(q.labels.value), DOT) == query
  {
    var parts := Split(query, DOT);
    SplitParts(query, DOT);
    ReverseReverse(parts);
    Question(Some(Reverse(parts)))
  }

  /** Splitting the bytes that `Join` produced gives back the parts, when no part holds the separator. */
  lemma {:induction false} SplitJoin(parts: seq<Label>, sep: byte)
    requires |parts| >= 1
    requires forall i :: 0 <= i < |parts| ==> sep !in parts[i]
    ensures Split(Join(parts, sep), sep) == parts
    decreases |parts|
  {
    if |parts| == 1 {
      SplitPrefix(parts[0], [], sep);
      assert parts[0] + [] == parts[0];
    } else {
      var tail := Join(parts[1..], sep);
      assert Join(parts, sep) == parts[0] + ([sep] + tail);
      SplitPrefix(parts[0], [sep] + tail, sep);
      assert ([sep] + tail)[0] == sep && ([sep] + tail)[1..] == tail;
      SplitJoin(parts[1..], sep);
      assert Split([sep] + tail, sep) == [[]] + parts[1..];
      assert parts[0] + [] == parts[0];
      assert parts == [parts[0]] + parts[1..];
    }
  }

  /** A separator-free prefix becomes the front of the first part. */
  lemma {:induction false} SplitPrefix(a: seq<byte>, t: seq<byte>, sep: byte)
    requires sep !in a
    ensures Split(a + t, sep) == [a + Split(t, sep)[0]] + Split(t, sep)[1..]
    decreases |a|
  {
    if |a| == 0 {
      var s := Split(t, sep);
      assert a + t == t && [] + s[0] == s[0];
      assert s == [s[0]] + s[1..];
    } else {
      var s := Split(t, sep);
      assert (a + t)[0] == a[0] && (a + t)[1..] == a[1..] + t;
      SplitPrefix(a[1..], t, sep);
      var rest := Split(a[1..] + t, sep);
      assert rest == [a[1..] + s[0]] + s[1..];
      assert Split(a + t, sep) == [[a[0]] + rest[0]] + rest[1..];
      assert [a[0]] + (a[1..] + s[0]) == a + s[0];
    }
  }

  /**
   * The labels `New` stores are the only ones that fit its description: any
   * non-empty list of dot-free labels whose reverse joins to the query is them.
   */
  lemma NewLabelsUnique(query: seq<byte>, labels: seq<Label>)
    requires |labels| >= 1
    requires forall i :: 0 <= i < |labels| ==> DOT !in labels[i]
    requires Join(Reverse(labels), DOT) == query
    ensures New(query).labels == Some(labels)
  {
    SplitJoin(Reverse(labels), DOT);
    ReverseReverse(labels);
  }

  /** `label.len() as u8`: the length of the label, truncated modulo 256. */
  function LengthByte(l: Label): (b: byte)
    ensures b as int == |l| % 256
  {
    ToByte(|l| % 256)
  }

  /** Each label as `[length byte][label bytes]`, in list order. */
  function EncodeLabels(labels: seq<Label>): seq<byte>
  {
    if |labels| == 0 then []
    else [LengthByte(labels[0])] + labels[0] + EncodeLabels(labels[1..])
  }

  /** What `as_bytes` returns for `labels`: the labels, a zero byte, then QTYPE and QCLASS. */
  function Encoding(labels: seq<Label>): seq<byte>
  {
    EncodeLabels(labels) + [0] + U16Bytes(QTYPE_A) + U16Bytes(QCLASS_IN)
  }

  /** The number of bytes the labels take: one length byte plus the label bytes each. */
  function LabelsSize(labels: seq<Label>): nat
  {
    if |labels| == 0 then 0 else |labels[0]| + 1 + LabelsSize(labels[1..])
  }

  /** `Question::as_bytes`. */
  method AsBytes(q: Question) returns (r: Option<seq<byte>>)
    ensures r == if q.labels.Some? then Some(Encoding(q.labels.value)) else None
  {
    match q.labels {
      case None =>
        r := None;
      case Some(labels) =>
        var buf: seq<byte> := [];
        for i := 0 to |labels|
          invariant buf == EncodeLabels(labels[..i])
        {
          EncodeLabelsConcat(labels[..i], [labels[i]]);
          assert labels[..i + 1] == labels[..i] + [labels[i]];
          buf := buf + [LengthByte(labels[i])];
          buf := buf + labels[i];
        }
        assert labels[..|labels|] == labels;
        buf := buf + [0];
        var offset := |buf|;
        buf := buf + [0, 0, 0, 0];
        buf := WriteU16(buf, offset, QTYPE_A);
        offset := offset + 2;
        buf := WriteU16(buf, offset, QCLASS_IN);
        assert buf == EncodeLabels(labels) + [0] + U16Bytes(QTYPE_A) + U16Bytes(QCLASS_IN);
        r := Some(buf);
    }
  }

  /** Encoding two label lists one after the other is encoding their concatenation. */
  lemma {:induction false} EncodeLabelsConcat(a: seq<Label>, b: seq<Label>)
    ensures EncodeLabels(a + b) == EncodeLabels(a) + EncodeLabels(b)
    decreases |a|
  {
    if |a| == 0 {
      assert a + b == b;
    } else {
      assert (a + b)[1..] == a[1..] + b;
      EncodeLabelsConcat(a[1..], b);
    }
  }

  lemma {:induction false} EncodeLabelsLength(labels: seq<Label>)
    ensures |EncodeLabels(labels)| == LabelsSize(labels)
    decreases |labels|
  {
    if |labels| > 0 {
      EncodeLabelsLength(labels[1..]);
    }
  }

  /** The output is Σ(label length + 1) bytes of labels, one terminator and four bytes of QTYPE and QCLASS. */
  lemma EncodingLength(labels: seq<Label>)
    ensures |Encoding(labels)| == LabelsSize(labels) + 1 + 4
  {
    EncodeLabelsLength(labels);
  }

  /**
   * Label `i` starts at the offset the labels before it take: there the
   * output holds its length byte, followed by exactly its bytes.
   */
  lemma EncodingLabelAt(labels: seq<Label>, i: nat)
    requires i < |labels|
    ensures var o := LabelsSize(labels[..i]);
      o + 1 + |labels[i]| < |Encoding(labels)| &&
      Encoding(labels)[o] == LengthByte(labels[i]) &&
      Encoding(labels)[o + 1..o + 1 + |labels[i]|] == labels[i]
  {
    var o := LabelsSize(labels[..i]);
    assert labels == labels[..i] + labels[i..];
    EncodeLabelsConcat(labels[..i], labels[i..]);
    EncodeLabelsLength(labels[..i]);
    var rest := EncodeLabels(labels[i..]);
    assert rest == [LengthByte(labels[i])] + labels[i] + EncodeLabels(labels[i + 1..]) by {
      assert labels[i..][1..] == labels[i + 1..];
    }
    var e := Encoding(labels);
    assert e == EncodeLabels(labels[..i]) + rest + [0] + U16Bytes(QTYPE_A) + U16Bytes(QCLASS_IN);
    assert e[o..] == rest + [0] + U16Bytes(QTYPE_A) + U16Bytes(QCLASS_IN);
    assert e[o + 1..o + 1 + |labels[i]|] == e[o..][1..1 + |labels[i]|];
  }

  /** After the labels: one zero byte, then QTYPE = 1 and QCLASS = 1 big-endian, and nothing else. */
  lemma EncodingTrailer(labels: seq<Label>)
    ensures var n := LabelsSize(labels);
      |Encoding(labels)| == n + 5 && Encoding(labels)[n..] == [0, 0, 1, 0, 1]
  {
    EncodeLabelsLength(labels);
    assert U16Bytes(1) == [0, 1];
  }

  /**
   * Reads length-prefixed labels from the start of `b` up to a zero length
   * byte, as section 3.1 of RFC 1035 lays a name out (no compression): the
   * labels read and the index of the terminator, or None when a length is
   * above 63 or runs past the end.
   */
  ghost function ReadLabels(b: seq<byte>): Option<(seq<Label>, nat)>
    decreases |b|
  {
    if |b| == 0 then None
    else if b[0] == 0 then Some(([], 0))
    else if b[0] > 63 then None
    else
      var n := b[0] as int;
      if |b| < 1 + n then None
      else match ReadLabels(b[1 + n..])
        case None => None
        case Some((rest, end)) => Some(([b[1..1 + n]] + rest, 1 + n + end))
  }

  /** A label of 1 to 63 bytes in front of `rest` is read as one label, and reading goes on in `rest`. */
  lemma ReadOneLabel(l: Label, rest: seq<byte>, more: seq<Label>, end: nat)
    requires 1 <= |l| <= 63
    requires ReadLabels(rest) == Some((more, end))
    ensures ReadLabels([LengthByte(l)] + l + rest) == Some(([l] + more, 1 + |l| + end))
  {
    var b := [LengthByte(l)] + l + rest;
    LabelLengthByte(l);
    assert b[0] == LengthByte(l);
    assert b[1..1 + |l|] == l && b[1 + |l|..] == rest;
  }

  lemma LabelLengthByte(l: Label)
    requires 1 <= |l| <= 63
    ensures LengthByte(l) != 0 && !(LengthByte(l) > 63) && LengthByte(l) as int == |l|
  {
    SmallByte(LengthByte(l));
  }

  lemma SmallByte(x: byte)
    requires 1 <= x as int <= 63
    ensures x != 0 && !(x > 63)
  {
  }

  lemma {:induction false} ReadEncodedLabels(labels: seq<Label>, tail: seq<byte>)
    requires forall i :: 0 <= i < |labels| ==> 1 <= |labels[i]| <= 63
    requires |tail| > 0 && tail[0] == 0
    ensures ReadLabels(EncodeLabels(labels) + tail) == Some((labels, LabelsSize(labels)))
    decreases |labels|
  {
    if |labels| == 0 {
      assert EncodeLabels(labels) + tail == tail;
      assert ReadLabels(tail) == Some(([], 0));
    } else {
      ReadEncodedLabels(labels[1..], tail);
      ReadFirstLabel(labels, tail);
    }
  }

  /** The step of `ReadEncodedLabels`: the first label is read, then the encoding of the others. */
  lemma ReadFirstLabel(labels: seq<Label>, tail: seq<byte>)
    requires |labels| > 0 && 1 <= |labels[0]| <= 63
    requires ReadLabels(EncodeLabels(labels[1..]) + tail) == Some((labels[1..], LabelsSize(labels[1..])))
    ensures ReadLabels(EncodeLabels(labels) + tail) == Some((labels, LabelsSize(labels)))
  {
    var l := labels[0];
    var rest := EncodeLabels(labels[1..]) + tail;
    assert EncodeLabels(labels) + tail == [LengthByte(l)] + l + rest;
    ReadOneLabel(l, rest, labels[1..], LabelsSize(labels[1..]));
    assert labels == [l] + labels[1..];
  }

  /**
   * When every label is 1 to 63 bytes long, scanning the output from index 0
   * by its length bytes recovers exactly the label list and stops at the
   * terminator.
   */
  lemma ScanRecoversLabels(labels: seq<Label>)
    requires forall i :: 0 <= i < |labels| ==> 1 <= |labels[i]| <= 63
    ensures ReadLabels(Encoding(labels)) == Some((labels, LabelsSize(labels)))
  {
    var tail := [0 as byte] + U16Bytes(QTYPE_A) + U16Bytes(QCLASS_IN);
    assert Encoding(labels) == EncodeLabels(labels) + tail;
    ReadEncodedLabels(labels, tail);
  }

  /**
   * A query whose every '.'-separated component is 1 to 63 bytes long can be
   * read back from its encoding: scanning recovers the stored labels, and
   * joining them in reverse order with '.' gives the query.
   */
  lemma QueryRoundTrip(query: seq<byte>)
    requires forall i :: 0 <= i < |Split(query, DOT)| ==> 1 <= |Split(query, DOT)[i]| <= 63
    ensures var labels := New(query).labels.value;
      ReadLabels(Encoding(labels)) == Some((labels, LabelsSize(labels))) &&
      Join(Reverse(labels), DOT) == query
  {
    var parts := Split(query, DOT);
    var labels := New(query).labels.value;
    assert forall i :: 0 <= i < |labels| ==> labels[i] == parts[|parts| - 1 - i];
    ScanRecoversLabels(labels);
  }

  /** "www.icann.org" in ASCII, and its three labels. */
  const WWW_ICANN_ORG: seq<byte> :=
    [0x77, 0x77, 0x77, DOT, 0x69, 0x63, 0x61, 0x6E, 0x6E, DOT, 0x6F, 0x72, 0x67]
  const WWW: Label := [0x77, 0x77, 0x77]
  const ICANN: Label := [0x69, 0x63, 0x61, 0x6E, 0x6E]
  const ORG: Label := [0x6F, 0x72, 0x67]

  lemma IcannLabels()
    ensures New(WWW_ICANN_ORG).labels == Some([ORG, ICANN, WWW])
  {
    assert Join([ICANN, ORG], DOT) == ICANN + [DOT] + ORG;
    assert WWW_ICANN_ORG == Join([WWW, ICANN, ORG], DOT);
    assert Reverse([ORG, ICANN, WWW]) == [WWW, ICANN, ORG];
    NewLabelsUnique(WWW_ICANN_ORG, [ORG, ICANN, WWW]);
  }

  lemma IcannBytes()
    ensures Encoding([ORG, ICANN, WWW]) ==
      [3, 0x6F, 0x72, 0x67, 5, 0x69, 0x63, 0x61, 0x6E, 0x6E, 3, 0x77, 0x77, 0x77, 0, 0, 1, 0, 1]
  {
    var labels := [ORG, ICANN, WWW];
    assert LengthByte(ORG) == 3 && LengthByte(ICANN) == 5 && LengthByte(WWW) == 3;
    assert EncodeLabels(labels[2..]) == [3] + WWW by {
      assert labels[2..][1..] == [];
    }
    assert EncodeLabels(labels[1..]) == [5] + ICANN + [3] + WWW by {
      assert labels[1..][1..] == labels[2..];
    }
    assert EncodeLabels(labels) == [3] + ORG + [5] + ICANN + [3] + WWW;
    assert U16Bytes(1) == [0, 1];
  }

  /** "www.icann.org" is encoded with its labels reversed: 03 org 05 icann 03 www 00 00 01 00 01. */
  lemma IcannExample()
    ensures Encoding(New(WWW_ICANN_ORG).labels.value) ==
      [3, 0x6F, 0x72, 0x67, 5, 0x69, 0x63, 0x61, 0x6E, 0x6E, 3, 0x77, 0x77, 0x77, 0, 0, 1, 0, 1]
  {
    IcannLabels();
    IcannBytes();
  }
}
