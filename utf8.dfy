/** Well-formed UTF-8 as defined by RFC 3629: the encoding of one scalar
    value (section 3), the byte-sequence syntax (section 4), the decoder
    that inverts the encoder, and the character-boundary facts the
    fixed-capacity string relies on. */
module Utf8 {

  /** One byte of a buffer, the element type of Rust's `[u8]`. */
  type Byte = b: int | 0 <= b < 0x100

  /** A Unicode scalar value, which is what a Rust `char` holds: a code point
      up to U+10FFFF that is not a surrogate (U+D800..U+DFFF). */
  type Scalar = c: int | 0 <= c <= 0x10FFFF && !(0xD800 <= c <= 0xDFFF)

  /** `UTF8-tail` of section 4 of RFC 3629: a byte of the form 10xxxxxx. */
  predicate IsTail(b: Byte) {
    0x80 <= b <= 0xBF
  }

  /** True unless `b` is a continuation byte: an ASCII byte or a leading byte. */
  function StartsWellFormedUtf8Sequence(b: Byte): (r: bool)
    ensures r <==> !IsTail(b)
    ensures r <==> (b < 128 || b >= 192)
  {
    !(128 <= b < 192)
  }

  /** Number of bytes in the UTF-8 encoding of `c` (Rust's `char::len_utf8`). */
  function EncodedLength(c: Scalar): (n: nat)
    ensures 1 <= n <= 4
    ensures n == 1 <==> c < 0x80
    ensures n == 4 <==> c >= 0x10000
  {
    if c < 0x80 then 1
    else if c < 0x800 then 2
    else if c < 0x10000 then 3
    else 4
  }

  /** The continuation byte carrying the low six bits of `x`. */
  function Tail(x: nat): (b: Byte)
    ensures IsTail(b)
  {
    0x80 + x % 0x40
  }

  /** The UTF-8 encoding of one scalar value (section 3 of RFC 3629). */
  function Encode(c: Scalar): (r: seq<Byte>)
    ensures |r| == EncodedLength(c)
  {
    if c < 0x80 then [c as Byte]
    else if c < 0x800 then [(0xC0 + c / 0x40) as Byte, Tail(c)]
    else if c < 0x10000 then
      [(0xE0 + c / 0x1000) as Byte, Tail(c / 0x40), Tail(c)]
    else
      [(0xF0 + c / 0x40000) as Byte, Tail(c / 0x1000), Tail(c / 0x40), Tail(c)]
  }

  /** Length of a sequence led by byte `b` according to the syntax of
      section 4 of RFC 3629, or 0 when no well-formed sequence starts with `b`. */
  function LeadLength(b: Byte): (n: nat)
    ensures n <= 4
  {
    if b <= 0x7F then 1
    else if 0xC2 <= b <= 0xDF then 2
    else if 0xE0 <= b <= 0xEF then 3
    else if 0xF0 <= b <= 0xF4 then 4
    else 0
  }

  /** The range section 4 of RFC 3629 allows for the second byte after lead
      `b`: narrower than `UTF8-tail` after E0, ED, F0 and F4, which rules
      out overlong forms, surrogates and values past U+10FFFF. */
  predicate SecondInRange(b: Byte, x: Byte) {
    if b == 0xE0 then 0xA0 <= x <= 0xBF
    else if b == 0xED then 0x80 <= x <= 0x9F
    else if b == 0xF0 then 0x90 <= x <= 0xBF
    else if b == 0xF4 then 0x80 <= x <= 0x8F
    else IsTail(x)
  }

  /** Length of the well-formed sequence `UTF8-char` (section 4 of RFC 3629)
      that `s` starts with, or 0 when `s` does not start with one. */
  function SequenceLength(s: seq<Byte>): (k: nat)
    ensures k <= |s| && k <= 4
    ensures k > 0 ==> StartsWellFormedUtf8Sequence(s[0])
    ensures forall j :: 0 < j < k ==> IsTail(s[j])
  {
    if |s| == 0 then 0
    else
      var n := LeadLength(s[0]);
      if n <= |s| && (n < 2 || SecondInRange(s[0], s[1])) &&
         (n < 3 || IsTail(s[2])) && (n < 4 || IsTail(s[3]))
      then n else 0
  }

  /** `UTF8-octets` of section 4 of RFC 3629: a concatenation of well-formed sequences. */
  predicate ValidUtf8(s: seq<Byte>)
    decreases |s|
  {
    |s| == 0 || (SequenceLength(s) > 0 && ValidUtf8(s[SequenceLength(s)..]))
  }

  /** The six payload bits of a continuation byte. */
  function Bits(b: Byte): (x: int)
    requires IsTail(b)
    ensures 0 <= x < 0x40 && Tail(x) == b
  {
    b as int - 0x80
  }

  /** The scalar value encoded by the sequence `s` starts with. */
  function DecodeSequence(s: seq<Byte>): (c: Scalar)
    requires SequenceLength(s) > 0
    ensures EncodedLength(c) == SequenceLength(s)
  {
    var k := SequenceLength(s);
    if k == 1 then s[0]
    else if k == 2 then (s[0] as int - 0xC0) * 0x40 + Bits(s[1])
    else if k == 3 then (s[0] as int - 0xE0) * 0x1000 + Bits(s[1]) * 0x40 + Bits(s[2])
    else (s[0] as int - 0xF0) * 0x40000 + Bits(s[1]) * 0x1000 + Bits(s[2]) * 0x40 + Bits(s[3])
  }

  /** The UTF-8 encoding of a sequence of scalar values. */
  function EncodeString(cs: seq<Scalar>): seq<Byte>
  {
    if cs == [] then [] else Encode(cs[0]) + EncodeString(cs[1..])
  }

  /** The scalar values a well-formed byte sequence encodes. */
  function DecodeString(s: seq<Byte>): seq<Scalar>
    requires ValidUtf8(s)
    decreases |s|
  {
    if |s| == 0 then [] else [DecodeSequence(s)] + DecodeString(s[SequenceLength(s)..])
  }

  /** Quotient and remainder of `x` by 0x40, 0x1000 and 0x40000, from a
      decomposition of `x`. */
  lemma DivMod(x: int, q: int, r: int)
    requires 0 <= r < 0x40 && x == q * 0x40 + r
    ensures x / 0x40 == q && x % 0x40 == r
  {
  }

  lemma DivMod12(x: int, q: int, r: int)
    requires 0 <= r < 0x1000 && x == q * 0x1000 + r
    ensures x / 0x1000 == q
  {
  }

  lemma DivMod18(x: int, q: int, r: int)
    requires 0 <= r < 0x40000 && x == q * 0x40000 + r
    ensures x / 0x40000 == q
  {
  }

  /** The encoding of a scalar value is a single well-formed sequence that
      decodes back to that value. */
  lemma DecodeEncode(c: Scalar)
    ensures SequenceLength(Encode(c)) == |Encode(c)|
    ensures ValidUtf8(Encode(c))
    ensures DecodeSequence(Encode(c)) == c
  {
    var r := Encode(c);
    if c < 0x80 {
    } else if c < 0x800 {
      DecodeEncode2(c);
    } else if c < 0x10000 {
      DecodeEncode3(c);
    } else {
      DecodeEncode4(c);
    }
    assert r[|r|..] == [];
  }

  lemma DecodeEncode2(c: Scalar)
    requires 0x80 <= c < 0x800
    ensures SequenceLength(Encode(c)) == 2 && DecodeSequence(Encode(c)) == c
  {
    var a, e := c / 0x40, c % 0x40;
    var r := Encode(c);
    assert r[0] == 0xC0 + a && r[1] == Tail(c) == 0x80 + e;
    assert 2 <= a < 0x20;
  }

  lemma DecodeEncode3(c: Scalar)
    requires 0x800 <= c < 0x10000
    ensures SequenceLength(Encode(c)) == 3 && DecodeSequence(Encode(c)) == c
  {
    var q, e := c / 0x40, c % 0x40;
    var a, b := q / 0x40, q % 0x40;
    DivMod12(c, a, b * 0x40 + e);
    var r := Encode(c);
    assert r[0] == 0xE0 + a && r[1] == 0x80 + b && r[2] == 0x80 + e;
    assert a == 0 ==> b >= 0x20;
    assert a == 0xD ==> b < 0x20;
  }

  lemma DecodeEncode4(c: Scalar)
    requires 0x10000 <= c
    ensures SequenceLength(Encode(c)) == 4 && DecodeSequence(Encode(c)) == c
  {
    var q, e := c / 0x40, c % 0x40;
    var q', d := q / 0x40, q % 0x40;
    var a, b := q' / 0x40, q' % 0x40;
    DivMod12(c, q', d * 0x40 + e);
    DivMod18(c, a, b * 0x1000 + d * 0x40 + e);
    var r := Encode(c);
    assert r[0] == 0xF0 + a && r[1] == 0x80 + b && r[2] == 0x80 + d && r[3] == 0x80 + e;
    assert a == 0 ==> b >= 0x10;
    assert a == 4 ==> b < 0x10;
  }

  /** Decoding a well-formed sequence and encoding the result gives back
      exactly the bytes of that sequence. */
  lemma EncodeDecode(s: seq<Byte>)
    requires SequenceLength(s) > 0
    ensures Encode(DecodeSequence(s)) == s[..SequenceLength(s)]
  {
    var k, c := SequenceLength(s), DecodeSequence(s);
    if k == 2 {
      DivMod(c, s[0] - 0xC0, Bits(s[1]));
    } else if k == 3 {
      var a := s[0] - 0xE0;
      DivMod(c, a * 0x40 + Bits(s[1]), Bits(s[2]));
      DivMod(c / 0x40, a, Bits(s[1]));
      DivMod12(c, a, Bits(s[1]) * 0x40 + Bits(s[2]));
    } else if k == 4 {
      var a := s[0] - 0xF0;
      var q := a * 0x40 + Bits(s[1]);
      DivMod(c, q * 0x40 + Bits(s[2]), Bits(s[3]));
      DivMod(c / 0x40, q, Bits(s[2]));
      DivMod12(c, q, Bits(s[2]) * 0x40 + Bits(s[3]));
      DivMod(q, a, Bits(s[1]));
      DivMod18(c, a, Bits(s[1]) * 0x1000 + Bits(s[2]) * 0x40 + Bits(s[3]));
    }
  }

  /** `SequenceLength` and `DecodeSequence` only look at the bytes of the
      sequence itself, so any other text with the same leading bytes starts
      with the same sequence. */
  lemma SamePrefix(s: seq<Byte>, t: seq<Byte>)
    requires SequenceLength(s) > 0
    requires SequenceLength(s) <= |t| && t[..SequenceLength(s)] == s[..SequenceLength(s)]
    ensures SequenceLength(t) == SequenceLength(s)
    ensures DecodeSequence(t) == DecodeSequence(s)
  {
    var k := SequenceLength(s);
    assert forall j :: 0 <= j < k ==> t[j] == t[..k][j] == s[..k][j] == s[j];
  }

  /** The concatenation of two well-formed texts is well-formed. */
  lemma {:induction false} ConcatValid(a: seq<Byte>, b: seq<Byte>)
    requires ValidUtf8(a) && ValidUtf8(b)
    ensures ValidUtf8(a + b)
    decreases |a|
  {
    if |a| > 0 {
      var k := SequenceLength(a);
      assert (a + b)[..k] == a[..k];
      SamePrefix(a, a + b);
      ConcatValid(a[k..], b);
      assert (a + b)[k..] == a[k..] + b;
    } else {
      assert a + b == b;
    }
  }

  /** Every sequence of scalar values encodes to well-formed UTF-8. */
  lemma {:induction false} EncodeStringValid(cs: seq<Scalar>)
    ensures ValidUtf8(EncodeString(cs))
  {
    if cs != [] {
      DecodeEncode(cs[0]);
      EncodeStringValid(cs[1..]);
      ConcatValid(Encode(cs[0]), EncodeString(cs[1..]));
    }
  }

  /** Decoding inverts encoding on sequences of scalar values. */
  lemma {:induction false} DecodeEncodeString(cs: seq<Scalar>)
    ensures ValidUtf8(EncodeString(cs)) && DecodeString(EncodeString(cs)) == cs
  {
    EncodeStringValid(cs);
    if cs != [] {
      var e, rest := Encode(cs[0]), EncodeString(cs[1..]);
      DecodeEncode(cs[0]);
      assert (e + rest)[..|e|] == e[..|e|];
      SamePrefix(e, e + rest);
      assert (e + rest)[|e|..] == rest;
      DecodeEncodeString(cs[1..]);
    }
  }

  /** Encoding inverts decoding on well-formed UTF-8: every well-formed text
      is the encoding of some sequence of scalar values. */
  lemma {:induction false} EncodeDecodeString(s: seq<Byte>)
    requires ValidUtf8(s)
    ensures EncodeString(DecodeString(s)) == s
    decreases |s|
  {
    if |s| > 0 {
      var k := SequenceLength(s);
      var cs := DecodeString(s);
      assert cs == [DecodeSequence(s)] + DecodeString(s[k..]);
      assert cs[0] == DecodeSequence(s) && cs[1..] == DecodeString(s[k..]);
      EncodeDecode(s);
      EncodeDecodeString(s[k..]);
      assert EncodeString(cs) == Encode(cs[0]) + EncodeString(cs[1..]);
      assert s == s[..k] + s[k..];
    }
  }

  /** In a well-formed text the first sequence ends at or before every
      later position whose byte starts a sequence. */
  lemma FirstSequenceEnds(s: seq<Byte>, i: nat)
    requires ValidUtf8(s) && 0 < i <= |s|
    requires i == |s| || StartsWellFormedUtf8Sequence(s[i])
    ensures 0 < SequenceLength(s) <= i && ValidUtf8(s[SequenceLength(s)..])
  {
  }

  /** A well-formed text may be cut at every position whose byte starts a
      sequence (or at its end), and both halves are well-formed. */
  lemma SplitAtBoundary(s: seq<Byte>, i: nat)
    requires ValidUtf8(s) && i <= |s|
    requires i == |s| || StartsWellFormedUtf8Sequence(s[i])
    ensures ValidUtf8(s[..i]) && ValidUtf8(s[i..])
  {
    PrefixValid(s, i);
    SuffixValid(s, i);
  }

  lemma {:induction false} PrefixValid(s: seq<Byte>, i: nat)
    requires ValidUtf8(s) && i <= |s|
    requires i == |s| || StartsWellFormedUtf8Sequence(s[i])
    ensures ValidUtf8(s[..i])
    decreases |s|
  {
    if i > 0 {
      FirstSequenceEnds(s, i);
      var k := SequenceLength(s);
      var rest := s[k..];
      PrefixValid(rest, i - k);
      var prefix := s[..i];
      assert prefix[..k] == s[..k];
      SamePrefix(s, prefix);
      assert prefix[k..] == rest[..i - k];
    }
  }

  lemma {:induction false} SuffixValid(s: seq<Byte>, i: nat)
    requires ValidUtf8(s) && i <= |s|
    requires i == |s| || StartsWellFormedUtf8Sequence(s[i])
    ensures ValidUtf8(s[i..])
    decreases |s|
  {
    if i == 0 {
      assert s[0..] == s;
    } else {
      FirstSequenceEnds(s, i);
      var k := SequenceLength(s);
      SuffixValid(s[k..], i - k);
      assert s[k..][i - k..] == s[i..];
    }
  }

  /** Inside a well-formed text, a byte starts a sequence exactly when the
      text splits there into two well-formed halves (a character boundary). */
  lemma CharBoundary(s: seq<Byte>, i: nat)
    requires ValidUtf8(s) && i < |s|
    ensures StartsWellFormedUtf8Sequence(s[i]) <==> ValidUtf8(s[..i]) && ValidUtf8(s[i..])
  {
    if StartsWellFormedUtf8Sequence(s[i]) {
      SplitAtBoundary(s, i);
    }
  }

  /** In a well-formed text no run of continuation bytes is longer than
      three: within the four positions ending at `i` some byte starts a sequence. */
  lemma {:induction false} NearbyStart(s: seq<Byte>, i: nat) returns (j: nat)
    requires ValidUtf8(s) && i < |s|
    ensures j <= i < j + 4 && StartsWellFormedUtf8Sequence(s[j])
    decreases |s|
  {
    var k := SequenceLength(s);
    if i < k {
      j := 0;
    } else {
      var j' := NearbyStart(s[k..], i - k);
      j := j' + k;
      assert s[k..][j'] == s[j];
    }
  }

  /** Text made only of ASCII bytes is well-formed. */
  lemma {:induction false} AsciiValid(s: seq<Byte>)
    requires forall i :: 0 <= i < |s| ==> s[i] < 0x80
    ensures ValidUtf8(s)
    decreases |s|
  {
    if |s| > 0 {
      AsciiValid(s[1..]);
    }
  }
}
