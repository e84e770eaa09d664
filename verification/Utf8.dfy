/** Section 3 of RFC 3629: text is valid exactly when it is the encoding of some characters. This
    says what utf8.Valid, with its ranges of leading and following bytes, comes to. */
module Utf8 {
  import opened Words
  import opened Payloads

  /** A Unicode scalar value: a code point that is no surrogate. */
  predicate IsScalar(c: bv32) { c < 0xD800 || (0xE000 <= c && c <= 0x10_FFFF) }

  function Low(c: bv32): Byte { (c & 0xFF) as Byte }

  /** The leading byte, and six more bits. */
  function Lead(mark: bv32, c: bv32, shift: bv5): Byte { Low(mark | (c >> shift)) }

  function Six(c: bv32, shift: bv5): Byte { Low(0x80 | ((c >> shift) & 0x3F)) }

  function Encoded(c: bv32): seq<Byte> {
    if c < 0x80 then [Low(c)]
    else if c < 0x800 then [Lead(0xC0, c, 6), Six(c, 0)]
    else if c < 0x1_0000 then [Lead(0xE0, c, 12), Six(c, 6), Six(c, 0)]
    else [Lead(0xF0, c, 18), Six(c, 12), Six(c, 6), Six(c, 0)]
  }

  function EncodedAll(cs: seq<bv32>): seq<Byte> {
    if cs == [] then [] else Encoded(cs[0]) + EncodedAll(cs[1..])
  }

  // ---------------------------------------------------------------- one character, in bits

  lemma OneByte(c: bv32)
    requires c < 0x80
    ensures Low(c) < 0x80
  {
  }

  lemma TwoBytes(c: bv32)
    requires 0x80 <= c && c < 0x800
    ensures In(Lead(0xC0, c, 6), 0xC2, 0xDF) && Tail(Six(c, 0))
  {
  }

  lemma ThreeBytes(c: bv32)
    requires 0x800 <= c && c < 0x1_0000 && IsScalar(c)
    ensures var b0, b1 := Lead(0xE0, c, 12), Six(c, 6);
      In(b0, 0xE0, 0xEF) && Second(b0, b1) && Tail(Six(c, 0))
  {
  }

  lemma FourBytes(c: bv32)
    requires 0x1_0000 <= c && c <= 0x10_FFFF
    ensures var b0, b1 := Lead(0xF0, c, 18), Six(c, 12);
      In(b0, 0xF0, 0xF4) && Second(b0, b1) && Tail(Six(c, 6)) && Tail(Six(c, 0))
  {
  }

  function Wide(b: Byte): bv32 { b as bv32 }

  function From2(a: Byte, b: Byte): bv32 { ((Wide(a) & 0x1F) << 6) | (Wide(b) & 0x3F) }

  function From3(a: Byte, b: Byte, c: Byte): bv32 {
    ((Wide(a) & 0x0F) << 12) | ((Wide(b) & 0x3F) << 6) | (Wide(c) & 0x3F)
  }

  function From4(a: Byte, b: Byte, c: Byte, d: Byte): bv32 {
    ((Wide(a) & 0x07) << 18) | ((Wide(b) & 0x3F) << 12) | ((Wide(c) & 0x3F) << 6) | (Wide(d) & 0x3F)
  }

  lemma Decoded1(a: Byte)
    requires a < 0x80
    ensures Wide(a) < 0x80 && Low(Wide(a)) == a
  {
  }

  lemma Decoded2(a: Byte, b: Byte)
    requires In(a, 0xC2, 0xDF) && Tail(b)
    ensures var c := From2(a, b); 0x80 <= c && c < 0x800 && Lead(0xC0, c, 6) == a && Six(c, 0) == b
  {
  }

  lemma Decoded3(a: Byte, b: Byte, d: Byte)
    requires In(a, 0xE0, 0xEF) && Second(a, b) && Tail(d)
    ensures var c := From3(a, b, d);
      && 0x800 <= c && c < 0x1_0000 && IsScalar(c)
      && Lead(0xE0, c, 12) == a && Six(c, 6) == b && Six(c, 0) == d
  {
  }

  lemma Decoded4(a: Byte, b: Byte, d: Byte, e: Byte)
    requires In(a, 0xF0, 0xF4) && Second(a, b) && Tail(d) && Tail(e)
    ensures var c := From4(a, b, d, e);
      && 0x1_0000 <= c && c <= 0x10_FFFF
      && Lead(0xF0, c, 18) == a && Six(c, 12) == b && Six(c, 6) == d && Six(c, 0) == e
  {
  }

  /** Leading bytes tell the lengths apart. */
  lemma Leads(b: Byte)
    ensures b < 0x80 ==> !In(b, 0xC2, 0xDF) && !In(b, 0xE0, 0xEF) && !In(b, 0xF0, 0xF4)
    ensures In(b, 0xC2, 0xDF) ==> !(b < 0x80) && !In(b, 0xE0, 0xEF) && !In(b, 0xF0, 0xF4)
    ensures In(b, 0xE0, 0xEF) ==> !(b < 0x80) && !In(b, 0xC2, 0xDF) && !In(b, 0xF0, 0xF4)
    ensures In(b, 0xF0, 0xF4) ==> !(b < 0x80) && !In(b, 0xC2, 0xDF) && !In(b, 0xE0, 0xEF)
  {
  }

  /** And so do the ranges of the code points. */
  lemma Ranges(c: bv32)
    ensures IsScalar(c) ==> c <= 0x10_FFFF
    ensures c < 0x80 || (0x80 <= c && c < 0x800) || (0x800 <= c && c < 0x1_0000) || 0x1_0000 <= c
    ensures 0x80 <= c ==> !(c < 0x80)
    ensures 0x800 <= c ==> !(c < 0x80) && !(c < 0x800)
    ensures 0x1_0000 <= c ==> !(c < 0x80) && !(c < 0x800) && !(c < 0x1_0000)
    ensures c < 0x800 || (0x1_0000 <= c && c <= 0x10_FFFF) ==> IsScalar(c)
  {
  }

  // ---------------------------------------------------------------- one character, in sequences

  /** The encoding of a scalar value is read as one character. */
  lemma EncodedIsRune(c: bv32, t: seq<Byte>)
    requires IsScalar(c)
    ensures RuneLen(Encoded(c) + t) == |Encoded(c)| > 0
  {
    hide In, Tail, Second, Lead, Six, Low, IsScalar;
    var s := Encoded(c) + t;
    Ranges(c);
    Leads(s[0]);
    if c < 0x80 {
      OneByte(c);
    } else if c < 0x800 {
      TwoBytes(c);
    } else if c < 0x1_0000 {
      ThreeBytes(c);
    } else {
      FourBytes(c);
    }
  }

  /** Whatever is read as one character is the encoding of a scalar value. */
  lemma RuneIsEncoded(s: seq<Byte>) returns (c: bv32)
    requires RuneLen(s) > 0
    ensures IsScalar(c) && Encoded(c) == s[..RuneLen(s)]
  {
    hide In, Tail, Second, Lead, Six, Low, IsScalar, From2, From3, From4, Wide;
    Leads(s[0]);
    if RuneLen(s) == 1 {
      c := Wide(s[0]);
      Decoded1(s[0]);
    } else if RuneLen(s) == 2 {
      c := From2(s[0], s[1]);
      Decoded2(s[0], s[1]);
    } else if RuneLen(s) == 3 {
      c := From3(s[0], s[1], s[2]);
      Decoded3(s[0], s[1], s[2]);
    } else {
      c := From4(s[0], s[1], s[2], s[3]);
      Decoded4(s[0], s[1], s[2], s[3]);
    }
    Ranges(c);
  }

  // ---------------------------------------------------------------- text

  ghost predicate AllScalar(cs: seq<bv32>) { forall i :: 0 <= i < |cs| ==> IsScalar(cs[i]) }

  lemma {:induction false} EncodedIsValid(cs: seq<bv32>)
    requires AllScalar(cs)
    ensures ValidUtf8(EncodedAll(cs))
    decreases |cs|
  {
    hide Encoded, IsScalar, RuneLen;
    if cs != [] {
      var rest := EncodedAll(cs[1..]);
      assert IsScalar(cs[0]);
      EncodedIsRune(cs[0], rest);
      EncodedIsValid(cs[1..]);
      assert (Encoded(cs[0]) + rest)[|Encoded(cs[0])|..] == rest;
    }
  }

  lemma {:induction false} ValidIsEncoded(s: seq<Byte>) returns (cs: seq<bv32>)
    requires ValidUtf8(s)
    ensures AllScalar(cs) && EncodedAll(cs) == s
    decreases |s|
  {
    hide Encoded, IsScalar, RuneLen;
    if s == [] {
      cs := [];
    } else {
      var n := RuneLen(s);
      var c := RuneIsEncoded(s);
      var more := ValidIsEncoded(s[n..]);
      cs := [c] + more;
      assert cs[1..] == more;
      assert s == s[..n] + s[n..];
    }
  }

  /** Text passes the check if and only if it is the encoding of a sequence of scalar values: no
      surrogates, no overlong forms, nothing beyond U+10FFFF, and nothing cut off. */
  lemma ValidIffEncodesScalars(s: seq<Byte>)
    ensures ValidUtf8(s) <==> exists cs :: AllScalar(cs) && EncodedAll(cs) == s
  {
    hide ValidUtf8, AllScalar, EncodedAll;
    if ValidUtf8(s) {
      var cs := ValidIsEncoded(s);
    } else {
      forall cs | AllScalar(cs)
        ensures EncodedAll(cs) != s
      {
        EncodedIsValid(cs);
      }
    }
  }

  /** internal.CheckEncoding asks that of text and close payloads alone, and only if enabled. */
  lemma EncodingOkIff(enabled: bool, opcode: Byte, payload: seq<Byte>)
    ensures EncodingOk(enabled, opcode, payload)
       <==> !enabled || opcode !in {1, 8} || exists cs :: AllScalar(cs) && EncodedAll(cs) == payload
  {
    hide ValidUtf8, AllScalar, EncodedAll;
    ValidIffEncodesScalars(payload);
  }
}
