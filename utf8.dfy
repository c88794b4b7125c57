/**
 * UTF-8 well-formedness after the syntax of section 4 of RFC 3629 (the
 * encoding of section 3 without overlong forms, surrogates or values above
 * U+10FFFF), which is what `String::from_utf8` accepts.
 */
module Utf8 {
  import opened Common

  /** A continuation byte, `%x80-BF`. */
  predicate IsTail(b: byte) {
    0x80 <= b <= 0xBF
  }

  /**
   * The length of the well-formed character that starts `s`, or 0 when `s`
   * does not start with one.
   */
  function CharWidth(s: seq<byte>): (n: nat)
    requires |s| > 0
    ensures n <= 4 && n <= |s|
  {
    var b := s[0];
    if b <= 0x7F then 1
    else if 0xC2 <= b <= 0xDF then
      if |s| >= 2 && IsTail(s[1]) then 2 else 0
    else if 0xE0 <= b <= 0xEF then
      var lo := if b == 0xE0 then 0xA0 else 0x80;
      var hi := if b == 0xED then 0x9F else 0xBF;
      if |s| >= 3 && lo <= s[1] <= hi && IsTail(s[2]) then 3 else 0
    else if 0xF0 <= b <= 0xF4 then
      var lo := if b == 0xF0 then 0x90 else 0x80;
      var hi := if b == 0xF4 then 0x8F else 0xBF;
      if |s| >= 4 && lo <= s[1] <= hi && IsTail(s[2]) && IsTail(s[3]) then 4 else 0
    else 0
  }

  /** `s` is a sequence of well-formed UTF-8 characters. */
  predicate Valid(s: seq<byte>)
    decreases |s|
  {
    s == [] || (CharWidth(s) > 0 && Valid(s[CharWidth(s)..]))
  }

  /** A Unicode scalar value: a code point that is not a surrogate. */
  predicate IsScalarValue(cp: nat) {
    cp <= 0x10FFFF && !(0xD800 <= cp <= 0xDFFF)
  }

  /** The UTF-8 encoding of one scalar value (section 3 of RFC 3629). */
  function Encode(cp: nat): (bs: seq<byte>)
    requires IsScalarValue(cp)
    ensures 1 <= |bs| <= 4
  {
    if cp < 0x80 then [cp]
    else if cp < 0x800 then [0xC0 + cp / 0x40, 0x80 + cp % 0x40]
    else if cp < 0x1_0000 then [0xE0 + cp / 0x1000, 0x80 + cp / 0x40 % 0x40, 0x80 + cp % 0x40]
    else [0xF0 + cp / 0x4_0000, 0x80 + cp / 0x1000 % 0x40, 0x80 + cp / 0x40 % 0x40, 0x80 + cp % 0x40]
  }

  lemma EncodeThreeIsOneChar(cp: nat, s: seq<byte>)
    requires IsScalarValue(cp) && 0x800 <= cp < 0x1_0000
    requires |s| >= 3 && s[..3] == Encode(cp)
    ensures CharWidth(s) == 3
  {
    assert s[0] == 0xE0 + cp / 0x1000 && s[1] == 0x80 + cp / 0x40 % 0x40 && s[2] == 0x80 + cp % 0x40 by {
      assert s[..3][0] == s[0] && s[..3][1] == s[1] && s[..3][2] == s[2];
    }
    assert cp / 0x1000 == 0 ==> cp / 0x40 % 0x40 >= 0x20;
    assert cp / 0x1000 == 0xD ==> cp / 0x40 % 0x40 < 0x20;
  }

  lemma EncodeFourIsOneChar(cp: nat, s: seq<byte>)
    requires IsScalarValue(cp) && 0x1_0000 <= cp
    requires |s| >= 4 && s[..4] == Encode(cp)
    ensures CharWidth(s) == 4
  {
    assert s[0] == 0xF0 + cp / 0x4_0000 && s[1] == 0x80 + cp / 0x1000 % 0x40
        && s[2] == 0x80 + cp / 0x40 % 0x40 && s[3] == 0x80 + cp % 0x40 by {
      assert s[..4][0] == s[0] && s[..4][1] == s[1] && s[..4][2] == s[2] && s[..4][3] == s[3];
    }
    assert cp / 0x4_0000 == 0 ==> cp / 0x1000 % 0x40 >= 0x10;
    assert cp / 0x4_0000 == 4 ==> cp / 0x1000 % 0x40 < 0x10;
  }

  /** The encoding of a scalar value is one well-formed character, whatever follows it. */
  lemma EncodeIsOneChar(cp: nat, rest: seq<byte>)
    requires IsScalarValue(cp)
    ensures CharWidth(Encode(cp) + rest) == |Encode(cp)|
  {
    var e := Encode(cp);
    var s := e + rest;
    assert s[..|e|] == e;
    if 0x800 <= cp < 0x1_0000 {
      EncodeThreeIsOneChar(cp, s);
    } else if 0x1_0000 <= cp {
      EncodeFourIsOneChar(cp, s);
    } else {
      assert s[0] == e[0];
      assert |e| == 2 ==> s[1] == e[1];
    }
  }

  /** The encoding of a sequence of scalar values. */
  function EncodeAll(cps: seq<nat>): seq<byte>
    requires forall i :: 0 <= i < |cps| ==> IsScalarValue(cps[i])
  {
    if cps == [] then [] else Encode(cps[0]) + EncodeAll(cps[1..])
  }

  /** Every encoded text is accepted. */
  lemma {:induction false} EncodeAllValid(cps: seq<nat>)
    requires forall i :: 0 <= i < |cps| ==> IsScalarValue(cps[i])
    ensures Valid(EncodeAll(cps))
  {
    if cps != [] {
      var e, rest := Encode(cps[0]), EncodeAll(cps[1..]);
      EncodeAllValid(cps[1..]);
      EncodeIsOneChar(cps[0], rest);
      assert (e + rest)[|e|..] == rest;
    }
  }

  /** The six payload bits of a continuation byte. */
  function Low6(b: byte): int {
    b as int - 0x80
  }

  /** The scalar value of the well-formed character that starts `s`. */
  function DecodeChar(s: seq<byte>): (cp: nat)
    requires |s| > 0 && CharWidth(s) > 0
  {
    var n := CharWidth(s);
    var b0: int := s[0];
    if n == 1 then b0
    else if n == 2 then (b0 - 0xC0) * 0x40 + Low6(s[1])
    else if n == 3 then (b0 - 0xE0) * 0x1000 + Low6(s[1]) * 0x40 + Low6(s[2])
    else (b0 - 0xF0) * 0x4_0000 + Low6(s[1]) * 0x1000 + Low6(s[2]) * 0x40 + Low6(s[3])
  }

  /** Division by the width of a payload group undoes the packing. */
  lemma PackBits(q: nat, r: nat, d: nat)
    requires d == 0x40 || d == 0x1000 || d == 0x4_0000
    requires r < d
    ensures (q * d + r) / d == q && (q * d + r) % d == r
  {
  }

  lemma DecodeTwo(s: seq<byte>)
    requires |s| > 0 && CharWidth(s) == 2
    ensures IsScalarValue(DecodeChar(s)) && Encode(DecodeChar(s)) == s[..2]
  {
    var x0, x1 := s[0] as int - 0xC0, Low6(s[1]);
    PackBits(x0, x1, 0x40);
  }

  lemma DecodeThree(s: seq<byte>)
    requires |s| > 0 && CharWidth(s) == 3
    ensures IsScalarValue(DecodeChar(s)) && Encode(DecodeChar(s)) == s[..3]
  {
    var x0, x1, x2 := s[0] as int - 0xE0, Low6(s[1]), Low6(s[2]);
    var cp := DecodeChar(s);
    assert cp == (x0 * 0x40 + x1) * 0x40 + x2;
    PackBits(x0 * 0x40 + x1, x2, 0x40);
    PackBits(x0, x1, 0x40);
    assert cp == x0 * 0x1000 + (x1 * 0x40 + x2);
    PackBits(x0, x1 * 0x40 + x2, 0x1000);
  }

  /** The four payload groups of a four-byte character come back out of the packed value. */
  lemma Unpack4(x0: nat, x1: nat, x2: nat, x3: nat)
    requires x1 < 0x40 && x2 < 0x40 && x3 < 0x40
    ensures var cp := x0 * 0x4_0000 + x1 * 0x1000 + x2 * 0x40 + x3;
            cp / 0x4_0000 == x0 && cp / 0x1000 % 0x40 == x1 && cp / 0x40 % 0x40 == x2 && cp % 0x40 == x3
  {
    var hi := x0 * 0x40 + x1;
    var cp := x0 * 0x4_0000 + x1 * 0x1000 + x2 * 0x40 + x3;
    assert cp == (hi * 0x40 + x2) * 0x40 + x3;
    PackBits(hi * 0x40 + x2, x3, 0x40);
    PackBits(hi, x2, 0x40);
    PackBits(x0, x1, 0x40);
    assert cp == hi * 0x1000 + (x2 * 0x40 + x3);
    PackBits(hi, x2 * 0x40 + x3, 0x1000);
    assert cp == x0 * 0x4_0000 + (x1 * 0x1000 + x2 * 0x40 + x3);
    PackBits(x0, x1 * 0x1000 + x2 * 0x40 + x3, 0x4_0000);
  }

  lemma DecodeFour(s: seq<byte>)
    requires |s| > 0 && CharWidth(s) == 4
    ensures IsScalarValue(DecodeChar(s)) && Encode(DecodeChar(s)) == s[..4]
  {
    var x0: nat, x1: nat, x2: nat, x3: nat := s[0] as int - 0xF0, Low6(s[1]), Low6(s[2]), Low6(s[3]);
    var cp := DecodeChar(s);
    assert cp == x0 * 0x4_0000 + x1 * 0x1000 + x2 * 0x40 + x3;
    Unpack4(x0, x1, x2, x3);
    assert IsScalarValue(cp);
    assert Encode(cp) == [0xF0 + x0, 0x80 + x1, 0x80 + x2, 0x80 + x3];
  }

  /** Every well-formed character is the encoding of the scalar value it decodes to. */
  lemma DecodeCharEncodes(s: seq<byte>)
    requires |s| > 0 && CharWidth(s) > 0
    ensures IsScalarValue(DecodeChar(s))
    ensures Encode(DecodeChar(s)) == s[..CharWidth(s)]
  {
    match CharWidth(s)
    case 1 =>
    case 2 => DecodeTwo(s);
    case 3 => DecodeThree(s);
    case 4 => DecodeFour(s);
  }

  /**
   * Every accepted text is the encoding of a sequence of scalar values: with
   * EncodeAllValid, `Valid` accepts exactly the encodings of Unicode text.
   */
  lemma {:induction false} DecodeAll(s: seq<byte>) returns (cps: seq<nat>)
    requires Valid(s)
    ensures forall i :: 0 <= i < |cps| ==> IsScalarValue(cps[i])
    ensures EncodeAll(cps) == s
    decreases |s|
  {
    if s == [] {
      cps := [];
    } else {
      var n := CharWidth(s);
      assert s == s[..n] + s[n..];
      var cp := DecodeChar(s);
      DecodeCharEncodes(s);
      var rest := DecodeAll(s[n..]);
      cps := [cp] + rest;
      assert cps[0] == cp && cps[1..] == rest;
      assert EncodeAll(cps) == Encode(cp) + EncodeAll(rest);
    }
  }

  /** Plain ASCII text is accepted. */
  lemma {:induction false} AsciiValid(s: seq<byte>)
    requires forall i :: 0 <= i < |s| ==> s[i] < 0x80
    ensures Valid(s)
  {
    if s != [] {
      AsciiValid(s[1..]);
    }
  }

  /** The empty text is accepted. */
  lemma EmptyValid()
    ensures Valid([])
  {
  }

  /**
   * Rejected inputs: a stray continuation byte, an overlong NUL, an encoded
   * surrogate, a value above U+10FFFF and a character cut short.
   */
  lemma RejectedExamples()
    ensures !Valid([0x80])
    ensures !Valid([0xC0, 0x80])
    ensures !Valid([0xED, 0xA0, 0x80])
    ensures !Valid([0xF4, 0x90, 0x80, 0x80])
    ensures !Valid([0xE2, 0x82])
  {
  }

  /** The code points of a string: every Dafny `char` is a Unicode scalar value. */
  function CodePoints(s: string): (cps: seq<nat>)
    ensures |cps| == |s|
    ensures forall i :: 0 <= i < |cps| ==> IsScalarValue(cps[i])
  {
    seq(|s|, i requires 0 <= i < |s| => s[i] as nat)
  }

  /** `str::as_bytes`: the UTF-8 bytes of a string. */
  function Utf8Bytes(s: string): seq<byte> {
    EncodeAll(CodePoints(s))
  }

  /** The bytes of a string are well formed, and empty exactly when the string is. */
  lemma Utf8BytesValid(s: string)
    ensures Valid(Utf8Bytes(s))
    ensures Utf8Bytes(s) == [] <==> s == ""
  {
    EncodeAllValid(CodePoints(s));
    if s != "" {
      assert CodePoints(s) != [];
    }
  }
}
