/** Text as Unicode scalar values and as the UTF-8 bytes of section 3 of RFC 3629. */
module Utf8 {
  import opened Wrappers

  /** A character of a string: a scalar value other than the terminator. */
  type Scalar = c: nat | 0 < c < 0xD800 || 0xE000 <= c <= 0x10FFFF witness 1

  function Width(c: Scalar): (n: nat)
    ensures 1 <= n <= 4
  {
    if c < 0x80 then 1 else if c < 0x800 then 2 else if c < 0x10000 then 3 else 4
  }

  function EncodeOne(c: Scalar): (bytes: seq<nat>)
    ensures |bytes| == Width(c)
  {
    if c < 0x80 then [c]
    else if c < 0x800 then [0xC0 + c / 64, 0x80 + c % 64]
    else if c < 0x10000 then [0xE0 + c / 4096, 0x80 + c / 64 % 64, 0x80 + c % 64]
    else [0xF0 + c / 262144, 0x80 + c / 4096 % 64, 0x80 + c / 64 % 64, 0x80 + c % 64]
  }

  function Encode(text: seq<Scalar>): seq<nat> {
    if text == [] then [] else EncodeOne(text[0]) + Encode(text[1..])
  }

  predicate IsTail(b: nat) {
    0x80 <= b < 0xC0
  }

  /** The character a well-formed byte string starts with. */
  function DecodeOne(bytes: seq<nat>): Option<Scalar> {
    if bytes == [] then None
    else if 0 < bytes[0] < 0x80 then Some(bytes[0])
    else if |bytes| >= 2 && 0xC2 <= bytes[0] < 0xE0 && IsTail(bytes[1]) then
      Some((bytes[0] - 0xC0) * 64 + (bytes[1] - 0x80))
    else if |bytes| >= 3 && 0xE0 <= bytes[0] < 0xF0 && IsTail(bytes[1]) && IsTail(bytes[2]) then
      Three((bytes[0] - 0xE0) * 4096 + (bytes[1] - 0x80) * 64 + (bytes[2] - 0x80))
    else if |bytes| >= 4 && 0xF0 <= bytes[0] < 0xF5 && IsTail(bytes[1]) && IsTail(bytes[2]) && IsTail(bytes[3]) then
      Four((bytes[0] - 0xF0) * 262144 + (bytes[1] - 0x80) * 4096 + (bytes[2] - 0x80) * 64 + (bytes[3] - 0x80))
    else None
  }

  /** Overlong forms, surrogates and values past the last plane are not characters. */
  function Three(c: nat): Option<Scalar> {
    if 0x800 <= c < 0xD800 || 0xE000 <= c < 0x10000 then Some(c) else None
  }

  function Four(c: nat): Option<Scalar> {
    if 0x10000 <= c <= 0x10FFFF then Some(c) else None
  }

  function Decode(bytes: seq<nat>): Option<seq<Scalar>>
    decreases |bytes|
  {
    if bytes == [] then Some([])
    else
      match DecodeOne(bytes)
      case None => None
      case Some(c) =>
        if Width(c) > |bytes| then None
        else
          match Decode(bytes[Width(c)..])
          case None => None
          case Some(text) => Some([c] + text)
  }

  /** Characters order as their bytes do: at the first byte that differs the lower character has the lower one. */
  lemma EncodingKeepsOrder(a: Scalar, b: Scalar) returns (at: nat)
    requires a < b
    ensures at < Width(a) <= Width(b) && EncodeOne(a)[..at] == EncodeOne(b)[..at] && EncodeOne(a)[at] < EncodeOne(b)[at]
  {
    Digits(a);
    Digits(b);
    var x, y := EncodeOne(a), EncodeOne(b);
    at := if x[0] != y[0] then 0 else if x[1] != y[1] then 1 else if x[2] != y[2] then 2 else 3;
  }

  /** A number in digits of base 64. */
  lemma Digits(c: nat)
    ensures c == c / 64 * 64 + c % 64
    ensures c / 64 == c / 4096 * 64 + c / 64 % 64
    ensures c / 4096 == c / 262144 * 64 + c / 4096 % 64
  {
  }

  lemma {:induction false} DecodesOne(c: Scalar, rest: seq<nat>)
    ensures DecodeOne(EncodeOne(c) + rest) == Some(c)
  {
    var bytes := EncodeOne(c) + rest;
    assert forall i :: 0 <= i < Width(c) ==> bytes[i] == EncodeOne(c)[i];
    Digits(c);
    if c < 0x80 {
    } else if c < 0x800 {
      TwoBytes(c, bytes);
    } else if c < 0x10000 {
      ThreeBytes(c, bytes);
    } else {
      FourBytes(c, bytes);
    }
  }

  lemma TwoBytes(c: Scalar, bytes: seq<nat>)
    requires 0x80 <= c < 0x800 && |bytes| >= 2 && bytes[0] == 0xC0 + c / 64 && bytes[1] == 0x80 + c % 64
    ensures DecodeOne(bytes) == Some(c)
  {
  }

  lemma ThreeBytes(c: Scalar, bytes: seq<nat>)
    requires 0x800 <= c < 0x10000 && |bytes| >= 3
    requires bytes[0] == 0xE0 + c / 4096 && bytes[1] == 0x80 + c / 64 % 64 && bytes[2] == 0x80 + c % 64
    ensures DecodeOne(bytes) == Some(c)
  {
    Digits(c);
    assert (bytes[0] - 0xE0) * 4096 + (bytes[1] - 0x80) * 64 + (bytes[2] - 0x80) == c;
  }

  lemma FourBytes(c: Scalar, bytes: seq<nat>)
    requires 0x10000 <= c && |bytes| >= 4
    requires bytes[0] == 0xF0 + c / 262144 && bytes[1] == 0x80 + c / 4096 % 64 && bytes[2] == 0x80 + c / 64 % 64 &&
             bytes[3] == 0x80 + c % 64
    ensures DecodeOne(bytes) == Some(c)
  {
    Digits(c);
    assert (bytes[0] - 0xF0) * 262144 + (bytes[1] - 0x80) * 4096 + (bytes[2] - 0x80) * 64 + (bytes[3] - 0x80) == c;
  }

  /** Decoding an encoding gives the text back. */
  lemma {:induction false} DecodesEncoding(text: seq<Scalar>)
    ensures Decode(Encode(text)) == Some(text)
  {
    if text == [] {
    } else {
      hide EncodeOne, DecodeOne;
      DecodesOne(text[0], Encode(text[1..]));
      DecodesEncoding(text[1..]);
      assert Encode(text)[Width(text[0])..] == Encode(text[1..]);
      assert [text[0]] + text[1..] == text;
    }
  }

  lemma DigitOf(high: nat, low: nat)
    requires low < 64
    ensures (high * 64 + low) / 64 == high && (high * 64 + low) % 64 == low
  {
  }

  /** What decodes to a character is its encoding: no other form of it is accepted. */
  lemma {:induction false} DecodesOnlyEncoding(bytes: seq<nat>)
    requires DecodeOne(bytes).Some?
    ensures var c := DecodeOne(bytes).value; Width(c) <= |bytes| && bytes[..Width(c)] == EncodeOne(c)
  {
    if bytes[0] < 0x80 {
    } else if bytes[0] < 0xE0 {
      DigitOf(bytes[0] - 0xC0, bytes[1] - 0x80);
    } else if bytes[0] < 0xF0 {
      ThreeDigits(bytes[0] - 0xE0, bytes[1] - 0x80, bytes[2] - 0x80);
    } else {
      FourDigits(bytes[0] - 0xF0, bytes[1] - 0x80, bytes[2] - 0x80, bytes[3] - 0x80);
    }
  }

  lemma ThreeDigits(a: nat, b: nat, c: nat)
    requires b < 64 && c < 64
    ensures var n := a * 4096 + b * 64 + c;
            n / 4096 == a && n / 64 % 64 == b && n % 64 == c
  {
    DigitOf(a * 64 + b, c);
    DigitOf(a, b);
    var n := a * 4096 + b * 64 + c;
    assert n == (a * 64 + b) * 64 + c;
    assert n / 4096 == n / 64 / 64;
  }

  lemma FourDigits(a: nat, b: nat, c: nat, d: nat)
    requires b < 64 && c < 64 && d < 64
    ensures var n := a * 262144 + b * 4096 + c * 64 + d;
            n / 262144 == a && n / 4096 % 64 == b && n / 64 % 64 == c && n % 64 == d
  {
    DigitOf((a * 64 + b) * 64 + c, d);
    ThreeDigits(a, b, c);
    var n := a * 262144 + b * 4096 + c * 64 + d;
    assert n == ((a * 64 + b) * 64 + c) * 64 + d;
    assert n / 4096 == n / 64 / 64 && n / 262144 == n / 64 / 4096;
  }

  lemma NothingDecodes()
    ensures Decode([]) == Some([]) && Encode([]) == []
  {
  }

  lemma DecodeStep(bytes: seq<nat>)
    requires bytes != [] && Decode(bytes).Some?
    ensures DecodeOne(bytes).Some?
    ensures var c := DecodeOne(bytes).value;
            && Width(c) <= |bytes| && Decode(bytes[Width(c)..]).Some?
            && Decode(bytes).value == [c] + Decode(bytes[Width(c)..]).value
  {
    hide DecodeOne;
  }

  lemma EncodeStep(c: Scalar, text: seq<Scalar>)
    ensures Encode([c] + text) == EncodeOne(c) + Encode(text)
  {
    assert ([c] + text)[1..] == text;
  }

  /** Only the encoding of a text decodes to it. */
  lemma {:induction false} DecodeIsStrict(bytes: seq<nat>)
    requires Decode(bytes).Some?
    ensures Encode(Decode(bytes).value) == bytes
    decreases |bytes|
  {
    NothingDecodes();
    hide DecodeOne, EncodeOne, Decode, Encode, Width;
    if bytes != [] {
      DecodeStep(bytes);
      DecodesOnlyEncoding(bytes);
      var width := Width(DecodeOne(bytes).value);
      DecodeIsStrict(bytes[width..]);
      EncodeStep(DecodeOne(bytes).value, Decode(bytes[width..]).value);
      assert bytes == bytes[..width] + bytes[width..];
    }
  }

  /** A character's first byte is no tail byte, and its others are. */
  lemma TailsOfOne(c: Scalar)
    ensures forall i :: 0 <= i < Width(c) ==> EncodeOne(c)[i] < 256 && (IsTail(EncodeOne(c)[i]) <==> i > 0)
  {
  }

  lemma {:induction false} EncodeConcat(a: seq<Scalar>, b: seq<Scalar>)
    ensures Encode(a + b) == Encode(a) + Encode(b)
  {
    if a == [] {
      assert a + b == b;
    } else {
      assert (a + b)[1..] == a[1..] + b;
      EncodeConcat(a[1..], b);
    }
  }

  /**
   Inside an encoding a byte that is no tail byte starts a character: what is before it encodes a prefix
   of the text, and the next character would reach past it.
   */
  lemma {:induction false} BoundaryAt(text: seq<Scalar>, at: nat) returns (k: nat)
    requires at < |Encode(text)| && !IsTail(Encode(text)[at])
    ensures k < |text| && Encode(text[..k]) == Encode(text)[..at]
  {
    var width := Width(text[0]);
    TailsOfOne(text[0]);
    if at < width {
      assert at == 0;
      k := 0;
    } else {
      var rest := text[1..];
      assert Encode(rest)[at - width] == Encode(text)[at];
      var j := BoundaryAt(rest, at - width);
      k := j + 1;
      assert text[..k][1..] == rest[..j];
    }
  }

  /** Longer prefixes encode longer. */
  lemma PrefixGrows(text: seq<Scalar>, j: nat, k: nat)
    requires j < k <= |text|
    ensures |Encode(text[..j])| < |Encode(text[..k])|
  {
    assert text[..k] == text[..j] + text[j..k];
    EncodeConcat(text[..j], text[j..k]);
  }

  /** Where a character starts there is no tail byte. */
  lemma StartIsNoTail(text: seq<Scalar>, k: nat)
    requires k < |text|
    ensures |Encode(text[..k])| < |Encode(text)| && !IsTail(Encode(text)[|Encode(text[..k])|])
  {
    assert text == text[..k] + text[k..];
    EncodeConcat(text[..k], text[k..]);
    TailsOfOne(text[k]);
    assert Encode(text)[|Encode(text[..k])|] == Encode(text[k..])[0];
  }

  /** The characters from the start that fit in `cap` bytes. */
  function Fitting(text: seq<Scalar>, cap: nat): (kept: seq<Scalar>)
    ensures |kept| <= |text| && kept == text[..|kept|]
  {
    if text == [] || Width(text[0]) > cap then [] else [text[0]] + Fitting(text[1..], cap - Width(text[0]))
  }

  /** It is the longest prefix of whole characters within the cap. */
  lemma {:induction false} FittingIsLongest(text: seq<Scalar>, cap: nat)
    ensures |Encode(Fitting(text, cap))| <= cap
    ensures forall k :: |Fitting(text, cap)| < k <= |text| ==> |Encode(text[..k])| > cap
  {
    var kept := Fitting(text, cap);
    if text != [] {
      if kept != [] {
        FittingIsLongest(text[1..], cap - Width(text[0]));
        assert kept[1..] == Fitting(text[1..], cap - Width(text[0]));
      }
      forall k | |kept| < k <= |text| ensures |Encode(text[..k])| > cap {
        assert text[..k][1..] == text[1..][..k - 1];
      }
    }
  }

  lemma FittingIs(text: seq<Scalar>, cap: nat, k: nat)
    requires k <= |text| && |Encode(text[..k])| <= cap
    requires k < |text| ==> |Encode(text[..k + 1])| > cap
    ensures Fitting(text, cap) == text[..k]
  {
    FittingIsLongest(text, cap);
    var n := |Fitting(text, cap)|;
    if k < n {
      if k + 1 < n { PrefixGrows(text, k + 1, n); }
    }
  }
}
