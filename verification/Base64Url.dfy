/**
 The base64 codec of identity tokens: the encoder that works in groups of three bytes and the decoder
 that shifts bits through a 32-bit word, both proved against the bit strings of sections 4 and 5 of
 RFC 4648, and the round trips between them.
 */
module Base64Url {
  import opened Wrappers
  import opened Bits
  import opened BitStreams

  const UPPER := "ABCDEFGHIJKLMNOPQRSTUVWXYZ"
  const LOWER := "abcdefghijklmnopqrstuvwxyz"
  const DIGITS := "0123456789"
  const BASE64 := UPPER + LOWER + DIGITS + "+/"
  const BASE64URL := UPPER + LOWER + DIGITS + "-_"

  function Base64UrlValue(c: char): (value: int)
    ensures -1 <= value < 64
  {
    if 'A' <= c <= 'Z' then c as int - 'A' as int
    else if 'a' <= c <= 'z' then c as int - 'a' as int + 26
    else if '0' <= c <= '9' then c as int - '0' as int + 52
    else if c == '-' then 62
    else if c == '_' then 63
    else -1
  }

  /** The alphabet's letters and the decoder's values name each other. */
  ghost predicate NamesValues(alphabet: string) {
    && |alphabet| == 64
    && (forall value :: 0 <= value < 64 ==> Base64UrlValue(alphabet[value]) == value)
    && (forall c: char :: Base64UrlValue(c) >= 0 ==> alphabet[Base64UrlValue(c)] == c)
  }

  lemma RunsNameValues(upper: string, lower: string, digits: string, last: string)
    requires |upper| == 26 && forall i :: 0 <= i < 26 ==> upper[i] as int == 65 + i
    requires |lower| == 26 && forall i :: 0 <= i < 26 ==> lower[i] as int == 97 + i
    requires |digits| == 10 && forall i :: 0 <= i < 10 ==> digits[i] as int == 48 + i
    requires last == "-_"
    ensures NamesValues(upper + lower + digits + last)
  {
  }

  lemma {:induction false} UrlAlphabetNamesValues()
    ensures NamesValues(BASE64URL)
  {
    RunsNameValues(UPPER, LOWER, DIGITS, "-_");
  }

  // ----- what the codec computes, on bit strings -----

  predicate Letters(text: string) {
    forall i :: 0 <= i < |text| ==> Base64UrlValue(text[i]) >= 0
  }

  function Values(text: string): (values: seq<nat>)
    requires Letters(text)
    ensures |values| == |text|
  {
    seq(|text|, i requires 0 <= i < |text| => Base64UrlValue(text[i]))
  }

  /** A text stands for the whole bytes of its letters' bits. */
  function Decoded(text: string): Option<seq<nat>> {
    if |text| < 2 || |text| % 4 == 1 || !Letters(text) then None
    else Some(Chunks(Stream(Values(text), 6), 8))
  }

  function PadBits(size: nat): (n: nat)
    ensures (8 * size + n) % 6 == 0 && n < 6
  {
    assert 8 * size == 6 * (4 * (size / 3)) + 8 * (size % 3);
    if size % 3 == 0 then 0 else if size % 3 == 1 then 4 else 2
  }

  /** The bytes' bits, filled up with zeros to whole letters. */
  function Padded(bytes: seq<nat>): seq<bool> {
    Stream(bytes, 8) + Zeros(PadBits(|bytes|))
  }

  function Sextets(bytes: seq<nat>): (values: seq<nat>)
    ensures forall i :: 0 <= i < |values| ==> values[i] < 64
  {
    assert Pow2(6) == 64;
    Chunks(Padded(bytes), 6)
  }

  function Spelled(values: seq<nat>, alphabet: string): (text: string)
    requires |alphabet| == 64 && forall i :: 0 <= i < |values| ==> values[i] < 64
    ensures |text| == |values|
  {
    seq(|values|, i requires 0 <= i < |values| => alphabet[values[i]])
  }

  function Equals(n: nat): string {
    seq(n, i => '=')
  }

  function Encoded(bytes: seq<nat>, alphabet: string, padded: bool): string
    requires |alphabet| == 64
  {
    Spelled(Sextets(bytes), alphabet) + if padded then Equals((3 - |bytes| % 3) % 3) else ""
  }

  // ----- one letter into the decoder's word -----

  lemma {:induction false} WordBit(x: nat, n: nat, i: nat)
    requires i < n
    ensures Word(x, n)[n - 1 - i] == Bit(x, i)
  {
    if i > 0 {
      WordBit(x / 2, n - 1, i - 1);
    }
  }

  lemma HighBitsAreClear(x: nat, n: nat, i: nat)
    requires x < Pow2(n) && i >= n
    ensures !Bit(x, i)
  {
    ModUnique(x, Pow2(n), 0, x);
    ModBit(x, n, i);
  }

  /** `(high << s) | low` holds the bits of both, one after the other, whatever the shift pushed out of the word. */
  lemma {:induction false} ShiftedInWord(high: nat, low: nat, s: nat, n: nat)
    requires low < Pow2(s) && n + s <= 32
    ensures Word(Or(Shl(high, s, 32), low), n + s) == Word(high, n) + Word(low, s)
  {
    hide Or, Shl, Pow2, Bit, Word;
    var x, bits := Or(Shl(high, s, 32), low), Word(high, n) + Word(low, s);
    forall i | 0 <= i < n + s
      ensures Word(x, n + s)[i] == bits[i]
    {
      var k := n + s - 1 - i;
      WordBit(x, n + s, k);
      OrBit(Shl(high, s, 32), low, k);
      ShlBit(high, s, 32, k);
      if k < s {
        WordBit(low, s, k);
      } else {
        WordBit(high, n, k - s);
        HighBitsAreClear(low, s, k);
      }
    }
  }

  /** The byte taken from above the low `rest` bits, and what stays behind. */
  lemma ByteTaken(word: nat, rest: nat)
    ensures Word(word, 8 + rest) == Word(And(Shr(word, rest), 255), 8) + Word(word, rest)
    ensures And(Shr(word, rest), 255) < 256
  {
    assert Pow2(8) == 256;
    MaskIsMod(Shr(word, rest), 8);
    WordSplits(word, 8 + rest, rest);
    WordOfMod(Shr(word, rest), 8, 8);
  }

  /** One letter moves the decoder on by its six bits, and by a byte once eight are there. */
  lemma {:induction false} LetterTaken(bytes: seq<nat>, group: nat, bits: nat, value: nat)
    requires value < 64 && bits < 8
    ensures var word, seen := Or(Shl(group, 6, 32), value), Stream(bytes, 8) + Word(group, bits) + Word(value, 6);
            if bits + 6 >= 8 then
              And(Shr(word, bits - 2), 255) < 256 &&
                  seen == Stream(bytes + [And(Shr(word, bits - 2), 255)], 8) + Word(word, bits - 2)
            else
              seen == Stream(bytes, 8) + Word(word, bits + 6)
  {
    assert Pow2(6) == 64;
    hide Word, Stream, Or, Shl, And, Pow2, Shr;
    var word := Or(Shl(group, 6, 32), value);
    ShiftedInWord(group, value, 6, bits);
    ConcatAssociates(Stream(bytes, 8), Word(group, bits), Word(value, 6));
    if bits + 6 >= 8 {
      var rest := bits - 2;
      var byte := And(Shr(word, rest), 255);
      ByteTaken(word, rest);
      StreamAppend(bytes, byte, 8);
      ConcatAssociates(Stream(bytes, 8), Word(byte, 8), Word(word, rest));
    }
  }

  lemma BadLetter(text: string, at: nat)
    requires at < |text| && Base64UrlValue(text[at]) < 0
    ensures !Letters(text)
  {
  }

  lemma OneMoreLetter(text: string, at: nat)
    requires at < |text| && Letters(text[..at]) && Base64UrlValue(text[at]) >= 0
    ensures Letters(text[..at + 1])
    ensures Stream(Values(text[..at + 1]), 6) == Stream(Values(text[..at]), 6) + Word(Base64UrlValue(text[at]), 6)
  {
    hide Base64UrlValue, Stream, Word;
    assert Values(text[..at + 1]) == Values(text[..at]) + [Base64UrlValue(text[at])];
    StreamAppend(Values(text[..at]), Base64UrlValue(text[at]), 6);
  }

  method DecodeBase64Url(text: string) returns (r: Option<seq<nat>>)
    ensures r == Decoded(text)
  {
    hide Word, Stream, Chunks, Or, Shl, And, Pow2, Shr, Base64UrlValue, Letters, Values, ReadUpTo;
    var length := |text|;
    if length < 2 || length % 4 == 1 {
      return None;
    }
    var bytes: seq<nat> := [];
    var group: nat := 0;
    var bits := 0;
    var at := 0;
    NothingRead(text);
    while at < length
      invariant 0 <= at <= length && 0 <= bits < 8
      invariant ReadUpTo(text, at, bytes, group, bits)
    {
      var value := Base64UrlValue(text[at]);
      if value < 0 {
        BadLetter(text, at);
        return None;
      }
      LetterRead(text, at, bytes, group, bits);
      group := Or(Shl(group, 6, 32), value);
      bits := bits + 6;
      if bits >= 8 {
        bits := bits - 8;
        bytes := bytes + [And(Shr(group, bits), 255)];
      }
      at := at + 1;
    }
    AllRead(text, bytes, group, bits);
    return Some(bytes);
  }

  /** The letters before `at` have given these bytes and the bits still in the word. */
  ghost predicate ReadUpTo(text: string, at: nat, bytes: seq<nat>, group: nat, bits: nat)
    requires at <= |text|
  {
    && bits < 8 && Letters(text[..at]) && Bytes(bytes)
    && Stream(Values(text[..at]), 6) == Stream(bytes, 8) + Word(group, bits)
  }

  lemma NothingRead(text: string)
    ensures ReadUpTo(text, 0, [], 0, 0)
  {
  }

  lemma {:induction false} LetterRead(text: string, at: nat, bytes: seq<nat>, group: nat, bits: nat)
    requires at < |text| && ReadUpTo(text, at, bytes, group, bits) && Base64UrlValue(text[at]) >= 0
    ensures var word := Or(Shl(group, 6, 32), Base64UrlValue(text[at]));
            if bits + 6 >= 8 then ReadUpTo(text, at + 1, bytes + [And(Shr(word, bits - 2), 255)], word, bits - 2)
            else ReadUpTo(text, at + 1, bytes, word, bits + 6)
  {
    hide Word, Stream, Or, Shl, And, Shr, Base64UrlValue, Letters, Values;
    OneMoreLetter(text, at);
    LetterTaken(bytes, group, bits, Base64UrlValue(text[at]));
  }

  lemma AllRead(text: string, bytes: seq<nat>, group: nat, bits: nat)
    requires ReadUpTo(text, |text|, bytes, group, bits)
    ensures Letters(text) && Chunks(Stream(Values(text), 6), 8) == bytes
  {
    hide Stream, Chunks, Letters, Values;
    assert text[..|text|] == text;
    assert Pow2(8) == 256;
    ChunksOfStream(bytes, Word(group, bits), 8);
  }

  // ----- one group of the encoder -----

  /** The three bytes of a group in one word. */
  function Group(left: nat, middle: nat, right: nat): nat {
    Or(Or(Shl(left, 16, 32), Shl(middle, 8, 32)), right)
  }

  function Sextet(group: nat, shift: nat): (value: nat)
    ensures value < 64
  {
    assert Pow2(6) == 64;
    MaskIsMod(Shr(group, shift), 6);
    And(Shr(group, shift), 63)
  }

  /** The word holds the bytes' bits in order. */
  lemma GroupHoldsBytes(left: nat, middle: nat, right: nat)
    requires left < 256 && middle < 256 && right < 256
    ensures Word(Group(left, middle, right), 24) == Word(left, 8) + Word(middle, 8) + Word(right, 8)
  {
    hide Or, Shl, Bit, Word;
    var group, bits := Group(left, middle, right), Word(left, 8) + Word(middle, 8) + Word(right, 8);
    assert Pow2(8) == 256;
    hide Pow2;
    forall i | 0 <= i < 24
      ensures Word(group, 24)[i] == bits[i]
    {
      var k := 23 - i;
      WordBit(group, 24, k);
      OrBit(Or(Shl(left, 16, 32), Shl(middle, 8, 32)), right, k);
      OrBit(Shl(left, 16, 32), Shl(middle, 8, 32), k);
      ShlBit(left, 16, 32, k);
      ShlBit(middle, 8, 32, k);
      if k < 8 {
        WordBit(right, 8, k);
      } else if k < 16 {
        HighBitsAreClear(right, 8, k);
        WordBit(middle, 8, k - 8);
      } else {
        HighBitsAreClear(right, 8, k);
        HighBitsAreClear(middle, 8, k - 8);
        WordBit(left, 8, k - 16);
      }
    }
  }

  /** The sextets cut the word's bits in order. */
  lemma GroupIsSextets(group: nat)
    ensures Word(group, 24) ==
            Word(Sextet(group, 18), 6) + Word(Sextet(group, 12), 6) + Word(Sextet(group, 6), 6) +
                Word(Sextet(group, 0), 6)
  {
    hide Word, Sextet;
    var a, b, c, d := Word(Sextet(group, 18), 6), Word(Sextet(group, 12), 6), Word(Sextet(group, 6), 6),
        Word(Sextet(group, 0), 6);
    SextetTaken(group, 18);
    SextetTaken(group, 12);
    SextetTaken(group, 6);
    SextetTaken(group, 0);
    assert Word(group, 0) == [];
    FourParts(a, b, c, d);
  }

  lemma FourParts(a: seq<bool>, b: seq<bool>, c: seq<bool>, d: seq<bool>)
    ensures a + (b + (c + (d + []))) == a + b + c + d
  {
  }

  lemma SextetTaken(group: nat, shift: nat)
    ensures Word(group, shift + 6) == Word(Sextet(group, shift), 6) + Word(group, shift)
  {
    assert Pow2(6) == 64;
    MaskIsMod(Shr(group, shift), 6);
    WordSplits(group, shift + 6, shift);
    WordOfMod(Shr(group, shift), 6, 6);
  }

  /** The sextets of the group at `at`: four, or one for each byte there and one more. */
  function GroupSextets(bytes: seq<nat>, at: nat): (values: seq<nat>)
    requires at < |bytes|
    ensures forall i :: 0 <= i < |values| ==> values[i] < 64
  {
    var size := |bytes|;
    var group :=
        Group(bytes[at], if at + 1 < size then bytes[at + 1] else 0, if at + 2 < size then bytes[at + 2] else 0);
    [Sextet(group, 18), Sextet(group, 12)] + (if at + 1 < size then [Sextet(group, 6)] else [])
      + if at + 2 < size then [Sextet(group, 0)] else []
  }

  /** Where the group ends, and the zeros that fill it up when it is short. */
  function GroupEnd(bytes: seq<nat>, at: nat): (end: nat)
    requires at < |bytes|
    ensures at < end <= |bytes|
  {
    if at + 3 <= |bytes| then at + 3 else |bytes|
  }

  /** A group's sextets are its bytes' bits, and zeros after a short last group. */
  lemma {:induction false} GroupEncodes(bytes: seq<nat>, at: nat)
    requires at < |bytes| && at % 3 == 0 && Bytes(bytes)
    ensures var end := GroupEnd(bytes, at);
            Stream(GroupSextets(bytes, at), 6) == Stream(bytes[at..end], 8) + Zeros(PadBits(end - at))
  {
    hide Word, Sextet, Group, Stream, Pow2;
    var size, end := |bytes|, GroupEnd(bytes, at);
    var left, middle, right := bytes[at], if at + 1 < size then bytes[at + 1] else 0,
        if at + 2 < size then bytes[at + 2] else 0;
    var group := Group(left, middle, right);
    GroupHoldsBytes(left, middle, right);
    GroupIsSextets(group);
    WordsOfList([Sextet(group, 18), Sextet(group, 12), Sextet(group, 6), Sextet(group, 0)], 6);
    WordsOfList([left, middle, right], 8);
    WordsOfList([Sextet(group, 18), Sextet(group, 12), Sextet(group, 6)], 6);
    WordsOfList([Sextet(group, 18), Sextet(group, 12)], 6);
    WordsOfList([left, middle], 8);
    WordsOfList([left], 8);
    var bits := Word(group, 24);
    ZeroWord(8);
    if end == at + 3 {
      assert bytes[at..end] == [left, middle, right];
      assert GroupSextets(bytes, at) == [Sextet(group, 18), Sextet(group, 12), Sextet(group, 6), Sextet(group, 0)];
      assert Zeros(PadBits(3)) == [];
    } else if end == at + 2 {
      assert bytes[at..end] == [left, middle];
      assert GroupSextets(bytes, at) == [Sextet(group, 18), Sextet(group, 12), Sextet(group, 6)];
      assert bits[..18] == Word(left, 8) + Word(middle, 8) + Zeros(2);
      assert bits[..18] == Word(Sextet(group, 18), 6) + Word(Sextet(group, 12), 6) + Word(Sextet(group, 6), 6);
    } else {
      assert bytes[at..end] == [left];
      assert GroupSextets(bytes, at) == [Sextet(group, 18), Sextet(group, 12)];
      assert bits[..12] == Word(Sextet(group, 18), 6) + Word(Sextet(group, 12), 6);
      assert bits[..12] == Word(left, 8) + Zeros(4);
    }
  }

  lemma {:induction false} ZeroWord(n: nat)
    ensures Word(0, n) == Zeros(n)
  {
    if n > 0 { ZeroWord(n - 1); }
  }

  /** The stream of a short list, spelled out. */
  lemma WordsOfList(values: seq<nat>, width: nat)
    requires 1 <= |values| <= 4
    ensures Stream(values, width) ==
              Word(values[0], width) + (if |values| > 1 then Word(values[1], width) else [])
              + (if |values| > 2 then Word(values[2], width) else []) + if |values| > 3 then Word(values[3], width)
                                                                        else []
  {
    hide Word;
    if |values| > 1 { WordsOfList(values[..|values| - 1], width); }
  }

  lemma {:induction false} StreamConcat(a: seq<nat>, b: seq<nat>, width: nat)
    ensures Stream(a + b, width) == Stream(a, width) + Stream(b, width)
  {
    if b == [] {
      assert a + b == a;
    } else {
      hide Word, Stream;
      var early, last := b[..|b| - 1], b[|b| - 1];
      assert a + b == (a + early) + [last] && b == early + [last];
      StreamConcat(a, early, width);
      StreamAppend(a + early, last, width);
      StreamAppend(early, last, width);
      ConcatAssociates(Stream(a, width), Stream(early, width), Word(last, width));
    }
  }

  /** After the groups before `at` the sextets so far are the bytes' bits so far, padded at the end of the bytes. */
  ghost predicate EncodedUpTo(bytes: seq<nat>, at: nat, values: seq<nat>) {
    && (forall i :: 0 <= i < |values| ==> values[i] < 64)
    && (if at < |bytes| then at % 3 == 0 && Stream(values, 6) == Stream(bytes[..at], 8)
        else Stream(values, 6) == Padded(bytes))
  }

  lemma {:induction false} GroupStep(bytes: seq<nat>, at: nat, values: seq<nat>)
    requires at < |bytes| && Bytes(bytes) && EncodedUpTo(bytes, at, values)
    ensures EncodedUpTo(bytes, at + 3, values + GroupSextets(bytes, at))
  {
    hide Stream, GroupSextets;
    var end := GroupEnd(bytes, at);
    GroupEncodes(bytes, at);
    StreamConcat(values, GroupSextets(bytes, at), 6);
    StreamConcat(bytes[..at], bytes[at..end], 8);
    assert bytes[..at] + bytes[at..end] == bytes[..end];
    ConcatAssociates(Stream(bytes[..at], 8), Stream(bytes[at..end], 8), Zeros(PadBits(end - at)));
    assert bytes[..|bytes|] == bytes;
    assert end % 3 == (end - at) % 3;
  }

  /** All groups done, the sextets are the specified ones. */
  lemma AllGroups(bytes: seq<nat>, at: nat, values: seq<nat>)
    requires at >= |bytes| && EncodedUpTo(bytes, at, values)
    ensures values == Sextets(bytes)
  {
    assert Pow2(6) == 64;
    hide Stream, Chunks, Pow2;
    ChunksOfStream(values, [], 6);
    assert Stream(values, 6) + [] == Stream(values, 6);
  }

  /** The `=` that follow the group at `at`. */
  function GroupPads(bytes: seq<nat>, at: nat, padded: bool): string
    requires at < |bytes|
  {
    if padded && at + 3 > |bytes| then Equals(at + 3 - |bytes|) else ""
  }

  method EncodeGroup(bytes: seq<nat>, at: nat, alphabet: string, padded: bool) returns (out: string)
    requires at < |bytes| && |alphabet| == 64
    ensures out == Spelled(GroupSextets(bytes, at), alphabet) + GroupPads(bytes, at, padded)
  {
    hide Sextet, Group;
    var size := |bytes|;
    var left := bytes[at];
    var middle := if at + 1 < size then bytes[at + 1] else 0;
    var right := if at + 2 < size then bytes[at + 2] else 0;
    var group := Group(left, middle, right);
    out := [alphabet[Sextet(group, 18)]];
    out := out + [alphabet[Sextet(group, 12)]];
    if at + 1 < size {
      out := out + [alphabet[Sextet(group, 6)]];
    } else if padded {
      out := out + "=";
    }
    if at + 2 < size {
      out := out + [alphabet[Sextet(group, 0)]];
    } else if padded {
      out := out + "=";
    }
  }

  lemma SpelledConcat(a: seq<nat>, b: seq<nat>, alphabet: string)
    requires |alphabet| == 64 && (forall i :: 0 <= i < |a| ==> a[i] < 64) && (forall i :: 0 <= i < |b| ==> b[i] < 64)
    ensures Spelled(a + b, alphabet) == Spelled(a, alphabet) + Spelled(b, alphabet)
  {
  }

  /** The text after the groups before `at`. */
  ghost predicate TextUpTo(bytes: seq<nat>, at: nat, alphabet: string, padded: bool, out: string) {
    && |alphabet| == 64
    && at % 3 == 0 && at < |bytes| + 3
    && exists values :: EncodedUpTo(bytes, at, values) && Written(bytes, at, alphabet, padded, values, out)
  }

  ghost predicate Written(bytes: seq<nat>, at: nat, alphabet: string, padded: bool, values: seq<nat>, out: string)
    requires |alphabet| == 64
  {
    && (forall i :: 0 <= i < |values| ==> values[i] < 64)
    && out == Spelled(values, alphabet) + if padded && at > |bytes| then Equals(at - |bytes|) else ""
  }

  lemma TextStart(bytes: seq<nat>, alphabet: string, padded: bool)
    requires |alphabet| == 64
    ensures TextUpTo(bytes, 0, alphabet, padded, "")
  {
    assert EncodedUpTo(bytes, 0, []);
    assert Written(bytes, 0, alphabet, padded, [], "");
  }

  lemma TextStep(bytes: seq<nat>, at: nat, alphabet: string, padded: bool, out: string)
    requires TextUpTo(bytes, at, alphabet, padded, out) && at < |bytes| && Bytes(bytes)
    ensures TextUpTo(bytes, at + 3, alphabet, padded,
                     out + Spelled(GroupSextets(bytes, at), alphabet) + GroupPads(bytes, at, padded))
  {
    hide EncodedUpTo, GroupSextets, Spelled, Bytes;
    var values :| EncodedUpTo(bytes, at, values) && Written(bytes, at, alphabet, padded, values, out);
    GroupStep(bytes, at, values);
    SpelledConcat(values, GroupSextets(bytes, at), alphabet);
    assert Written(bytes, at + 3, alphabet, padded, values + GroupSextets(bytes, at),
                   out + Spelled(GroupSextets(bytes, at), alphabet) + GroupPads(bytes, at, padded));
  }

  lemma TextDone(bytes: seq<nat>, at: nat, alphabet: string, padded: bool, out: string)
    requires TextUpTo(bytes, at, alphabet, padded, out) && at >= |bytes|
    ensures out == Encoded(bytes, alphabet, padded)
  {
    hide EncodedUpTo, Sextets, Spelled;
    var values :| EncodedUpTo(bytes, at, values) && Written(bytes, at, alphabet, padded, values, out);
    AllGroups(bytes, at, values);
    PadsAtEnd(|bytes|, at);
  }

  method EncodedWith(bytes: seq<nat>, alphabet: string, padded: bool) returns (out: string)
    requires Bytes(bytes) && |alphabet| == 64
    ensures out == Encoded(bytes, alphabet, padded)
  {
    hide TextUpTo, Encoded, GroupSextets, GroupPads, Spelled, Bytes;
    out := "";
    TextStart(bytes, alphabet, padded);
    var at := 0;
    while at < |bytes|
      invariant 0 <= at && TextUpTo(bytes, at, alphabet, padded, out)
    {
      var part := EncodeGroup(bytes, at, alphabet, padded);
      TextStep(bytes, at, alphabet, padded, out);
      assert out + part == out + Spelled(GroupSextets(bytes, at), alphabet) + GroupPads(bytes, at, padded);
      out := out + part;
      at := at + 3;
    }
    TextDone(bytes, at, alphabet, padded, out);
  }

  lemma PadsAtEnd(size: nat, at: nat)
    requires size <= at < size + 3 && at % 3 == 0
    ensures (3 - size % 3) % 3 == at - size
  {
    assert (at - size + size) % 3 == 0;
  }

  method EncodeBase64(bytes: seq<nat>) returns (text: string)
    requires Bytes(bytes)
    ensures text == Encoded(bytes, BASE64, true)
  {
    text := EncodedWith(bytes, BASE64, true);
  }

  method EncodeBase64Url(bytes: seq<nat>) returns (text: string)
    requires Bytes(bytes)
    ensures text == Encoded(bytes, BASE64URL, false)
  {
    text := EncodedWith(bytes, BASE64URL, false);
  }

  // ----- the round trips -----

  lemma {:induction false} SpelledReadsBack(values: seq<nat>)
    requires forall i :: 0 <= i < |values| ==> values[i] < 64
    ensures Letters(Spelled(values, BASE64URL)) && Values(Spelled(values, BASE64URL)) == values
  {
    UrlAlphabetNamesValues();
    SpelledReadsBackIn(values, BASE64URL);
  }

  lemma SpelledReadsBackIn(values: seq<nat>, alphabet: string)
    requires NamesValues(alphabet) && forall i :: 0 <= i < |values| ==> values[i] < 64
    ensures Letters(Spelled(values, alphabet)) && Values(Spelled(values, alphabet)) == values
  {
    hide Base64UrlValue;
  }

  lemma ValuesSpellBack(text: string)
    requires Letters(text)
    ensures Spelled(Values(text), BASE64URL) == text
  {
    UrlAlphabetNamesValues();
    ValuesSpellBackIn(text, BASE64URL);
  }

  lemma ValuesSpellBackIn(text: string, alphabet: string)
    requires NamesValues(alphabet) && Letters(text)
    ensures Spelled(Values(text), alphabet) == text
  {
    hide Base64UrlValue;
  }

  /** The sextets spell the padded bits exactly, and there is never one letter over. */
  lemma SextetsSpellPadded(bytes: seq<nat>)
    ensures Stream(Sextets(bytes), 6) == Padded(bytes)
    ensures 6 * |Sextets(bytes)| == 8 * |bytes| + PadBits(|bytes|)
    ensures |Sextets(bytes)| % 4 == (if |bytes| % 3 == 0 then 0 else |bytes| % 3 + 1)
  {
    hide Stream, Chunks;
    var rest := StreamOfChunks(Padded(bytes), 6);
    StreamLength(Sextets(bytes), 6);
    StreamLength(bytes, 8);
    LettersOf(|bytes|, |Sextets(bytes)|, |rest|);
    assert rest == [];
  }

  lemma LettersOf(size: nat, letters: nat, rest: nat)
    requires 6 * letters + rest == 8 * size + PadBits(size) && rest < 6
    ensures rest == 0 && letters % 4 == (if size % 3 == 0 then 0 else size % 3 + 1)
  {
    var q, r := size / 3, size % 3;
    var k := letters - 4 * q;
    assert 6 * k + rest == 8 * r + PadBits(size);
    assert k == (if r == 0 then 0 else r + 1);
    ModUnique(letters, 4, q, k);
  }

  /** Decoding what was encoded gives the bytes back; only the empty string does not decode. */
  lemma EncodedDecodes(bytes: seq<nat>)
    requires Bytes(bytes)
    ensures Decoded(Encoded(bytes, BASE64URL, false)) == if bytes == [] then None else Some(bytes)
  {
    assert Pow2(8) == 256;
    hide Stream, Chunks, Sextets, Spelled, Letters, Values, Pow2;
    var text := Encoded(bytes, BASE64URL, false);
    assert text == Spelled(Sextets(bytes), BASE64URL);
    SpelledReadsBack(Sextets(bytes));
    SextetsSpellPadded(bytes);
    ChunksOfStream(bytes, Zeros(PadBits(|bytes|)), 8);
  }

  lemma Alphabets()
    ensures |BASE64| == |BASE64URL| == 64 && BASE64[..62] == BASE64URL[..62]
    ensures BASE64[62] == '+' && BASE64[63] == '/' && BASE64URL[62] == '-' && BASE64URL[63] == '_'
  {
  }

  /**
   The padded standard encoding is the unpadded one for URLs with its last two letters written `+` and `/`, and
   filled up with `=` to whole groups of four: a letter for every six bits begun.
   */
  lemma StandardFromUrl(bytes: seq<nat>)
    requires Bytes(bytes)
    ensures var url, padded := Encoded(bytes, BASE64URL, false), Encoded(bytes, BASE64, true);
            && |url| == (8 * |bytes| + 5) / 6 && |padded| == (|url| + 3) / 4 * 4
            && forall i :: 0 <= i < |padded| ==>
                 padded[i] == if i >= |url| then '=' else if url[i] == '-' then '+'
                              else if url[i] == '_' then '/' else url[i]
  {
    UrlAlphabetNamesValues();
    forall value: nat | value < 64
      ensures BASE64[value] == if BASE64URL[value] == '-' then '+'
                               else if BASE64URL[value] == '_' then '/' else BASE64URL[value]
    {
      LetterOfUrl(value);
    }
    EncodedAlike(bytes, BASE64, BASE64URL);
  }

  lemma EncodedAlike(bytes: seq<nat>, standard: string, url: string)
    requires Bytes(bytes) && |standard| == |url| == 64
    requires forall value :: 0 <= value < 64 ==>
               standard[value] == if url[value] == '-' then '+' else if url[value] == '_' then '/' else url[value]
    ensures var plain, padded := Encoded(bytes, url, false), Encoded(bytes, standard, true);
            && |plain| == (8 * |bytes| + 5) / 6 && |padded| == (|plain| + 3) / 4 * 4
            && forall i :: 0 <= i < |padded| ==>
                 padded[i] == if i >= |plain| then '=' else if plain[i] == '-' then '+'
                              else if plain[i] == '_' then '/' else plain[i]
  {
    hide Sextets, Stream, PadBits;
    SextetsSpellPadded(bytes);
    LetterCount(|bytes|, |Sextets(bytes)|);
  }

  lemma LetterCount(size: nat, letters: nat)
    requires 6 * letters == 8 * size + PadBits(size)
    requires letters % 4 == (if size % 3 == 0 then 0 else size % 3 + 1)
    ensures letters == (8 * size + 5) / 6 && letters + (3 - size % 3) % 3 == (letters + 3) / 4 * 4
  {
  }

  lemma LetterOfUrl(value: nat)
    requires value < 64 && |BASE64| == |BASE64URL| == 64 && NamesValues(BASE64URL)
    ensures BASE64[value] == if BASE64URL[value] == '-' then '+'
                             else if BASE64URL[value] == '_' then '/' else BASE64URL[value]
  {
    Alphabets();
    assert Base64UrlValue(BASE64URL[value]) == value;
    assert value < 62 ==> BASE64[value] == BASE64[..62][value] == BASE64URL[value];
  }

  /** The bits of the last letter that belong to no byte are zero. */
  predicate Canonical(text: string) {
    && (|text| % 4 == 2 ==> Base64UrlValue(text[|text| - 1]) % 16 == 0)
    && (|text| % 4 == 3 ==> Base64UrlValue(text[|text| - 1]) % 4 == 0)
  }

  lemma WordIsZeros(x: nat, n: nat)
    ensures Word(x, n) == Zeros(n) <==> x % Pow2(n) == 0
  {
    ZeroWord(n);
    WordOfMod(x, n, n);
    NumberOfWord(x % Pow2(n), n);
    NumberOfWord(0, n);
  }

  /** A decoded text is its bytes' bits followed by the low bits of its last letter. */
  lemma DecodedBits(text: string) returns (over: nat)
    requires Decoded(text).Some?
    ensures var bytes := Decoded(text).value;
            && Bytes(bytes)
            && over == PadBits(|bytes|) == (if |text| % 4 == 2 then 4 else if |text| % 4 == 3 then 2 else 0)
            && Stream(Values(text), 6) == Stream(bytes, 8) + Word(Values(text)[|text| - 1], over)
  {
    assert Pow2(8) == 256;
    hide Chunks, Stream, Word, Shr, Letters, Values, Pow2;
    var values, bytes := Values(text), Decoded(text).value;
    var last := values[|text| - 1];
    var rest := StreamOfChunks(Stream(values, 6), 8);
    StreamLength(values, 6);
    StreamLength(bytes, 8);
    over := |rest|;
    OverOf(|text|, |bytes|, over);
    LastBits(values, bytes, rest);
  }

  /** The bits after the last byte are the last value's low bits. */
  lemma {:induction false} LastBits(values: seq<nat>, bytes: seq<nat>, rest: seq<bool>)
    requires values != [] && |rest| <= 6 && Stream(values, 6) == Stream(bytes, 8) + rest
    ensures rest == Word(values[|values| - 1], |rest|)
  {
    hide Stream, Word, Shr;
    var early, last, over := values[..|values| - 1], values[|values| - 1], |rest|;
    assert values == early + [last];
    StreamAppend(early, last, 6);
    WordSplits(last, 6, over);
    ConcatAssociates(Stream(early, 6), Word(Shr(last, over), 6 - over), Word(last, over));
    TailsSame(Stream(bytes, 8), rest, Stream(early, 6) + Word(Shr(last, over), 6 - over), Word(last, over));
  }

  lemma TailsSame(a: seq<bool>, b: seq<bool>, c: seq<bool>, d: seq<bool>)
    requires a + b == c + d && |b| == |d|
    ensures b == d
  {
    assert (a + b)[|a|..] == b && (c + d)[|c|..] == d;
  }

  /** How many bits are over, from the lengths alone. */
  lemma OverOf(letters: nat, size: nat, over: nat)
    requires 6 * letters == 8 * size + over && over < 8 && letters % 4 != 1
    ensures over == PadBits(size) == (if letters % 4 == 2 then 4 else if letters % 4 == 3 then 2 else 0)
  {
    var q, r := letters / 4, letters % 4;
    var k := size - 3 * q;
    assert 8 * k + over == 6 * r;
    assert k == (if r == 0 then 0 else r - 1);
    ModUnique(size, 3, q, k);
  }

  /** Encoding what was decoded gives the text back exactly when the bits over are zero. */
  lemma {:induction false} DecodedEncodesIff(text: string)
    requires Decoded(text).Some?
    ensures Encoded(Decoded(text).value, BASE64URL, false) == text <==> Canonical(text)
  {
    assert Pow2(6) == 64 && Pow2(4) == 16 && Pow2(2) == 4 && Pow2(0) == 1;
    hide Stream, Chunks, Word, Spelled, Letters, Sextets, Pow2;
    var bytes, values := Decoded(text).value, Values(text);
    var again := Sextets(bytes);
    var over := DecodedBits(text);
    var last := values[|text| - 1];
    SextetsSpellPadded(bytes);
    WordIsZeros(last, over);
    assert Canonical(text) <==> Word(last, over) == Zeros(over);
    SameTextIff(text, again);
    if Word(last, over) == Zeros(over) {
      StreamsDiffer(again, values, 6);
    } else if again == values {
      assert Stream(bytes, 8) + Word(last, over) == Stream(bytes, 8) + Zeros(over);
      SuffixesSame(Stream(bytes, 8), Word(last, over), Zeros(over));
    }
  }

  /** "QR" decodes to the byte 65, whose encoding is another text: the low bits of its last letter are not zero. */
  lemma QRDoesNotComeBack()
    ensures Decoded("QR") == Some([65]) && !Canonical("QR")
    ensures Encoded([65], BASE64URL, false) != "QR"
  {
    var text := "QR";
    assert Letters(text) && Values(text) == [16, 17];
    QRBits();
    assert Chunks(Stream([16, 17], 6), 8) == [65] by {
      assert Pow2(8) == 256;
      ChunksOfStream([65], Word(17, 4), 8);
    }
    DecodedEncodesIff(text);
  }

  lemma QRBits()
    ensures Stream([16, 17], 6) == Stream([65], 8) + Word(17, 4)
  {
    QRWords();
    hide Word, Stream, Shr;
    var none: seq<nat> := [];
    NothingStreams();
    StreamAppend([16], 17, 6);
    StreamAppend(none, 16, 6);
    StreamAppend(none, 65, 8);
    assert [16] + [17] == [16, 17] && none + [16] == [16] && none + [65] == [65];
    ConcatAssociates(Word(16, 6), Word(1, 2), Word(17, 4));
  }

  lemma NothingStreams()
    ensures Stream([], 6) == [] && Stream([], 8) == []
  {
  }

  lemma QRWords()
    ensures Word(65, 8) == Word(16, 6) + Word(1, 2) && Word(17, 6) == Word(1, 2) + Word(17, 4)
  {
    assert Shr(65, 2) == 16 && Shr(17, 4) == 1;
    assert Word(65, 2) == Word(1, 2) == [false, true];
    hide Word, Shr;
    WordSplits(65, 8, 2);
    WordSplits(17, 6, 4);
  }

  lemma SuffixesSame(front: seq<bool>, a: seq<bool>, b: seq<bool>)
    requires front + a == front + b
    ensures a == b
  {
    assert (front + a)[|front|..] == a && (front + b)[|front|..] == b;
  }

  lemma {:induction false} SameTextIff(text: string, values: seq<nat>)
    requires Letters(text) && forall i :: 0 <= i < |values| ==> values[i] < 64
    ensures Spelled(values, BASE64URL) == text <==> values == Values(text)
  {
    SpelledReadsBack(values);
    ValuesSpellBack(text);
  }
}
