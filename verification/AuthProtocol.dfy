/**
 The frames of the admission handshake: loops that lay out and read little-endian words, the decoders'
 checks, the cap on a refusal's reason, and the round trips between them.
 */
module AuthProtocol {
  import opened Wrappers
  import opened Bits
  import opened Utf8

  const PROTOCOL_VERSION := 6
  const TAG_LEN := 4
  const HELLO_HEADER_LEN := 18
  const PROBE_HEADER_LEN := 6
  const ANSWER_HEADER_LEN := 6
  const REASON_CAP := 255

  const HELLO_BYTES := [0x4E, 0x48, 0x45, 0x4C]
  const PROBE_BYTES := [0x4E, 0x50, 0x52, 0x42]
  const GAME_BYTES := [0x4E, 0x47, 0x41, 0x4D]
  const JOIN_BYTES := [0x4E, 0x4A, 0x4F, 0x4E]
  const ANSWER_BYTES := [0x4E, 0x41, 0x4E, 0x53]

  datatype Kind = Unknown | HelloKind | ProbeKind | GameKind | JoinKind | AnswerFrame
  datatype Refusal = NoRefusal | Framing | Version | App
  datatype AnswerKind = Admitted | Refused | Confirmed

  datatype Hello = Hello(refusal: Refusal, version: nat, appTag: nat, flags: nat, deadlineMsec: nat)
  datatype ProbeRequest = ProbeRequest(ok: bool, version: nat, flags: nat)
  datatype ProbeReply = ProbeReply(ok: bool, version: nat, status: nat, payload: seq<nat>)
  /** A reason that is no well-formed UTF-8 reads as none: what the engine makes of it is not modelled. */
  datatype Answer = Answer(ok: bool, kind: AnswerKind, code: int, reason: Option<seq<Scalar>>, payload: seq<nat>)

  function NoHello(): Hello { Hello(Framing, 0, 0, 0, 0) }
  function NoAnswer(): Answer { Answer(false, Refused, 0, Some([]), []) }

  // ----- words, least significant byte first -----

  function Laid(value: nat, n: nat): (bytes: seq<nat>)
    ensures |bytes| == n && forall i :: 0 <= i < n ==> bytes[i] < 256
  {
    if n == 0 then [] else [value % 256] + Laid(value / 256, n - 1)
  }

  function Word(bytes: seq<nat>): nat {
    if bytes == [] then 0 else bytes[0] + 256 * Word(bytes[1..])
  }

  function Bound(n: nat): (m: nat)
    ensures m > 0
  {
    if n == 0 then 1 else 256 * Bound(n - 1)
  }

  /** Reading a laid word gives the value back, cut to the word's size. */
  lemma {:induction false} LaidReadsBack(value: nat, n: nat)
    ensures Word(Laid(value, n)) == value % Bound(n)
  {
    if n == 0 {
    } else {
      LaidReadsBack(value / 256, n - 1);
      assert Laid(value, n)[1..] == Laid(value / 256, n - 1);
      LowDigit(value, Bound(n - 1));
    }
  }

  lemma {:induction false} LowDigit(value: nat, m: nat)
    requires m > 0
    ensures value % (256 * m) == value % 256 + 256 * (value / 256 % m)
  {
    var q, r := value / 256 / m, value / 256 % m;
    assert value == 256 * (m * q + r) + value % 256;
    assert 256 * (m * q) == 256 * m * q;
    ModUnique(value, 256 * m, q, 256 * r + value % 256);
  }

  /** Laying out what was read gives the bytes back. */
  lemma {:induction false} ReadLaysOut(bytes: seq<nat>)
    requires forall i :: 0 <= i < |bytes| ==> bytes[i] < 256
    ensures Laid(Word(bytes), |bytes|) == bytes && Word(bytes) < Bound(|bytes|)
  {
    if bytes == [] {
    } else {
      ReadLaysOut(bytes[1..]);
      ModUnique(Word(bytes), 256, Word(bytes[1..]), bytes[0]);
    }
  }

  lemma {:induction false} BoundIsPow2(n: nat)
    ensures Bound(n) == Pow2(8 * n)
  {
    if n > 0 {
      BoundIsPow2(n - 1);
      Pow2Sum(8, 8 * (n - 1));
      assert Pow2(8) == 256;
    }
  }

  /** `x | (y << k)` adds when the bits do not meet. */
  lemma {:induction false} OrAdds(x: nat, y: nat, k: nat)
    requires x < Pow2(k)
    ensures Or(x, y * Pow2(k)) == x + y * Pow2(k)
  {
    if k == 0 {
      OrZero(y);
    } else {
      var half := y * Pow2(k - 1);
      assert y * Pow2(k) == 2 * half;
      OrAdds(x / 2, y, k - 1);
      OrHalves(x, 2 * half);
    }
  }

  lemma {:induction false} OrZero(y: nat)
    ensures Or(0, y) == y
  {
    if y > 0 { OrZero(y / 2); }
  }

  lemma {:induction false} LaidAppend(value: nat, n: nat)
    ensures Laid(value, n + 1) == Laid(value, n) + [Shr(value, 8 * n) % 256]
  {
    if n == 0 {
    } else {
      hide Laid, Shr;
      LaidStep(value, n + 1);
      LaidStep(value, n);
      LaidAppend(value / 256, n - 1);
      ShrByte(value, 8 * (n - 1));
    }
  }

  lemma LaidStep(value: nat, n: nat)
    requires n > 0
    ensures Laid(value, n) == [value % 256] + Laid(value / 256, n - 1)
  {
  }

  lemma ShrByte(value: nat, s: nat)
    ensures Shr(value, 8 + s) == Shr(value / 256, s)
  {
    hide Shr;
    var a, b, c, d := value / 2, value / 4, value / 8, value / 16;
    var e, f, g := value / 32, value / 64, value / 128;
    assert a / 2 == b && b / 2 == c && c / 2 == d && d / 2 == e && e / 2 == f && f / 2 == g && g / 2 == value / 256;
    ShrStep(value, s + 7);
    ShrStep(a, s + 6);
    ShrStep(b, s + 5);
    ShrStep(c, s + 4);
    ShrStep(d, s + 3);
    ShrStep(e, s + 2);
    ShrStep(f, s + 1);
    ShrStep(g, s);
  }

  lemma {:induction false} WordAppend(bytes: seq<nat>, byte: nat)
    ensures Word(bytes + [byte]) == Word(bytes) + byte * Bound(|bytes|)
  {
    if bytes == [] {
    } else {
      WordAppend(bytes[1..], byte);
      assert (bytes + [byte])[1..] == bytes[1..] + [byte];
    }
  }

  method AppendWord(buffer: seq<nat>, value: nat, n: nat) returns (after: seq<nat>)
    ensures after == buffer + Laid(value, n)
  {
    hide Shr, And;
    after := buffer;
    for at := 0 to n
      invariant after == buffer + Laid(value, at)
    {
      LaidAppend(value, at);
      assert Pow2(8) == 256;
      MaskIsMod(Shr(value, 8 * at), 8);
      after := after + [And(Shr(value, at * 8), 0xFF)];
    }
  }

  /** Eight bytes at most, so nothing is shifted out of the word. */
  method ReadWord(data: seq<nat>, start: nat, n: nat) returns (out: nat)
    requires n <= 8 && start + n <= |data|
    requires forall i :: 0 <= i < |data| ==> data[i] < 256
    ensures out == Word(data[start..start + n])
  {
    hide Or, Shl;
    out := 0;
    for at := 0 to n
      invariant out == Word(data[start..start + at])
    {
      var byte, seen := data[start + at], data[start..start + at];
      assert data[start..start + at + 1] == seen + [byte];
      WordAppend(seen, byte);
      ReadLaysOut(seen);
      BoundIsPow2(at);
      ShiftFits(byte, at);
      OrAdds(out, byte, 8 * at);
      out := Or(out, Shl(byte, at * 8, 64));
    }
  }

  lemma {:induction false} Pow2Grows(a: nat, b: nat)
    requires a <= b
    ensures Pow2(a) <= Pow2(b)
  {
    if a < b { Pow2Grows(a, b - 1); }
  }

  lemma {:induction false} ShiftFits(byte: nat, at: nat)
    requires byte < 256 && at < 8
    ensures Shl(byte, 8 * at, 64) == byte * Pow2(8 * at)
  {
    var p := Pow2(8 * at);
    assert Pow2(8 + 8 * at) == 256 * p by {
      assert Pow2(8) == 256;
      Pow2Sum(8, 8 * at);
    }
    Pow2Grows(8 + 8 * at, 64);
    hide Pow2;
    SmallProduct(byte, p);
    ModUnique(byte * p, Pow2(64), 0, byte * p);
  }

  lemma SmallProduct(byte: nat, p: nat)
    requires byte < 256 && p > 0
    ensures 0 <= byte * p < 256 * p
  {
  }

  // ----- tags -----

  predicate Starts(data: seq<nat>, magic: seq<nat>) {
    |data| >= 4 && data[..4] == magic
  }

  function KindOf(data: seq<nat>): Kind {
    if Starts(data, HELLO_BYTES) then HelloKind
    else if Starts(data, PROBE_BYTES) then ProbeKind
    else if Starts(data, GAME_BYTES) then GameKind
    else if Starts(data, JOIN_BYTES) then JoinKind
    else if Starts(data, ANSWER_BYTES) then AnswerFrame
    else Unknown
  }

  method Matches(data: seq<nat>, magic: seq<nat>) returns (same: bool)
    requires |magic| == 4
    ensures same == Starts(data, magic)
  {
    if |data| < 4 {
      return false;
    }
    for at := 0 to 4
      invariant data[..at] == magic[..at]
    {
      if data[at] != magic[at] {
        assert data[..4][at] != magic[at];
        return false;
      }
    }
    return true;
  }

  method Classify(data: seq<nat>) returns (kind: Kind)
    ensures kind == KindOf(data)
  {
    if |data| < TAG_LEN {
      return Unknown;
    }
    hide Starts;
    var same := Matches(data, HELLO_BYTES);
    if same { return HelloKind; }
    same := Matches(data, PROBE_BYTES);
    if same { return ProbeKind; }
    same := Matches(data, GAME_BYTES);
    if same { return GameKind; }
    same := Matches(data, JOIN_BYTES);
    if same { return JoinKind; }
    same := Matches(data, ANSWER_BYTES);
    if same { return AnswerFrame; }
    return Unknown;
  }

  function TagOf(kind: Kind): seq<nat> {
    match kind
    case Unknown => []
    case HelloKind => HELLO_BYTES
    case ProbeKind => PROBE_BYTES
    case GameKind => GAME_BYTES
    case JoinKind => JOIN_BYTES
    case AnswerFrame => ANSWER_BYTES
  }

  /** A frame is of a kind exactly when it starts with that kind's tag, so no frame is of two. */
  lemma KindsAreDisjoint(data: seq<nat>, kind: Kind)
    requires kind != Unknown
    ensures KindOf(data) == kind <==> Starts(data, TagOf(kind))
  {
    if |data| >= 4 {
      assert HELLO_BYTES[1] == 0x48 && PROBE_BYTES[1] == 0x50 && GAME_BYTES[1] == 0x47 && JOIN_BYTES[1] == 0x4A &&
          ANSWER_BYTES[1] == 0x41;
      assert data[..4][1] == data[1];
    }
  }

  // ----- the frames, as laid out -----

  function Clamped(deadline: int): nat {
    if deadline < 0 then 0 else if deadline > 0xFFFF_FFFF then 0xFFFF_FFFF else deadline
  }

  function HelloFrame(appTag: nat, flags: int, deadline: int): seq<nat> {
    HELLO_BYTES + [PROTOCOL_VERSION] + Laid(appTag, 8) + [flags % 256] + Laid(Clamped(deadline), 4)
  }

  /** A probe request, or a reply's header. */
  function ProbeFrame(status: int, payload: seq<nat>): seq<nat> {
    PROBE_BYTES + [PROTOCOL_VERSION] + [status % 256] + payload
  }

  function NumberOf(kind: AnswerKind): nat {
    match kind case Admitted => 0 case Refused => 1 case Confirmed => 2
  }

  function AnswerHeader(kind: AnswerKind): seq<nat> {
    ANSWER_BYTES + [PROTOCOL_VERSION] + [NumberOf(kind)]
  }

  function RefusedFrame(code: int, text: seq<nat>): seq<nat> {
    AnswerHeader(Refused) + Laid(code % 0x1_0000_0000, 4) + [|text| % 256] + text
  }

  /** `int32_t`: the value read as a signed 32-bit word. */
  function Int32(value: int): (word: int)
    ensures -0x8000_0000 <= word < 0x8000_0000 && (word - value) % 0x1_0000_0000 == 0
  {
    var low := value % 0x1_0000_0000;
    assert value == 0x1_0000_0000 * (value / 0x1_0000_0000) + low;
    if low < 0x8000_0000 then low else low - 0x1_0000_0000
  }

  // ----- the frames, as read -----

  function HelloIn(data: seq<nat>, local: nat): Hello {
    if !Starts(data, HELLO_BYTES) || |data| < 14 then NoHello()
    else
      var version, appTag := data[4], Word(data[5..13]);
      if version != PROTOCOL_VERSION then Hello(Version, version, appTag, 0, 0)
      else if |data| < HELLO_HEADER_LEN then Hello(Framing, version, appTag, 0, 0)
      else if appTag != local then Hello(App, version, appTag, 0, 0)
      else Hello(NoRefusal, version, appTag, data[13], Word(data[14..18]))
  }

  function ProbeIn(data: seq<nat>): ProbeReply {
    if !Starts(data, PROBE_BYTES) || |data| < PROBE_HEADER_LEN then ProbeReply(false, 0, 0, [])
    else if data[4] != PROTOCOL_VERSION then ProbeReply(false, data[4], 0, [])
    else ProbeReply(true, data[4], data[5], data[PROBE_HEADER_LEN..])
  }

  function AnswerIn(data: seq<nat>): Answer {
    if !Starts(data, ANSWER_BYTES) || |data| < ANSWER_HEADER_LEN || data[4] != PROTOCOL_VERSION then NoAnswer()
    else if data[5] == NumberOf(Admitted)
         then NoAnswer().(ok := true, kind := Admitted, payload := data[ANSWER_HEADER_LEN..])
    else if data[5] == NumberOf(Confirmed)
         then NoAnswer().(ok := true, kind := Confirmed, payload := data[ANSWER_HEADER_LEN..])
    else if data[5] != NumberOf(Refused) || |data| < ANSWER_HEADER_LEN + 5 ||
      |data| != ANSWER_HEADER_LEN + 5 + data[10] then NoAnswer()
    else NoAnswer().(ok := true, code := Int32(Word(data[6..10])), reason := Decode(data[11..]))
  }

  // ----- encoders and decoders -----

  method EncodeClientHello(appTag: nat, flags: int, deadline: int) returns (buffer: seq<nat>)
    ensures buffer == HelloFrame(appTag, flags, deadline)
  {
    buffer := HELLO_BYTES;
    buffer := buffer + [PROTOCOL_VERSION];
    buffer := AppendWord(buffer, appTag, 8);
    buffer := buffer + [flags % 256];
    var wait := if deadline < 0 then 0 else deadline;
    buffer := AppendWord(buffer, if wait > 0xFFFF_FFFF then 0xFFFF_FFFF else wait, 4);
  }

  method DecodeClientHello(data: seq<nat>, local: nat) returns (decoded: Hello)
    requires Bytes(data)
    ensures decoded == HelloIn(data, local)
  {
    hide Starts, Word;
    decoded := NoHello();
    var same := Matches(data, HELLO_BYTES);
    if !same || |data| < 14 {
      return;
    }
    var appTag := ReadWord(data, 5, 8);
    decoded := decoded.(version := data[4], appTag := appTag);
    if decoded.version != PROTOCOL_VERSION {
      return decoded.(refusal := Version);
    }
    if |data| < HELLO_HEADER_LEN {
      return;
    }
    if decoded.appTag != local {
      return decoded.(refusal := App);
    }
    var deadline := ReadWord(data, 14, 4);
    decoded := decoded.(refusal := NoRefusal, flags := data[13], deadlineMsec := deadline);
  }

  method EncodeProbeRequest(flags: int) returns (buffer: seq<nat>)
    ensures buffer == ProbeFrame(flags, [])
  {
    buffer := PROBE_BYTES;
    buffer := buffer + [PROTOCOL_VERSION];
    buffer := buffer + [flags % 256];
  }

  method DecodeProbeRequest(data: seq<nat>) returns (decoded: ProbeRequest)
    ensures var reply := ProbeIn(data); decoded == ProbeRequest(reply.ok, reply.version, reply.status)
  {
    hide Starts;
    decoded := ProbeRequest(false, 0, 0);
    var same := Matches(data, PROBE_BYTES);
    if !same || |data| < PROBE_HEADER_LEN {
      return;
    }
    decoded := decoded.(version := data[4]);
    if decoded.version != PROTOCOL_VERSION {
      return;
    }
    decoded := decoded.(ok := true, flags := data[5]);
  }

  method EncodeProbeReply(status: int, payload: seq<nat>) returns (buffer: seq<nat>)
    ensures buffer == ProbeFrame(status, payload)
  {
    buffer := PROBE_BYTES;
    buffer := buffer + [PROTOCOL_VERSION];
    buffer := buffer + [status % 256];
    buffer := buffer + payload;
  }

  method DecodeProbeReply(data: seq<nat>) returns (decoded: ProbeReply)
    ensures decoded == ProbeIn(data)
  {
    hide Starts;
    decoded := ProbeReply(false, 0, 0, []);
    var same := Matches(data, PROBE_BYTES);
    if !same || |data| < PROBE_HEADER_LEN {
      return;
    }
    decoded := decoded.(version := data[4]);
    if decoded.version != PROTOCOL_VERSION {
      return;
    }
    decoded := decoded.(ok := true, status := data[5], payload := data[PROBE_HEADER_LEN..]);
  }

  method EncodeRefused(code: int, reason: seq<Scalar>) returns (buffer: seq<nat>)
    ensures buffer == RefusedFrame(code, Encode(Fitting(reason, 255)))
  {
    hide Fitting, Encode, Laid;
    buffer := AnswerHeader(Refused);
    buffer := AppendWord(buffer, code % 0x1_0000_0000, 4);
    var capped := CappedReason(reason);
    var text := Encode(capped);
    buffer := buffer + [|text| % 256];
    ghost var header := buffer;
    for at := 0 to |text|
      invariant buffer == header + text[..at]
    {
      buffer := buffer + [text[at]];
    }
    assert text[..|text|] == text;
  }

  method DecodeAnswer(data: seq<nat>) returns (decoded: Answer)
    requires Bytes(data)
    ensures decoded == AnswerIn(data)
  {
    hide Starts, Word, Decode;
    decoded := NoAnswer();
    var same := Matches(data, ANSWER_BYTES);
    if !same || |data| < ANSWER_HEADER_LEN || data[4] != PROTOCOL_VERSION {
      return;
    }
    var kind := data[5];
    if kind == NumberOf(Admitted) || kind == NumberOf(Confirmed) {
      return decoded.(ok := true, kind := if kind == NumberOf(Admitted) then Admitted else Confirmed,
                      payload := data[ANSWER_HEADER_LEN..]);
    }
    if kind != NumberOf(Refused) || |data| < ANSWER_HEADER_LEN + 5 {
      return;
    }
    var length := data[ANSWER_HEADER_LEN + 4];
    if |data| != ANSWER_HEADER_LEN + 5 + length {
      return;
    }
    var code := ReadWord(data, ANSWER_HEADER_LEN, 4);
    decoded := decoded.(ok := true, kind := Refused, code := Int32(code), reason := Decode(data[11..11 + length]));
    assert data[11..11 + length] == data[11..];
  }

  // ----- the cap on a reason -----

  lemma AndEven(x: nat, half: nat)
    ensures And(x, 2 * half) == 2 * And(x / 2, half)
  {
    assert (2 * half) / 2 == half && (2 * half) % 2 == 0;
    if x != 0 && half != 0 {
      assert And(x, 2 * half) == 2 * And(x / 2, (2 * half) / 2);
    }
  }

  lemma TopBits(b: nat)
    ensures And(b, 0xC0) == 64 * And(b / 64, 3)
  {
    hide And;
    var b1, b2, b3, b4, b5 := b / 2, b / 4, b / 8, b / 16, b / 32;
    assert b1 / 2 == b2 && b2 / 2 == b3 && b3 / 2 == b4 && b4 / 2 == b5 && b5 / 2 == b / 64;
    AndEven(b, 0x60);
    AndEven(b1, 0x30);
    AndEven(b2, 0x18);
    AndEven(b3, 0xC);
    AndEven(b4, 6);
    AndEven(b5, 3);
  }

  lemma LowTwoBits(x: nat)
    ensures And(x, 3) == x % 4
  {
    assert Pow2(2) == 4;
    MaskIsMod(x, 2);
  }

  /** `(b & 0xC0) == 0x80` */
  lemma TailTest(b: nat)
    requires b < 256
    ensures And(b, 0xC0) == 0x80 <==> IsTail(b)
  {
    hide And;
    TopBits(b);
    LowTwoBits(b / 64);
  }

  /**
   The reason, or its longest prefix of whole characters within the cap: the cut moves back from the
   cap over the bytes that continue a character.
   */
  method CappedReason(reason: seq<Scalar>) returns (capped: seq<Scalar>)
    ensures capped == Fitting(reason, 255)
  {
    hide Fitting, Encode, Decode, And;
    var text := Encode(reason);
    if |text| <= REASON_CAP {
      assert reason[..|reason|] == reason;
      FittingIs(reason, REASON_CAP, |reason|);
      return reason;
    }
    EncodedBytes(reason);
    var cut := REASON_CAP;
    while cut > 0 && And(text[cut], 0xC0) == 0x80
      invariant 0 <= cut <= REASON_CAP
      invariant forall i :: cut < i <= REASON_CAP ==> IsTail(text[i])
    {
      TailTest(text[cut]);
      cut := cut - 1;
    }
    TailTest(text[cut]);
    FirstIsNoTail(reason, text);
    var k := CutIsBoundary(reason, cut, REASON_CAP);
    capped := Decode(text[..cut]).value;
  }

  lemma {:induction false} EncodedBytes(text: seq<Scalar>)
    ensures Bytes(Encode(text))
  {
    if text == [] {
    } else {
      TailsOfOne(text[0]);
      EncodedBytes(text[1..]);
    }
  }

  lemma FirstIsNoTail(text: seq<Scalar>, bytes: seq<nat>)
    requires bytes == Encode(text) && bytes != []
    ensures !IsTail(bytes[0])
  {
    TailsOfOne(text[0]);
  }

  /** The last start of a character within the cap ends the longest prefix that fits. */
  lemma CutIsBoundary(text: seq<Scalar>, cut: nat, cap: nat) returns (k: nat)
    requires cut <= cap < |Encode(text)| && !IsTail(Encode(text)[cut])
    requires forall i :: cut < i <= cap ==> IsTail(Encode(text)[i])
    ensures k <= |text| && Decode(Encode(text)[..cut]) == Some(Fitting(text, cap))
  {
    hide Fitting, Decode, Encode;
    k := BoundaryAt(text, cut);
    PrefixGrows(text, k, k + 1);
    if k + 1 < |text| {
      StartIsNoTail(text, k + 1);
    } else {
      assert text[..k + 1] == text;
    }
    FittingIs(text, cap, k);
    DecodesEncoding(text[..k]);
  }

  // ----- the round trips -----

  lemma Bounds()
    ensures Bound(4) == 0x1_0000_0000 && Bound(8) == 0x1_0000_0000_0000_0000
  {
    assert Bound(4) == 256 * (256 * (256 * 256));
    assert Bound(8) == 256 * (256 * (256 * (256 * Bound(4))));
  }

  /** A hello reads back with its flags masked and its deadline clamped, or names the build it came from. */
  lemma HelloReadsBack(appTag: nat, flags: int, deadline: int, local: nat)
    requires appTag < 0x1_0000_0000_0000_0000
    ensures HelloIn(HelloFrame(appTag, flags, deadline), local) ==
              if appTag == local then Hello(NoRefusal, PROTOCOL_VERSION, appTag, flags % 256, Clamped(deadline))
              else Hello(App, PROTOCOL_VERSION, appTag, 0, 0)
  {
    hide Laid, Word, Bound;
    var frame := HelloFrame(appTag, flags, deadline);
    Bounds();
    LaidReadsBack(appTag, 8);
    LaidReadsBack(Clamped(deadline), 4);
    assert frame[..4] == HELLO_BYTES;
    assert frame[5..13] == Laid(appTag, 8);
    assert frame[14..18] == Laid(Clamped(deadline), 4);
  }

  /** The hellos accepted are exactly those that start with the frame of the local build, whatever follows it. */
  lemma HelloAcceptedIff(data: seq<nat>, local: nat)
    requires Bytes(data) && local < 0x1_0000_0000_0000_0000
    ensures HelloIn(data, local).refusal == NoRefusal <==>
              |data| >= HELLO_HEADER_LEN && data[..HELLO_HEADER_LEN] == HelloFrame(local, data[13], Word(data[14..18]))
  {
    hide Laid, Word, Bound;
    Bounds();
    if |data| >= HELLO_HEADER_LEN {
      var frame := HelloFrame(local, data[13], Word(data[14..18]));
      ReadLaysOut(data[5..13]);
      ReadLaysOut(data[14..18]);
      LaidReadsBack(local, 8);
      if HelloIn(data, local).refusal == NoRefusal {
        assert data[..18] == data[..4] + [data[4]] + data[5..13] + [data[13]] + data[14..18];
      }
      if data[..18] == frame {
        assert data[..4] == data[..18][..4] == HELLO_BYTES;
        assert data[4] == data[..18][4] == PROTOCOL_VERSION;
        assert data[5..13] == data[..18][5..13] == Laid(local, 8);
      }
    }
  }

  /** A probe request or reply reads back with its flags or status masked and its payload whole. */
  lemma ProbeReadsBack(status: int, payload: seq<nat>)
    ensures ProbeIn(ProbeFrame(status, payload)) == ProbeReply(true, PROTOCOL_VERSION, status % 256, payload)
  {
    var frame := ProbeFrame(status, payload);
    assert frame[..4] == PROBE_BYTES;
    assert frame[6..] == payload;
  }

  /** The probes accepted are exactly the probe frames. */
  lemma ProbeAcceptedIff(data: seq<nat>)
    requires Bytes(data)
    ensures ProbeIn(data).ok <==> |data| >= PROBE_HEADER_LEN && data == ProbeFrame(data[5], data[6..])
  {
    if |data| >= PROBE_HEADER_LEN {
      var frame := ProbeFrame(data[5], data[6..]);
      assert frame[..4] == PROBE_BYTES;
      assert data == data[..4] + [data[4]] + [data[5]] + data[6..];
    }
  }

  function PayloadOf(data: seq<nat>): seq<nat> {
    if |data| < TAG_LEN then [] else data[TAG_LEN..]
  }

  /** A game or join frame is told by its tag and carries its body whole. */
  lemma TaggedReadsBack(body: seq<nat>)
    ensures KindOf(GAME_BYTES + body) == GameKind && PayloadOf(GAME_BYTES + body) == body
    ensures KindOf(JOIN_BYTES + body) == JoinKind && PayloadOf(JOIN_BYTES + body) == body
  {
    KindsAreDisjoint(GAME_BYTES + body, GameKind);
    KindsAreDisjoint(JOIN_BYTES + body, JoinKind);
    assert (GAME_BYTES + body)[..4] == GAME_BYTES && (JOIN_BYTES + body)[..4] == JOIN_BYTES;
  }

  /** An admission reads back with its roster, a confirmation with nothing. */
  lemma AdmittedReadsBack(roster: seq<nat>)
    ensures AnswerIn(AnswerHeader(Admitted) + roster) == NoAnswer().(ok := true, kind := Admitted, payload := roster)
    ensures AnswerIn(AnswerHeader(Confirmed)) == NoAnswer().(ok := true, kind := Confirmed)
  {
    var admitted, confirmed := AnswerHeader(Admitted) + roster, AnswerHeader(Confirmed);
    assert admitted[..4] == ANSWER_BYTES && confirmed[..4] == ANSWER_BYTES;
    assert admitted[6..] == roster && confirmed[6..] == [];
  }

  lemma Int32OfWord(code: int)
    ensures Int32(code % 0x1_0000_0000) == Int32(code)
  {
  }

  /** A refusal of any text of up to 255 bytes reads back with its code wrapped to 32 bits. */
  lemma {:induction false} TextReadsBack(code: int, text: seq<nat>)
    requires |text| <= REASON_CAP
    ensures AnswerIn(RefusedFrame(code, text)) ==
            NoAnswer().(ok := true, kind := Refused, code := Int32(code), reason := Decode(text))
  {
    hide Laid, Word, Bound, Decode, Int32, AnswerIn;
    var frame, low := RefusedFrame(code, text), code % 0x1_0000_0000;
    Bounds();
    LaidReadsBack(low, 4);
    Int32OfWord(code);
    assert frame[..4] == ANSWER_BYTES;
    assert frame[4] == PROTOCOL_VERSION && frame[5] == NumberOf(Refused) && frame[10] == |text|;
    assert frame[6..10] == Laid(low, 4);
    assert frame[11..] == text;
    RefusedFields(frame);
  }

  lemma RefusedFields(data: seq<nat>)
    requires |data| >= 11 && data[..4] == ANSWER_BYTES && data[4] == PROTOCOL_VERSION && data[5] == NumberOf(Refused)
    requires |data| == 11 + data[10]
    ensures AnswerIn(data) ==
            NoAnswer().(ok := true, kind := Refused, code := Int32(Word(data[6..10])), reason := Decode(data[11..]))
  {
    hide Word, Decode, Int32;
  }

  /** A refusal of any reason reads back with its code wrapped and its reason capped. */
  lemma RefusedReadsBack(code: int, reason: seq<Scalar>)
    ensures AnswerIn(RefusedFrame(code, Encode(Fitting(reason, REASON_CAP))))
         == NoAnswer().(ok := true, kind := Refused, code := Int32(code), reason := Some(Fitting(reason, REASON_CAP)))
  {
    hide Fitting, Encode, Decode, AnswerIn, RefusedFrame;
    FittingIsLongest(reason, REASON_CAP);
    DecodesEncoding(Fitting(reason, REASON_CAP));
    TextReadsBack(code, Encode(Fitting(reason, REASON_CAP)));
  }

  /** A refusal that reads as well-formed text is the very frame that code and text lay out. */
  lemma RefusedIsItsFrame(data: seq<nat>)
    requires Bytes(data)
    requires var answer := AnswerIn(data); answer.ok && answer.kind == Refused && answer.reason.Some?
    ensures var answer := AnswerIn(data);
            data == RefusedFrame(answer.code, Encode(answer.reason.value))
  {
    hide Laid, Word, Bound, Encode, Decode;
    var answer := AnswerIn(data);
    Bounds();
    ReadLaysOut(data[6..10]);
    DecodeIsStrict(data[11..]);
    Int32Lays(Word(data[6..10]));
    assert data == data[..4] + [data[4]] + [data[5]] + data[6..10] + [data[10]] + data[11..];
  }

  lemma Int32Lays(word: nat)
    requires word < 0x1_0000_0000
    ensures Int32(word) % 0x1_0000_0000 == word
  {
  }

  // ----- the frames, byte by byte -----

  lemma LaidFour(value: nat)
    ensures Laid(value, 4) == [value % 256, value / 0x100 % 256, value / 0x1_0000 % 256, value / 0x100_0000 % 256]
  {
    var a, b := value / 256, value / 256 / 256;
    assert a / 256 == value / 0x1_0000 && b / 256 == value / 0x100_0000;
    LaidStep(value, 4);
    LaidStep(a, 3);
    LaidStep(b, 2);
    LaidStep(b / 256, 1);
  }

  lemma LaidEight(value: nat)
    ensures Laid(value, 8) == Laid(value, 4) + Laid(value / 0x1_0000_0000, 4)
  {
    hide Laid;
    var a, b := value / 256, value / 256 / 256;
    var c := b / 256;
    assert c / 256 == value / 0x1_0000_0000;
    LaidStep(value, 8);
    LaidStep(a, 7);
    LaidStep(b, 6);
    LaidStep(c, 5);
    LaidStep(value, 4);
    LaidStep(a, 3);
    LaidStep(b, 2);
    LaidStep(c, 1);
    NoneLaid(c / 256);
  }

  lemma NoneLaid(value: nat)
    ensures Laid(value, 0) == []
  {
  }

  /** A hello's 18 bytes: its tag, the version, eight of the build, the flags and four of the wait. */
  lemma HelloLayout(appTag: nat, flags: int, deadline: int)
    ensures var frame, high := HelloFrame(appTag, flags, deadline), appTag / 0x1_0000_0000;
            var wait := if deadline < 0 then 0 else if deadline > 0xFFFF_FFFF then 0xFFFF_FFFF else deadline;
            && |frame| == 18 && frame[..5] == [0x4E, 0x48, 0x45, 0x4C, 6]
            && frame[5..9] == [appTag % 256, appTag / 0x100 % 256, appTag / 0x1_0000 % 256, appTag / 0x100_0000 % 256]
            && frame[9..13] == [high % 256, high / 0x100 % 256, high / 0x1_0000 % 256, high / 0x100_0000 % 256]
            && frame[13] == flags % 256
            && frame[14..] == [wait % 256, wait / 0x100 % 256, wait / 0x1_0000 % 256, wait / 0x100_0000 % 256]
  {
    hide Laid;
    var frame, high := HelloFrame(appTag, flags, deadline), appTag / 0x1_0000_0000;
    LaidEight(appTag);
    LaidFour(appTag);
    LaidFour(high);
    LaidFour(Clamped(deadline));
    assert frame == HELLO_BYTES + [PROTOCOL_VERSION] + Laid(appTag, 4) + Laid(high, 4) + [flags % 256]
                    + Laid(Clamped(deadline), 4);
    assert frame[5..9] == Laid(appTag, 4) && frame[9..13] == Laid(high, 4) && frame[14..] == Laid(Clamped(deadline), 4);
  }

  /** A probe's tag, version and flags or status, and what follows them. */
  lemma ProbeLayout(status: int, payload: seq<nat>)
    ensures ProbeFrame(status, payload) == [0x4E, 0x50, 0x52, 0x42, 6, status % 256] + payload
  {
  }

  /** An answer's header, and a refusal's code, length and text after it. */
  lemma AnswerLayout(code: int, text: seq<nat>)
    ensures AnswerHeader(Admitted) == [0x4E, 0x41, 0x4E, 0x53, 6, 0]
    ensures AnswerHeader(Confirmed) == [0x4E, 0x41, 0x4E, 0x53, 6, 2]
    ensures var frame, word := RefusedFrame(code, text), code % 0x1_0000_0000;
            && |frame| == 11 + |text| && frame[..6] == [0x4E, 0x41, 0x4E, 0x53, 6, 1]
            && frame[6..10] == [word % 256, word / 0x100 % 256, word / 0x1_0000 % 256, word / 0x100_0000 % 256]
            && frame[10] == |text| % 256 && frame[11..] == text
  {
    hide Laid;
    var frame := RefusedFrame(code, text);
    LaidFour(code % 0x1_0000_0000);
    assert frame[6..10] == Laid(code % 0x1_0000_0000, 4);
    assert frame[11..] == text;
  }

  // ----- frames refused -----

  /** A hello of 14 bytes of another protocol version is refused as such, under the version and build it names. */
  lemma ForeignHello(version: nat, appTag: nat, rest: seq<nat>, local: nat)
    requires version != 6 && appTag < 0x1_0000_0000_0000_0000
    ensures HelloIn([0x4E, 0x48, 0x45, 0x4C, version] + Laid(appTag, 8) + rest, local) ==
              if rest == [] then Hello(Framing, 0, 0, 0, 0) else Hello(Version, version, appTag, 0, 0)
  {
    hide Laid, Word, Bound;
    Bounds();
    LaidReadsBack(appTag, 8);
    var data := [0x4E, 0x48, 0x45, 0x4C, version] + Laid(appTag, 8) + rest;
    assert data[..4] == HELLO_BYTES && data[5..13] == Laid(appTag, 8);
  }

  /** A hello cut short is refused: with less than 14 bytes it names nothing, with fewer than 18 its build. */
  lemma CutHello(appTag: nat, flags: int, deadline: int, local: nat, n: nat)
    requires appTag < 0x1_0000_0000_0000_0000 && n < 18
    ensures var frame := HelloFrame(appTag, flags, deadline);
            n <= |frame| && HelloIn(frame[..n], local) ==
              if n < 14 then Hello(Framing, 0, 0, 0, 0) else Hello(Framing, 6, appTag, 0, 0)
  {
    hide Laid, Word, Bound;
    Bounds();
    LaidReadsBack(appTag, 8);
    var frame := HelloFrame(appTag, flags, deadline);
    if n >= 14 {
      assert frame[..n][..4] == HELLO_BYTES && frame[..n][5..13] == Laid(appTag, 8);
    }
  }

  /** A probe of another version names it and no more; a probe cut short names nothing. */
  lemma ForeignProbe(version: nat, rest: seq<nat>)
    requires version != 6
    ensures ProbeIn([0x4E, 0x50, 0x52, 0x42, version] + rest) ==
              if rest == [] then ProbeReply(false, 0, 0, []) else ProbeReply(false, version, 0, [])
  {
    var data := [0x4E, 0x50, 0x52, 0x42, version] + rest;
    assert data[..4] == PROBE_BYTES;
  }

  /** The answers accepted: an admission or a confirmation, or a refusal exactly as long as it says. */
  lemma AnswerAcceptedIff(data: seq<nat>)
    ensures AnswerIn(data).ok <==>
              && |data| >= 6 && data[..5] == [0x4E, 0x41, 0x4E, 0x53, 6]
              && (data[5] == 0 || data[5] == 2 || (data[5] == 1 && |data| >= 11 && |data| == 11 + data[10]))
  {
    hide Word, Decode;
    if |data| >= 6 {
      assert data[..5] == data[..4] + [data[4]];
      assert data[..5][..4] == data[..4];
    }
  }
}
