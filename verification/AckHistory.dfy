/**
 Inbound datagram bookkeeping, on values: 16-bit sequence numbers that wrap, the 32-bit history of the
 numbers behind the freshest one, and the unbounded numbers they stand for.
 */
module AckHistory {
  import opened Wrappers
  import opened Bits

  const SEQ_COUNT := 0x1_0000
  const HISTORY_DEPTH := 32

  /** The 16-bit number a datagram carries. */
  function Seq(n: int): (s: nat)
    ensures s < SEQ_COUNT
  {
    n % SEQ_COUNT
  }

  /** `uint16_t(newer - older)` */
  function Distance(newer: int, older: int): nat {
    (newer - older) % SEQ_COUNT
  }

  predicate IsFresher(a: int, b: int) {
    a != b && Distance(a, b) < 32768
  }

  /** The order on serial numbers of section 3.2 of RFC 1982, with SERIAL_BITS 16. */
  predicate SerialGreater(s1: nat, s2: nat) {
    || (s1 < s2 && s2 - s1 > 32768)
    || (s1 > s2 && s1 - s2 < 32768)
  }

  lemma FresherIsSerial(a: nat, b: nat)
    requires a < SEQ_COUNT && b < SEQ_COUNT
    ensures IsFresher(a, b) == SerialGreater(a, b)
  {
  }

  /** Within 32767 of each other the wrapped numbers order and measure like the unbounded ones. */
  lemma WrappedOrder(n: nat, m: nat)
    requires -32768 < n - m < 32768
    ensures IsFresher(Seq(n), Seq(m)) == (n > m)
    ensures n >= m ==> Distance(Seq(n), Seq(m)) == n - m
    ensures Seq(n) == Seq(m) ==> n == m
  {
    var d := n - m;
    assert (Seq(n) - Seq(m) - d) % SEQ_COUNT == 0;
  }

  // ----- one arrival -----

  datatype Inbound = Inbound(freshest: nat, history: nat)

  datatype Verdict = Fresh | Duplicate | Reordered | Stale

  function Judge(held: Option<Inbound>, serial: nat): Verdict {
    match held
    case None => Fresh
    case Some(inbound) =>
      if IsFresher(serial, inbound.freshest) then Fresh
      else
        var back := Distance(inbound.freshest, serial);
        if back == 0 then Duplicate
        else if back > HISTORY_DEPTH then Stale
        else if Bit(inbound.history, back - 1) then Duplicate
        else Reordered
  }

  function Note(held: Option<Inbound>, serial: nat): Inbound {
    match held
    case None => Inbound(serial, 0)
    case Some(inbound) =>
      if IsFresher(serial, inbound.freshest) then
        var step := Distance(serial, inbound.freshest);
        Inbound(serial, if step >= 32 || step == 0 then 0 else Or(Shl(inbound.history, step, 32), Pow2(step - 1)))
      else
        var back := Distance(inbound.freshest, serial);
        if 1 <= back <= HISTORY_DEPTH && !Bit(inbound.history, back - 1)
        then inbound.(history := Or(inbound.history, Pow2(back - 1))) else inbound
  }

  // ----- whole runs over unbounded numbers -----

  function Run(arrivals: seq<nat>): (held: Option<Inbound>)
    ensures held.Some? <==> arrivals != []
    ensures held.Some? ==> held.value.freshest < SEQ_COUNT
  {
    if arrivals == [] then None
    else Some(Note(Run(arrivals[..|arrivals| - 1]), Seq(arrivals[|arrivals| - 1])))
  }

  function Highest(arrivals: seq<nat>): nat
    requires arrivals != []
  {
    var last := arrivals[|arrivals| - 1];
    if |arrivals| == 1 then last
    else
      var before := Highest(arrivals[..|arrivals| - 1]);
      if last > before then last else before
  }

  lemma {:induction false} HighestIsMaximum(arrivals: seq<nat>)
    requires arrivals != []
    ensures Highest(arrivals) in arrivals && forall n :: n in arrivals ==> n <= Highest(arrivals)
  {
    if |arrivals| > 1 {
      HighestIsMaximum(arrivals[..|arrivals| - 1]);
      assert arrivals == arrivals[..|arrivals| - 1] + [arrivals[|arrivals| - 1]];
    }
  }

  /** Every arrival is within 32767 of the highest number seen before it. */
  ghost predicate Near(arrivals: seq<nat>) {
    forall i :: 1 <= i < |arrivals| ==> -32768 < arrivals[i] - Highest(arrivals[..i]) < 32768
  }

  /**
   The one number the book forgets: a jump of exactly 32 clears the bit of the number it jumped from,
   until that number arrives again or the next jump puts it out of reach.
   */
  function Forgotten(arrivals: seq<nat>): Option<nat> {
    if |arrivals| <= 1 then None
    else
      var early, last := arrivals[..|arrivals| - 1], arrivals[|arrivals| - 1];
      var before := Highest(early);
      if last > before then (if last - before == 32 then Some(before) else None)
      else if Forgotten(early) == Some(last) then None
      else Forgotten(early)
  }

  /** `max - k` was received. */
  ghost predicate Received(arrivals: seq<nat>, k: nat)
    requires arrivals != []
  {
    Highest(arrivals) - k in arrivals
  }

  /** `max - k` was received, and is not the number the book forgot. */
  ghost predicate Remembered(arrivals: seq<nat>, k: nat)
    requires arrivals != []
  {
    Received(arrivals, k) && Forgotten(arrivals) != Some(Highest(arrivals) - k)
  }

  /** The freshest number is the highest one, and bit `k - 1` says exactly whether `max - k` is remembered. */
  ghost predicate Tracks(inbound: Inbound, arrivals: seq<nat>)
    requires arrivals != []
  {
    && inbound.freshest == Seq(Highest(arrivals))
    && forall k :: 1 <= k <= 32 ==> Bit(inbound.history, k - 1) == Remembered(arrivals, k)
  }

  lemma {:induction false} ForgottenIsAtTheEdge(arrivals: seq<nat>)
    requires arrivals != [] && Forgotten(arrivals).Some?
    ensures Forgotten(arrivals) == Some(Highest(arrivals) - 32) && Forgotten(arrivals).value in arrivals
  {
    var early, last := arrivals[..|arrivals| - 1], arrivals[|arrivals| - 1];
    assert arrivals == early + [last];
    HighestIsMaximum(early);
    if last <= Highest(early) {
      ForgottenIsAtTheEdge(early);
    }
  }

  /** A forward step of 1 to 31 slides the history and records the number it left. */
  lemma SlideBit(history: nat, step: nat, k: nat)
    requires 1 <= step < 32 && 1 <= k <= 32
    ensures Bit(Or(Shl(history, step, 32), Pow2(step - 1)), k - 1)
         == (k == step || (k > step && Bit(history, k - step - 1)))
  {
    OrBit(Shl(history, step, 32), Pow2(step - 1), k - 1);
    ShlBit(history, step, 32, k - 1);
    Pow2Bit(step - 1, k - 1);
  }

  lemma AppendFacts(early: seq<nat>, last: nat)
    requires early != []
    ensures var all := early + [last];
            && Highest(all) == (if last > Highest(early) then last else Highest(early))
            && Forgotten(all) ==
               (if last > Highest(early) then (if last - Highest(early) == 32 then Some(Highest(early)) else None)
                                  else if Forgotten(early) == Some(last) then None else Forgotten(early))
            && forall n :: n in all <==> n in early || n == last
  {
    var all := early + [last];
    assert all[..|early|] == early;
  }

  /** What a forward step leaves remembered. */
  lemma RememberedAfterStep(early: seq<nat>, last: nat, k: nat)
    requires early != [] && last > Highest(early) && 1 <= k <= 32
    ensures var step := last - Highest(early);
            Remembered(early + [last], k) == (step < 32 && (k == step || (k > step && Remembered(early, k - step))))
  {
    hide Highest, Forgotten;
    AppendFacts(early, last);
    HighestIsMaximum(early);
    if Forgotten(early).Some? { ForgottenIsAtTheEdge(early); }
  }

  lemma {:induction false} AdvanceTracks(inbound: Inbound, early: seq<nat>, last: nat)
    requires early != [] && Tracks(inbound, early) && 0 < last - Highest(early) < 32768
    ensures Tracks(Note(Some(inbound), Seq(last)), early + [last])
  {
    hide Remembered, Highest, Forgotten, Bit, Or, Shl, Pow2, Seq, Distance, IsFresher;
    var step := last - Highest(early);
    var after := Note(Some(inbound), Seq(last));
    WrappedOrder(last, Highest(early));
    AppendFacts(early, last);
    forall k | 1 <= k <= 32
      ensures Bit(after.history, k - 1) == Remembered(early + [last], k)
    {
      RememberedAfterStep(early, last, k);
      if step >= 32 {
        ZeroBit(k - 1);
      } else {
        SlideBit(inbound.history, step, k);
        assert k > step ==> Bit(inbound.history, k - step - 1) == Remembered(early, k - step);
      }
    }
  }

  /** What an arrival at or below the maximum leaves remembered. */
  lemma RememberedAfterFill(early: seq<nat>, last: nat, k: nat)
    requires early != [] && last <= Highest(early) && 1 <= k <= 32
    ensures Remembered(early + [last], k) == (k == Highest(early) - last || Remembered(early, k))
  {
    hide Highest, Forgotten;
    AppendFacts(early, last);
    HighestIsMaximum(early);
    if Forgotten(early).Some? { ForgottenIsAtTheEdge(early); }
  }

  lemma {:induction false} FillTracks(inbound: Inbound, early: seq<nat>, last: nat)
    requires early != [] && Tracks(inbound, early) && 0 <= Highest(early) - last < 32768
    ensures Tracks(Note(Some(inbound), Seq(last)), early + [last])
  {
    hide Remembered, Highest, Forgotten, Bit, Or, Shl, Pow2, Seq, Distance, IsFresher;
    var back := Highest(early) - last;
    var after := Note(Some(inbound), Seq(last));
    WrappedOrder(last, Highest(early));
    WrappedOrder(Highest(early), last);
    AppendFacts(early, last);
    forall k | 1 <= k <= 32
      ensures Bit(after.history, k - 1) == Remembered(early + [last], k)
    {
      RememberedAfterFill(early, last, k);
      assert Bit(inbound.history, k - 1) == Remembered(early, k);
      if 1 <= back <= 32 {
        OrBit(inbound.history, Pow2(back - 1), k - 1);
        Pow2Bit(back - 1, k - 1);
      }
    }
  }

  /**
   The book refines the set of unbounded numbers received. For arrivals each within 32767 of the
   highest so far, the stored freshest number is that maximum modulo 2^16, and bit `k - 1` is set
   exactly when `max - k` was received and is not the one number forgotten by a jump of exactly 32.
   */
  lemma {:induction false} HistoryRefinesReceived(arrivals: seq<nat>)
    requires arrivals != [] && Near(arrivals)
    ensures Tracks(Run(arrivals).value, arrivals)
  {
    var early: seq<nat>, last: nat := arrivals[..|arrivals| - 1], arrivals[|arrivals| - 1];
    assert arrivals == early + [last];
    if early == [] {
      forall k | 1 <= k <= 32
        ensures Bit(0, k - 1) == Remembered(arrivals, k)
      {
        ZeroBit(k - 1);
      }
    } else {
      forall i | 1 <= i < |early|
        ensures -32768 < early[i] - Highest(early[..i]) < 32768
      {
        assert arrivals[..i] == early[..i];
      }
      HistoryRefinesReceived(early);
      if last > Highest(early) {
        AdvanceTracks(Run(early).value, early, last);
      } else {
        FillTracks(Run(early).value, early, last);
      }
    }
  }

  /** The history is exact: bit `k - 1` is set if and only if `max - k` was received. */
  ghost predicate Exact(history: nat, arrivals: seq<nat>)
    requires arrivals != []
  {
    forall k :: 1 <= k <= 32 ==> Bit(history, k - 1) == Received(arrivals, k)
  }

  /** The history is exact if and only if no number is forgotten. */
  lemma HistoryIsExactIff(arrivals: seq<nat>)
    requires arrivals != [] && Near(arrivals)
    ensures Exact(Run(arrivals).value.history, arrivals) <==> Forgotten(arrivals) == None
  {
    hide Run;
    HistoryRefinesReceived(arrivals);
    if Forgotten(arrivals).Some? {
      ForgottenIsAtTheEdge(arrivals);
      assert Received(arrivals, 32) && !Remembered(arrivals, 32);
      assert Bit(Run(arrivals).value.history, 32 - 1) == Remembered(arrivals, 32);
    } else {
      forall k | 1 <= k <= 32
        ensures Bit(Run(arrivals).value.history, k - 1) == Received(arrivals, k)
      {
        assert Bit(Run(arrivals).value.history, k - 1) == Remembered(arrivals, k);
      }
    }
  }

  /** Without a forward jump of exactly 32 nothing is ever forgotten. */
  lemma {:induction false} NoJumpOf32ForgetsNothing(arrivals: seq<nat>)
    requires forall i :: 1 <= i < |arrivals| ==> arrivals[i] - Highest(arrivals[..i]) != 32
    ensures Forgotten(arrivals) == None
  {
    if |arrivals| > 1 {
      var early := arrivals[..|arrivals| - 1];
      assert forall i :: 1 <= i < |early| ==> early[..i] == arrivals[..i];
      NoJumpOf32ForgetsNothing(early);
    }
  }

  /** A jump of exactly 32 does lose a number that was received. */
  lemma JumpOf32Forgets()
    ensures Near([0, 32]) && Highest([0, 32]) - 32 in [0, 32] && !Bit(Run([0, 32]).value.history, 31)
  {
    assert [0, 32][..1] == [0];
    assert Highest([0]) == 0 && Highest([0, 32]) == 32;
    assert Forgotten([0, 32]) == Some(0);
    HistoryRefinesReceived([0, 32]);
    assert Bit(Run([0, 32]).value.history, 32 - 1) == Remembered([0, 32], 32);
  }

  /**
   What each arrival is judged to be: fresh exactly when it is above everything received, a duplicate
   or a reorder when it is within 32 of the maximum and was or was not remembered, and stale otherwise.
   */
  lemma {:induction false} VerdictMeaning(arrivals: seq<nat>, n: nat)
    requires arrivals != [] && Near(arrivals) && -32768 < n - Highest(arrivals) < 32768
    ensures var back := Highest(arrivals) - n;
            Judge(Run(arrivals), Seq(n)) ==
              if back < 0 then Fresh
              else if back == 0 then Duplicate
              else if back > 32 then Stale
              else if n in arrivals && Forgotten(arrivals) != Some(n) then Duplicate
              else Reordered
  {
    hide Near, Run, Bit, Forgotten, Highest, Seq, Distance, IsFresher;
    HistoryRefinesReceived(arrivals);
    var high := Highest(arrivals);
    WrappedOrder(n, high);
    WrappedOrder(high, n);
    var back := high - n;
    if 1 <= back <= 32 {
      assert Bit(Run(arrivals).value.history, back - 1) == Remembered(arrivals, back);
    }
  }

  /** The numbers as datagrams carry them. */
  function Wire(numbers: seq<nat>): seq<nat> {
    seq(|numbers|, i requires 0 <= i < |numbers| => Seq(numbers[i]))
  }

  /** A book that is only told the wrapped numbers holds the history of the unbounded ones. */
  lemma {:induction false} WireTracksReceived(arrivals: seq<nat>)
    requires arrivals != [] && Near(arrivals)
    ensures Run(Wire(arrivals)).Some? && Tracks(Run(Wire(arrivals)).value, arrivals)
  {
    WireRunsAlike(arrivals);
    HistoryRefinesReceived(arrivals);
  }

  lemma RunAppend(early: seq<nat>, last: nat)
    ensures Run(early + [last]) == Some(Note(Run(early), Seq(last)))
  {
    assert (early + [last])[..|early|] == early;
  }

  lemma {:induction false} WireRunsAlike(arrivals: seq<nat>)
    ensures Run(Wire(arrivals)) == Run(arrivals)
  {
    if arrivals == [] {
    } else {
      var early, last := arrivals[..|arrivals| - 1], arrivals[|arrivals| - 1];
      assert Seq(Seq(last)) == Seq(last);
      hide Run, Note, Seq;
      assert arrivals == early + [last];
      assert Wire(arrivals) == Wire(early) + [Seq(last)];
      WireRunsAlike(early);
      RunAppend(early, last);
      RunAppend(Wire(early), Seq(last));
    }
  }
}
