/**
 Packets in flight, on values: which unbounded send each 16-bit number stands for, what an ack with its
 32-bit history says of them, and what that has to do with what the peer really received.
 */
module AckFlights {
  import opened Wrappers
  import opened Bits
  import opened AckHistory

  const MAX_IN_FLIGHT := 128

  datatype AckEntry = AckEntry(serial: nat, frames: nat, bits: int)

  /** `int16_t(a - b)` */
  function Signed(a: int, b: int): int {
    var d := Distance(a, b);
    if d < 32768 then d else d - SEQ_COUNT
  }

  /** Whether an ack of `serial` with this history names the packet `q`. */
  predicate Names(serial: nat, history: nat, q: nat) {
    NamesUpTo(serial, history, q, HISTORY_DEPTH)
  }

  /** The same for the ack itself and the first `back` bits of its history. */
  predicate NamesUpTo(serial: nat, history: nat, q: nat, back: nat) {
    var d := Distance(serial, q);
    d == 0 || (d <= back && Bit(history, d - 1))
  }

  /** The same of unbounded numbers. */
  predicate Acks(top: int, history: nat, n: int) {
    n == top || (1 <= top - n <= 32 && Bit(history, top - n - 1))
  }

  /** Within 32767 the wrapped numbers of an ack and a packet say what the unbounded ones do. */
  lemma NamesIsAcks(top: int, history: nat, n: int)
    requires -32768 < top - n < 32768
    ensures Names(Seq(top), history, Seq(n)) <==> Acks(top, history, n)
  {
    hide Bit;
    assert (Seq(top) - Seq(n) - (top - n)) % SEQ_COUNT == 0;
  }

  lemma SignedIsDifference(a: int, b: int)
    requires -32768 < a - b < 32768
    ensures Signed(Seq(a), Seq(b)) == a - b
  {
    assert (Seq(a) - Seq(b) - (a - b)) % SEQ_COUNT == 0;
  }

  lemma SlotOfSeq(n: int)
    ensures Seq(n) % MAX_IN_FLIGHT == n % MAX_IN_FLIGHT
  {
    assert n == SEQ_COUNT * (n / SEQ_COUNT) + Seq(n);
    assert n == MAX_IN_FLIGHT * (512 * (n / SEQ_COUNT)) + Seq(n);
  }

  // ----- packets in flight -----

  /** The entry waits in its slot. */
  predicate Flying(ring: seq<AckEntry>, active: seq<bool>, e: AckEntry) {
    |ring| == |active| == MAX_IN_FLIGHT && active[e.serial % MAX_IN_FLIGHT] && ring[e.serial % MAX_IN_FLIGHT] == e
  }

  /** Each packet in flight waits in the slot of its number, which stands for the send filed there. */
  ghost predicate Files(ring: seq<AckEntry>, active: seq<bool>, numbers: seq<int>) {
    && |ring| == |active| == |numbers| == MAX_IN_FLIGHT
    && forall s ::
       0 <= s < MAX_IN_FLIGHT && active[s] ==> numbers[s] % MAX_IN_FLIGHT == s && ring[s].serial == Seq(numbers[s])
  }

  lemma FiledSerials(ring: seq<AckEntry>, active: seq<bool>, numbers: seq<int>)
    requires Files(ring, active, numbers)
    ensures forall s ::
              0 <= s < MAX_IN_FLIGHT && active[s] ==> ring[s].serial < SEQ_COUNT && ring[s].serial % MAX_IN_FLIGHT == s
  {
    hide Seq;
    forall s | 0 <= s < MAX_IN_FLIGHT && active[s]
      ensures ring[s].serial < SEQ_COUNT && ring[s].serial % MAX_IN_FLIGHT == s
    {
      SlotOfSeq(numbers[s]);
    }
  }

  /** The send is in flight. */
  predicate Flies(active: seq<bool>, numbers: seq<int>, n: int) {
    |active| == |numbers| == MAX_IN_FLIGHT && active[n % MAX_IN_FLIGHT] && numbers[n % MAX_IN_FLIGHT] == n
  }

  /** The first `back` bits done: what they name was told and is no longer in flight. */
  ghost predicate SortedBy(ring: seq<AckEntry>, before: seq<bool>, active: seq<bool>, told: seq<AckEntry>,
                           serial: nat, history: nat, back: nat)
  {
    && |ring| == |before| == |active| == MAX_IN_FLIGHT
    && (forall e :: Flying(ring, active, e) <==> Flying(ring, before, e) && !NamesUpTo(serial, history, e.serial, back))
    && (forall e :: e in told <==> Flying(ring, before, e) && NamesUpTo(serial, history, e.serial, back))
    && Distinct(told)
  }

  lemma FirstSorted(ring: seq<AckEntry>, before: seq<bool>, active: seq<bool>, told: seq<AckEntry>, serial: nat,
                    history: nat)
    requires |ring| == |before| == |active| == MAX_IN_FLIGHT && serial < SEQ_COUNT
    requires forall s ::
               0 <= s < MAX_IN_FLIGHT && before[s] ==> ring[s].serial < SEQ_COUNT && ring[s].serial % MAX_IN_FLIGHT == s
    requires var slot := serial % MAX_IN_FLIGHT;
             if before[slot] && ring[slot].serial == serial
             then active == before[slot := false] && told == [ring[slot]]
             else active == before && told == []
    ensures SortedBy(ring, before, active, told, serial, history, 0)
  {
    hide Bit, NamesUpTo;
    var slot := serial % MAX_IN_FLIGHT;
    assert before[slot] && ring[slot].serial == serial ==> Flying(ring, before, ring[slot]);
    forall e | Flying(ring, before, e)
      ensures NamesUpTo(serial, history, e.serial, 0) <==> e.serial == serial
    {
      NamesItself(serial, history, e.serial);
    }
  }

  lemma NamesItself(serial: nat, history: nat, q: nat)
    requires serial < SEQ_COUNT && q < SEQ_COUNT
    ensures NamesUpTo(serial, history, q, 0) <==> q == serial
  {
    hide Bit;
  }

  lemma NamedBehind(serial: nat, history: nat, back: nat)
    requires serial < SEQ_COUNT && back < HISTORY_DEPTH && Bit(history, back)
    ensures Names(serial, history, (serial - 1 - back) % SEQ_COUNT)
  {
    hide Bit;
    assert Distance(serial, (serial - 1 - back) % SEQ_COUNT) == back + 1;
  }

  lemma NextBit(ring: seq<AckEntry>, before: seq<bool>, active: seq<bool>, after: seq<bool>, told: seq<AckEntry>,
                toldNow: seq<AckEntry>, serial: nat, history: nat, back: nat)
    requires SortedBy(ring, before, active, told, serial, history, back) && |after| == MAX_IN_FLIGHT &&
             back < HISTORY_DEPTH
    requires forall s ::
               0 <= s < MAX_IN_FLIGHT && before[s] ==> ring[s].serial < SEQ_COUNT && ring[s].serial % MAX_IN_FLIGHT == s
    requires var q := (serial - 1 - back) % SEQ_COUNT;
             var slot := q % MAX_IN_FLIGHT;
             if Bit(history, back) && active[slot] && ring[slot].serial == q
             then after == active[slot := false] && toldNow == told + [ring[slot]]
             else after == active && toldNow == told
    ensures SortedBy(ring, before, after, toldNow, serial, history, back + 1)
  {
    hide Bit, NamesUpTo;
    var q := (serial - 1 - back) % SEQ_COUNT;
    var slot := q % MAX_IN_FLIGHT;
    assert Bit(history, back) && active[slot] && ring[slot].serial == q ==> Flying(ring, active, ring[slot]);
    forall e
      ensures Flying(ring, after, e) <==> Flying(ring, before, e) && !NamesUpTo(serial, history, e.serial, back + 1)
      ensures e in toldNow <==> Flying(ring, before, e) && NamesUpTo(serial, history, e.serial, back + 1)
    {
      if Flying(ring, before, e) {
        NamesStep(serial, history, e.serial, back);
      }
    }
  }

  lemma NamesStep(serial: nat, history: nat, q: nat, back: nat)
    requires q < SEQ_COUNT && back < HISTORY_DEPTH
    ensures NamesUpTo(serial, history, q, back + 1) <==>
              NamesUpTo(serial, history, q, back) || (q == (serial - 1 - back) % SEQ_COUNT && Bit(history, back))
  {
    hide Bit;
    assert Distance(serial, q) == back + 1 <==> q == (serial - 1 - back) % SEQ_COUNT;
  }

  // ----- what became of every send -----

  datatype Fate = Arrived(serial: nat, history: nat) | Lost(highest: nat) | Replaced | Cleared

  datatype Told = Told(number: int, fate: Fate)

  /** What is told of these entries: the sends their slots hold, each with the same fate. */
  function Fates(entries: seq<AckEntry>, numbers: seq<int>, fate: Fate): (told: seq<Told>)
    requires |numbers| == MAX_IN_FLIGHT
    ensures |told| == |entries|
  {
    seq(|entries|, i requires 0 <= i < |entries| => Told(numbers[entries[i].serial % MAX_IN_FLIGHT], fate))
  }

  /** The highest ack so far: one that is behind it by signed 16-bit distance does not replace it. */
  function HighestAck(acks: seq<nat>): nat {
    if acks == [] then 0
    else
      var before, last := HighestAck(acks[..|acks| - 1]), acks[|acks| - 1];
      if |acks| == 1 || Signed(last, before) > 0 then last else before
  }

  lemma HighestAppend(acks: seq<nat>, ack: nat)
    ensures HighestAck(acks + [ack]) == if acks == [] || Signed(ack, HighestAck(acks)) > 0 then ack
                                        else HighestAck(acks)
  {
    assert (acks + [ack])[..|acks|] == acks;
  }

  lemma NoAcks()
    ensures HighestAck([]) == 0
  {
  }

  /** For acks each within 32767 of the highest before, that is the highest of the unbounded numbers, wrapped. */
  lemma {:induction false} HighestAckIsHighest(tops: seq<nat>)
    requires tops != [] && Near(tops)
    ensures HighestAck(Wire(tops)) == Seq(Highest(tops))
  {
    hide Signed, Seq;
    var n := |tops| - 1;
    var early, last := tops[..n], tops[n];
    if early == [] {
      assert Wire(tops) == [Seq(last)];
    } else {
      NearPrefix(tops);
      HighestAckIsHighest(early);
      assert Wire(tops) == Wire(early) + [Seq(last)];
      HighestAppend(Wire(early), Seq(last));
      SignedIsDifference(last, Highest(early));
    }
  }

  lemma NearPrefix(tops: seq<nat>)
    requires tops != [] && Near(tops)
    ensures var early := tops[..|tops| - 1];
            Near(early) && (early != [] ==> -32768 < tops[|early|] - Highest(early) < 32768)
  {
    var early := tops[..|tops| - 1];
    assert forall i :: 0 <= i <= |early| ==> early[..i] == tops[..i];
  }

  function NumbersOf(told: seq<Told>): (numbers: seq<int>)
    ensures |numbers| == |told| && forall i :: 0 <= i < |told| ==> numbers[i] == told[i].number
  {
    seq(|told|, i requires 0 <= i < |told| => told[i].number)
  }

  /** Every tracked send is in flight or was told, as often as it was tracked. */
  ghost predicate Kept(sends: seq<int>, told: seq<Told>, active: seq<bool>, numbers: seq<int>) {
    forall n: int :: multiset(sends)[n] == multiset(NumbersOf(told))[n] + if Flies(active, numbers, n) then 1 else 0
  }

  /**
   A send is told to have arrived only by an ack that names it, and lost only when more than 32 behind the
   highest ack.
   */
  predicate Just(told: Told) {
    match told.fate
    case Arrived(serial, history) => Names(serial, history, Seq(told.number))
    case Lost(highest) => Signed(highest, Seq(told.number)) > 32
    case _ => true
  }

  ghost predicate Justified(told: seq<Told>) {
    forall i :: 0 <= i < |told| ==> Just(told[i])
  }

  lemma JustifiedGrows(told: seq<Told>, more: Told)
    requires Justified(told) && Just(more)
    ensures Justified(told + [more])
  {
  }

  lemma TellKeeps(sends: seq<int>, told: seq<Told>, active: seq<bool>, numbers: seq<int>, slot: nat, fate: Fate)
    requires Kept(sends, told, active, numbers)
    requires |active| == |numbers| == MAX_IN_FLIGHT && slot < MAX_IN_FLIGHT && active[slot] &&
             numbers[slot] % MAX_IN_FLIGHT == slot
    ensures Kept(sends, told + [Told(numbers[slot], fate)], active[slot := false], numbers)
  {
    assert NumbersOf(told + [Told(numbers[slot], fate)]) == NumbersOf(told) + [numbers[slot]];
    forall n: int
      ensures Flies(active[slot := false], numbers, n) <==> Flies(active, numbers, n) && n != numbers[slot]
    {
    }
  }

  lemma TrackKeeps(sends: seq<int>, told: seq<Told>, active: seq<bool>, numbers: seq<int>, n: int)
    requires Kept(sends, told, active, numbers)
    requires |active| == |numbers| == MAX_IN_FLIGHT && !active[n % MAX_IN_FLIGHT]
    ensures Kept(sends + [n], told, active[n % MAX_IN_FLIGHT := true], numbers[n % MAX_IN_FLIGHT := n])
  {
    forall m: int
      ensures Flies(active[n % MAX_IN_FLIGHT := true], numbers[n % MAX_IN_FLIGHT := n], m) <==>
                Flies(active, numbers, m) || m == n
    {
    }
  }

  /** A send tracked once is told at most once, and while it is in flight it has not been told. */
  lemma ToldOnce(sends: seq<int>, told: seq<Told>, active: seq<bool>, numbers: seq<int>, i: nat, j: nat)
    requires Kept(sends, told, active, numbers) && Distinct(sends) && i < |told| && j < |told| &&
             told[i].number == told[j].number
    ensures i == j && told[i].number in sends && !Flies(active, numbers, told[i].number)
  {
    var n, all := told[i].number, NumbersOf(told);
    DistinctCounts(sends, n);
    assert all[i] == n && all[j] == n;
    if i != j {
      CountedTwice(all, i, j);
      assert false;
    }
    assert n in multiset(all);
  }

  lemma {:induction false} DistinctCounts(items: seq<int>, n: int)
    requires Distinct(items)
    ensures multiset(items)[n] <= 1
  {
    if items != [] {
      var early, last := items[..|items| - 1], items[|items| - 1];
      DistinctCounts(early, n);
      assert items == early + [last];
      assert last !in early;
    }
  }

  lemma CountedTwice(items: seq<int>, i: nat, j: nat)
    requires i < |items| && j < |items| && i != j && items[i] == items[j]
    ensures multiset(items)[items[i]] >= 2
  {
    var low, high := if i < j then i else j, if i < j then j else i;
    assert items == items[..high] + items[high..];
    assert items[low] in items[..high] && items[high] in items[high..];
  }

  /**
   End to end: for what a peer's inbound book reports of the numbers that reached it, an ack names
   exactly the packets within 32 of the highest one received that were received and not forgotten. So
   nothing is delivered that never arrived.
   */
  lemma AckNamesTheReceived(arrivals: seq<nat>, n: int)
    requires arrivals != [] && Near(arrivals)
    ensures var inbound, top := Run(Wire(arrivals)).value, Highest(arrivals);
            && inbound.freshest == Seq(top)
            && (Acks(top, inbound.history, n) <==>
                  0 <= top - n <= 32 && n in arrivals && (n >= 0 ==> Forgotten(arrivals) != Some(n)))
  {
    hide Run, Near, Bit, Highest, Forgotten, Seq;
    WireTracksReceived(arrivals);
    HighestIsMaximum(arrivals);
    var inbound, top := Run(Wire(arrivals)).value, Highest(arrivals);
    if Forgotten(arrivals).Some? {
      ForgottenIsAtTheEdge(arrivals);
    }
    var k := top - n;
    if 1 <= k <= 32 {
      assert Bit(inbound.history, k - 1) == Remembered(arrivals, k);
    }
  }

  /**
   A send told to have arrived did arrive, when the ack that said so is what the peer's inbound book
   reports of the numbers that reached it and its highest is within 32767 of the send.
   */
  lemma ToldArrivedDid(told: seq<Told>, i: nat, arrivals: seq<nat>)
    requires Justified(told) && i < |told| && arrivals != [] && Near(arrivals)
    requires var inbound := Run(Wire(arrivals)).value;
             told[i].fate == Arrived(inbound.freshest, inbound.history)
    requires -32768 < Highest(arrivals) - told[i].number < 32768
    ensures told[i].number in arrivals
  {
    hide Run, Near, Highest, Seq, Acks, Names;
    AckNamesTheReceived(arrivals, told[i].number);
    NamesIsAcks(Highest(arrivals), told[i].fate.history, told[i].number);
  }
}
