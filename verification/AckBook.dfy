/**
 The sender's book of packets in flight: a ring of 128 slots, updated in place, that turns a peer's ack
 and its 32-bit history into packets delivered and packets lost. Beside the ring the book keeps the
 unbounded number of each send and what became of it, so that nothing tracked is lost sight of.
 */
module AckBooks {
  import opened Wrappers
  import opened Bits
  import opened AckHistory
  import opened AckFlights

  class AckBook {
    const ring: array<AckEntry>
    const active: array<bool>
    var highest: nat
    var hasAcked: bool

    /** The send each slot holds, every send tracked, and what became of those no longer in flight. */
    ghost var numbers: seq<int>
    ghost var sends: seq<int>
    ghost var told: seq<Told>
    /** Every ack processed since the book was made or cleared. */
    ghost var acks: seq<nat>

    ghost predicate Valid()
      reads this, ring, active
    {
      && ring.Length == active.Length == |numbers| == MAX_IN_FLIGHT
      && Files(ring[..], active[..], numbers)
      && Kept(sends, told, active[..], numbers)
      && Justified(told)
      && hasAcked == (acks != []) && highest == HighestAck(acks)
    }

    ghost predicate InFlight(e: AckEntry)
      reads ring, active
    {
      Flying(ring[..], active[..], e)
    }

    /** Whatever was tracked once was reported at most once, and not while it is in flight. */
    lemma ReportedOnce(i: nat, j: nat)
      requires Valid() && Distinct(sends) && i < |told| && j < |told| && told[i].number == told[j].number
      ensures i == j && told[i].number in sends && !Flies(active[..], numbers, told[i].number)
    {
      ToldOnce(sends, told, active[..], numbers, i, j);
    }

    constructor ()
      ensures Valid() && !hasAcked && fresh(ring) && fresh(active)
      ensures sends == [] && told == [] && acks == [] && forall e :: !InFlight(e)
    {
      ring := new AckEntry[MAX_IN_FLIGHT](i => AckEntry(0, 0, 0));
      active := new bool[MAX_IN_FLIGHT](i => false);
      highest, hasAcked := 0, false;
      numbers, sends, told, acks := seq(MAX_IN_FLIGHT, i => 0), [], [], [];
    }

    /** Tracks the send, unless its slot still waits for another packet's ack. */
    method RecordSend(serial: nat, frames: nat, bits: int, ghost n: int) returns (tracked: bool)
      requires Valid() && serial == Seq(n)
      modifies this`numbers, this`sends, this`told, ring, active
      ensures Valid()
      ensures tracked <==> forall e :: old(InFlight(e)) && e.serial % 128 == serial % 128 ==> e.serial == serial
      ensures forall e :: InFlight(e) <==>
                            if tracked && e.serial % 128 == serial % 128
                            then e == AckEntry(serial, frames, bits)
                            else old(InFlight(e))
      ensures sends == if tracked && !old(Flies(active[..], numbers, n)) then old(sends) + [n] else old(sends)
      ensures var slot := serial % MAX_IN_FLIGHT;
              told == if tracked && old(active[slot]) && old(numbers[slot]) != n
                      then old(told) + [Told(old(numbers[slot]), Replaced)] else old(told)
      ensures tracked ==> Flies(active[..], numbers, n)
    {
      hide Seq, Kept, Justified;
      SlotOfSeq(n);
      var slot := serial % MAX_IN_FLIGHT;
      FiledSerials(ring[..], active[..], numbers);
      assert active[slot] ==> InFlight(ring[slot]);
      if active[slot] && ring[slot].serial != serial {
        return false;
      }
      ghost var now := active[..];
      if now[slot] && numbers[slot] != n {
        TellKeeps(sends, told, now, numbers, slot, Replaced);
        JustifiedGrows(told, Told(numbers[slot], Replaced));
        told := told + [Told(numbers[slot], Replaced)];
        now := now[slot := false];
      }
      if !now[slot] {
        TrackKeeps(sends, told, now, numbers, n);
        sends := sends + [n];
      } else {
        assert now[slot := true] == now && numbers[slot := n] == numbers;
      }
      assert active[..][slot := true] == now[slot := true];
      ring[slot] := AckEntry(serial, frames, bits);
      active[slot] := true;
      numbers := numbers[slot := n];
      return true;
    }

    /** Notes what became of the send in the slot, which leaves flight. */
    method Tell(slot: nat, ghost fate: Fate)
      requires Valid() && slot < MAX_IN_FLIGHT && active[slot]
      requires match fate
               case Arrived(serial, history) => Names(serial, history, ring[slot].serial)
               case Lost(high) => Signed(high, ring[slot].serial) > HISTORY_DEPTH
               case _ => true
      modifies this`told, active
      ensures Valid() && active[..] == old(active[..])[slot := false] && told == old(told) + [Told(numbers[slot], fate)]
    {
      hide Kept, Names, Signed, Seq, Justified;
      TellKeeps(sends, told, active[..], numbers, slot, fate);
      JustifiedGrows(told, Told(numbers[slot], fate));
      told := told + [Told(numbers[slot], fate)];
      active[slot] := false;
    }

    /** Takes the packet out of flight, if it is there. */
    method Take(serial: nat, ghost acked: nat, ghost history: nat) returns (taken: Option<AckEntry>)
      requires Valid() && Names(acked, history, serial)
      modifies this`told, active
      ensures Valid()
      ensures var slot := serial % MAX_IN_FLIGHT;
              if old(active[slot]) && ring[slot].serial == serial
              then && taken == Some(ring[slot]) && active[..] == old(active[..])[slot := false]
                   && told == old(told) + [Told(numbers[slot], Arrived(acked, history))]
              else taken == None && active[..] == old(active[..]) && told == old(told)
    {
      hide Kept, Justified, Names, Files;
      var slot := serial % MAX_IN_FLIGHT;
      if !active[slot] || ring[slot].serial != serial {
        return None;
      }
      taken := Some(ring[slot]);
      Tell(slot, Arrived(acked, history));
    }

    /**
     Sorts the packets in flight by one ack: those it names are delivered, those more than 32 behind the
     highest ack are lost, and the rest stay. Nothing is reported twice.
     */
    method ProcessAck(serial: nat, history: nat) returns (delivered: seq<AckEntry>, lost: seq<AckEntry>)
      requires Valid() && serial < SEQ_COUNT
      modifies this`highest, this`hasAcked, this`told, this`acks, active
      ensures Valid() && hasAcked && acks == old(acks) + [serial]
      ensures highest == if !old(hasAcked) || Signed(serial, old(highest)) > 0 then serial else old(highest)
      ensures forall e :: e in delivered <==> old(InFlight(e)) && Names(serial, history, e.serial)
      ensures forall e :: e in lost <==>
                            old(InFlight(e)) && !Names(serial, history, e.serial) &&
                                Signed(highest, e.serial) > 32
      ensures forall e :: InFlight(e) <==> old(InFlight(e)) && e !in delivered && e !in lost
      ensures Distinct(delivered) && Distinct(lost)
      ensures told ==
              old(told) + Fates(delivered, numbers, Arrived(serial, history)) + Fates(lost, numbers, Lost(highest))
    {
      hide Signed, Names, Kept, Justified, Files, Distinct, HighestAck, Fates;
      HighestAppend(acks, serial);
      delivered := TakeAcked(serial, history);
      if !hasAcked || Signed(serial, highest) > 0 {
        highest := serial;
        hasAcked := true;
      }
      acks := acks + [serial];
      lost := SweepLost();
    }

    /** Takes the acked packet and those its history names. */
    method TakeAcked(serial: nat, history: nat) returns (delivered: seq<AckEntry>)
      requires Valid() && serial < SEQ_COUNT
      modifies this`told, active
      ensures Valid() && Distinct(delivered)
      ensures told == old(told) + Fates(delivered, numbers, Arrived(serial, history))
      ensures forall e :: e in delivered <==> old(InFlight(e)) && Names(serial, history, e.serial)
      ensures forall e :: InFlight(e) <==> old(InFlight(e)) && e !in delivered
    {
      hide Bit, Kept, Justified, Files, HighestAck;
      ghost var before := active[..];
      FiledSerials(ring[..], active[..], numbers);
      delivered := [];
      var taken := Take(serial, serial, history);
      if taken.Some? {
        delivered := [taken.value];
      }
      FirstSorted(ring[..], before, active[..], delivered, serial, history);
      for back := 0 to HISTORY_DEPTH
        invariant Valid() && SortedBy(ring[..], before, active[..], delivered, serial, history, back)
        invariant told == old(told) + Fates(delivered, numbers, Arrived(serial, history))
      {
        hide SortedBy;
        ghost var now, some := active[..], delivered;
        if Bit(history, back) {
          NamedBehind(serial, history, back);
          taken := Take((serial - 1 - back) % SEQ_COUNT, serial, history);
          if taken.Some? {
            delivered := delivered + [taken.value];
          }
        }
        NextBit(ring[..], before, now, active[..], some, delivered, serial, history, back);
      }
    }

    /** Drops every packet still in flight more than 32 behind the highest ack. */
    method SweepLost() returns (lost: seq<AckEntry>)
      requires Valid()
      modifies this`told, active
      ensures Valid() && Distinct(lost) && told == old(told) + Fates(lost, numbers, Lost(highest))
      ensures forall e :: e in lost <==> old(InFlight(e)) && Signed(highest, e.serial) > HISTORY_DEPTH
      ensures forall e :: InFlight(e) <==> old(InFlight(e)) && e !in lost
    {
      hide Signed, Kept, Justified, Files, HighestAck;
      FiledSerials(ring[..], active[..], numbers);
      lost := [];
      for i := 0 to MAX_IN_FLIGHT
        invariant Valid()
        invariant Distinct(lost) && told == old(told) + Fates(lost, numbers, Lost(highest))
        invariant forall s :: i <= s < MAX_IN_FLIGHT ==> active[s] == old(active[s])
        invariant forall s ::
                    0 <= s < i ==> active[s] == (old(active[s]) && Signed(highest, ring[s].serial) <= HISTORY_DEPTH)
        invariant forall e :: e in lost <==>
                                e.serial % MAX_IN_FLIGHT < i && old(InFlight(e)) &&
                                    Signed(highest, e.serial) > HISTORY_DEPTH
      {
        if !active[i] {
          continue;
        }
        assert ring[i].serial % MAX_IN_FLIGHT == i;
        if Signed(highest, ring[i].serial) > HISTORY_DEPTH {
          lost := lost + [ring[i]];
          Tell(i, Lost(highest));
        }
      }
    }

    /** Nothing stays in flight, each packet that was is told of as cleared, and no ack is remembered. */
    method Clear() returns (ghost cleared: seq<AckEntry>)
      requires Valid()
      modifies this`highest, this`hasAcked, this`told, this`acks, active
      ensures Valid() && !hasAcked && highest == 0 && acks == []
      ensures forall e :: e in cleared <==> old(InFlight(e))
      ensures forall e :: !InFlight(e)
      ensures Distinct(cleared) && told == old(told) + Fates(cleared, numbers, Cleared)
    {
      hide Kept, Justified, Files, HighestAck;
      FiledSerials(ring[..], active[..], numbers);
      cleared := [];
      for i := 0 to MAX_IN_FLIGHT
        invariant Valid()
        invariant Distinct(cleared) && told == old(told) + Fates(cleared, numbers, Cleared)
        invariant forall s :: i <= s < MAX_IN_FLIGHT ==> active[s] == old(active[s])
        invariant forall s :: 0 <= s < i ==> !active[s]
        invariant forall e :: e in cleared <==> e.serial % MAX_IN_FLIGHT < i && old(InFlight(e))
      {
        if active[i] {
          assert ring[i].serial % MAX_IN_FLIGHT == i;
          cleared := cleared + [ring[i]];
          Tell(i, Cleared);
        }
        active[i] := false;
      }
      NoAcks();
      hasAcked := false;
      highest := 0;
      acks := [];
    }
  }
}
