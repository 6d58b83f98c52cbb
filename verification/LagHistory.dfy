/**
 What the lag-compensation rings of `LagBook` hold, on values: the deduplicated sample ring and the
 ring of recorded ticks as sequences, oldest first, and the plain log of calls they must answer like.
 */
module LagHistory {
  import opened Wrappers

  /** One `record` call, and also one entry of the sample ring. */
  datatype Sample<+R> = Sample(tick: int, row: R)

  // ----- one call on the two rings -----

  /** Where `record`'s backward scan stops: behind every sample later than `tick`. */
  function PlaceOf<R>(log: seq<Sample<R>>, tick: int): (place: nat)
    ensures place <= |log|
    ensures place > 0 ==> log[place - 1].tick <= tick
    ensures forall k :: place <= k < |log| ==> log[k].tick > tick
  {
    if log == [] then 0
    else if log[|log| - 1].tick > tick then PlaceOf(log[..|log| - 1], tick)
    else |log|
  }

  /** Inserts before position `place`, dropping the oldest sample of a full ring first. */
  function Inserted<R>(log: seq<Sample<R>>, window: nat, place: nat, entry: Sample<R>): seq<Sample<R>>
    requires place <= |log|
  {
    if |log| < window then log[..place] + [entry] + log[place..]
    else if place == 0 then log
    else log[1..place] + [entry] + log[place..]
  }

  /** The sample ring after `record(entry.tick, ...)` has staged `entry.row`. */
  function Stored<R(==)>(log: seq<Sample<R>>, window: nat, entry: Sample<R>): seq<Sample<R>> {
    var place := PlaceOf(log, entry.tick);
    if place > 0 && log[place - 1].tick == entry.tick then log[place - 1 := entry]
    else if place > 0 && log[place - 1].row == entry.row then log
    else Inserted(log, window, place, entry)
  }

  /** Whether `record` reports that it wrote. */
  predicate Writes<R(==)>(log: seq<Sample<R>>, window: nat, entry: Sample<R>) {
    var place := PlaceOf(log, entry.tick);
    if place > 0 && log[place - 1].tick == entry.tick then true
    else if place > 0 && log[place - 1].row == entry.row then false
    else |log| < window || place > 0
  }

  /** The recorded ring after `note_recorded(tick)`. */
  function Noted(seen: seq<int>, window: nat, tick: int): seq<int> {
    if seen != [] && seen[|seen| - 1] == tick then seen
    else if |seen| < window || seen == [] then seen + [tick]
    else seen[1..] + [tick]
  }

  // ----- reading the rings -----

  /** `oldest_recorded`: a running minimum that treats a negative value as "none yet". */
  function OldestOf(seen: seq<int>): int {
    if seen == [] then -1
    else
      var before, tick := OldestOf(seen[..|seen| - 1]), seen[|seen| - 1];
      if before < 0 || tick < before then tick else before
  }

  /** The position of the newest sample at or before `t`. */
  function NewestAt<R>(log: seq<Sample<R>>, t: int): (at: Option<nat>)
    ensures at.Some? ==> at.value < |log| && log[at.value].tick <= t
    ensures at.Some? ==> forall k :: at.value < k < |log| ==> log[k].tick > t
    ensures at.None? ==> forall k :: 0 <= k < |log| ==> log[k].tick > t
  {
    if log == [] then None
    else if log[|log| - 1].tick <= t then Some(|log| - 1)
    else NewestAt(log[..|log| - 1], t)
  }

  /** Which sample `sample_tick` and `sample` answer with, if any. */
  function Chosen<R>(log: seq<Sample<R>>, seen: seq<int>, floor: int, t: int): (at: Option<nat>)
    ensures at.Some? ==> at.value < |log|
  {
    if t < floor || seen == [] || t < OldestOf(seen) then None
    else
      var newest := NewestAt(log, t);
      if newest.Some? && log[newest.value].tick < floor then None else newest
  }

  // ----- whole runs -----

  function RunLog<R(==)>(calls: seq<Sample<R>>, window: nat): seq<Sample<R>> {
    if calls == [] then []
    else Stored(RunLog(calls[..|calls| - 1], window), window, calls[|calls| - 1])
  }

  function RunSeen<R>(calls: seq<Sample<R>>, window: nat): seq<int> {
    if calls == [] then []
    else Noted(RunSeen(calls[..|calls| - 1], window), window, calls[|calls| - 1].tick)
  }

  ghost predicate Ascending<R>(log: seq<Sample<R>>) {
    forall i, j :: 0 <= i < j < |log| ==> log[i].tick < log[j].tick
  }

  ghost predicate InOrder<R>(calls: seq<Sample<R>>) {
    forall i, j :: 0 <= i < j < |calls| ==> calls[i].tick <= calls[j].tick
  }

  ghost predicate AscendingTicks(seen: seq<int>) {
    forall i, j :: 0 <= i < j < |seen| ==> seen[i] < seen[j]
  }

  // ----- any order of ticks -----

  lemma JoinAscends<R>(left: seq<Sample<R>>, entry: Sample<R>, right: seq<Sample<R>>)
    requires Ascending(left) && Ascending(right)
    requires forall k :: 0 <= k < |left| ==> left[k].tick < entry.tick
    requires forall k :: 0 <= k < |right| ==> entry.tick < right[k].tick
    ensures Ascending(left + [entry] + right)
  {
  }

  lemma BeforePlace<R>(log: seq<Sample<R>>, tick: int)
    requires Ascending(log)
    ensures forall k :: 0 <= k < PlaceOf(log, tick) ==> log[k].tick <= tick
  {
    var place := PlaceOf(log, tick);
    assert forall k :: 0 <= k && k + 1 < place ==> log[k].tick < log[place - 1].tick;
  }

  /** Whatever the tick, one call keeps the held ticks strictly increasing and within the window. */
  lemma StoredKeepsOrder<R>(log: seq<Sample<R>>, window: nat, entry: Sample<R>)
    requires window > 0 && Ascending(log) && |log| <= window
    ensures Ascending(Stored(log, window, entry)) && |Stored(log, window, entry)| <= window
    ensures log != [] ==> Stored(log, window, entry) != []
  {
    var place := PlaceOf(log, entry.tick);
    BeforePlace(log, entry.tick);
    if place > 0 && log[place - 1].tick == entry.tick {
    } else {
      assert forall k :: 0 <= k < place ==> log[k].tick < entry.tick;
      if |log| < window {
        JoinAscends(log[..place], entry, log[place..]);
      } else if place > 0 {
        JoinAscends(log[1..place], entry, log[place..]);
      }
    }
  }

  /** `record` reports that it wrote exactly when the ring then holds the very call. */
  lemma WritesIff<R>(log: seq<Sample<R>>, window: nat, entry: Sample<R>)
    requires window > 0 && Ascending(log) && |log| <= window
    ensures Writes(log, window, entry) <==> entry in Stored(log, window, entry)
  {
    var place, after := PlaceOf(log, entry.tick), Stored(log, window, entry);
    BeforePlace(log, entry.tick);
    if place > 0 && log[place - 1].tick == entry.tick {
      assert after[place - 1] == entry;
    } else if |log| < window {
      assert after != log ==> after[place] == entry;
    } else if place > 0 {
      assert after != log ==> after[place - 1] == entry;
    }
  }

  lemma {:induction false} RunKeepsOrder<R>(calls: seq<Sample<R>>, window: nat)
    requires window > 0
    ensures Ascending(RunLog(calls, window)) && |RunLog(calls, window)| <= window
  {
    if calls != [] {
      RunKeepsOrder(calls[..|calls| - 1], window);
      StoredKeepsOrder(RunLog(calls[..|calls| - 1], window), window, calls[|calls| - 1]);
    }
  }

  /** Call `i` is the most recent one made at its tick. */
  ghost predicate LatestAtItsTick<R>(calls: seq<Sample<R>>, i: nat)
    requires i < |calls|
  {
    forall j :: i < j < |calls| ==> calls[j].tick != calls[i].tick
  }

  /** Past the new entry, a call leaves only older samples at other ticks. */
  lemma StoredHolds<R>(log: seq<Sample<R>>, window: nat, entry: Sample<R>, k: nat) returns (m: nat)
    requires Ascending(log) && |log| <= window
    requires k < |Stored(log, window, entry)| && Stored(log, window, entry)[k] != entry
    ensures m < |log| && log[m] == Stored(log, window, entry)[k] && log[m].tick != entry.tick
  {
    var after, place := Stored(log, window, entry), PlaceOf(log, entry.tick);
    if place > 0 && log[place - 1].tick == entry.tick {
      m := k;
    } else if after == log {
      m := k;
      assert k < place ==> log[k].tick <= log[place - 1].tick;
    } else if |log| < window {
      m := if k < place then k else k - 1;
      assert m < place ==> log[m].tick <= log[place - 1].tick;
    } else {
      m := if k < place then k + 1 else k;
      assert m < place ==> log[m].tick <= log[place - 1].tick;
    }
  }

  lemma LatestStep<R>(calls: seq<Sample<R>>, entry: Sample<R>, i: nat)
    requires i < |calls| && LatestAtItsTick(calls, i) && calls[i].tick != entry.tick
    ensures LatestAtItsTick(calls + [entry], i)
  {
  }

  /** Whatever the order of the ticks, each held sample is the latest call at its own tick. */
  lemma {:induction false} HeldSampleIsLatestCall<R>(calls: seq<Sample<R>>, window: nat, k: nat) returns (i: nat)
    requires window > 0 && k < |RunLog(calls, window)|
    ensures i < |calls| && calls[i] == RunLog(calls, window)[k] && LatestAtItsTick(calls, i)
  {
    var before, entry := calls[..|calls| - 1], calls[|calls| - 1];
    var log, after := RunLog(before, window), RunLog(calls, window);
    if after[k] == entry {
      i := |calls| - 1;
    } else {
      RunKeepsOrder(before, window);
      var m := StoredHolds(log, window, entry, k);
      i := HeldSampleIsLatestCall(before, window, m);
      LatestStep(before, entry, i);
      assert calls == before + [entry];
    }
  }

  // ----- ticks that never go back -----

  /** Call `i` is the most recent one at the greatest recorded tick at or before `t`. */
  ghost predicate Answers<R>(calls: seq<Sample<R>>, t: int, i: nat) {
    && i < |calls| && calls[i].tick <= t
    && forall j :: 0 <= j < |calls| && calls[j].tick <= t ==>
         calls[j].tick < calls[i].tick || (calls[j].tick == calls[i].tick && j <= i)
  }

  lemma {:induction false} InOrderAnswer<R>(calls: seq<Sample<R>>, t: int)
    requires InOrder(calls) && NewestAt(calls, t).Some?
    ensures Answers(calls, t, NewestAt(calls, t).value)
  {
  }

  /** The row in force at `t`. */
  function RowAt<R>(log: seq<Sample<R>>, t: int): Option<R> {
    var at := NewestAt(log, t);
    if at.Some? then Some(log[at.value].row) else None
  }

  lemma RowAtAppend<R>(log: seq<Sample<R>>, entry: Sample<R>, t: int)
    ensures RowAt(log + [entry], t) == if entry.tick <= t then Some(entry.row) else RowAt(log, t)
  {
    assert (log + [entry])[..|log|] == log;
  }

  lemma RowAtDropFirst<R>(log: seq<Sample<R>>, t: int)
    requires |log| > 1 && Ascending(log) && log[1].tick <= t
    ensures RowAt(log[1..], t) == RowAt(log, t)
  {
    var a, b := NewestAt(log, t), NewestAt(log[1..], t);
    assert log[1..][0] == log[1];
    assert b.Some? && a.Some?;
    assert log[1..][b.value] == log[b.value + 1];
    assert forall k :: b.value + 1 < k < |log| ==> log[k] == log[1..][k - 1];
  }

  /** The invariant of an in-order run: what the two rings know of the calls so far. */
  ghost predicate Covers<R>(calls: seq<Sample<R>>, window: nat, log: seq<Sample<R>>, seen: seq<int>) {
    && calls != [] && log != [] && seen != []
    && Ascending(log) && |log| <= window
    && AscendingTicks(seen) && |seen| <= window
    && seen[|seen| - 1] == calls[|calls| - 1].tick
    && log[|log| - 1].tick <= seen[|seen| - 1]
    && calls[0].tick <= seen[0]
    && (forall k :: 0 <= k < |log| && log[k].tick >= seen[0] ==> log[k].tick in seen)
    && (|log| < window ==> log[0].tick == calls[0].tick)
    && (forall t :: t >= log[0].tick ==> RowAt(log, t) == RowAt(calls, t))
  }

  lemma CoversRows<R>(calls: seq<Sample<R>>, window: nat, log: seq<Sample<R>>, seen: seq<int>, entry: Sample<R>)
    requires window > 0 && Covers(calls, window, log, seen)
    requires calls[|calls| - 1].tick <= entry.tick
    ensures Stored(log, window, entry) != []
    ensures forall t :: t >= Stored(log, window, entry)[0].tick ==>
              RowAt(Stored(log, window, entry), t) == RowAt(calls + [entry], t)
  {
    hide Stored, RowAt, AscendingTicks;
    var after := Stored(log, window, entry);
    var n := |log|;
    StoredAtEnd(log, window, entry);
    forall t | t >= after[0].tick
      ensures RowAt(after, t) == RowAt(calls + [entry], t)
    {
      RowAtAppend(calls, entry, t);
      assert t >= log[0].tick && RowAt(log, t) == RowAt(calls, t);
      if log[n - 1].tick == entry.tick {
        assert log == log[..n - 1] + [log[n - 1]];
        RowAtAppend(log[..n - 1], entry, t);
        RowAtAppend(log[..n - 1], log[n - 1], t);
      } else if log[n - 1].row == entry.row {
        assert log == log[..n - 1] + [log[n - 1]];
        RowAtAppend(log[..n - 1], log[n - 1], t);
      } else if n < window {
        RowAtAppend(log, entry, t);
      } else {
        RowAtAppend(log[1..], entry, t);
        if t < entry.tick {
          RowAtDropFirst(log, t);
        }
      }
    }
  }

  /** The three ways a call meets the sample before its place. */
  lemma StoredCases<R>(log: seq<Sample<R>>, window: nat, entry: Sample<R>)
    ensures var place := PlaceOf(log, entry.tick);
            var sameTick := place > 0 && log[place - 1].tick == entry.tick;
            var sameRow := place > 0 && !sameTick && log[place - 1].row == entry.row;
            && (sameTick ==> Stored(log, window, entry) == log[place - 1 := entry] && Writes(log, window, entry))
            && (sameRow ==> Stored(log, window, entry) == log && !Writes(log, window, entry))
            && (!sameTick && !sameRow ==>
                  Stored(log, window, entry) == Inserted(log, window, place, entry) &&
                      Writes(log, window, entry) == (|log| < window || place > 0))
  {
  }

  /** What a call in order does to the log. */
  lemma StoredAtEnd<R>(log: seq<Sample<R>>, window: nat, entry: Sample<R>)
    requires window > 0 && log != [] && Ascending(log) && |log| <= window && log[|log| - 1].tick <= entry.tick
    ensures var after, last := Stored(log, window, entry), log[|log| - 1];
            && after != [] && after[0].tick >= log[0].tick
            && after == (if last.tick == entry.tick then log[..|log| - 1] + [entry]
                         else if last.row == entry.row then log
                         else if |log| < window then log + [entry]
                         else log[1..] + [entry])
  {
    assert PlaceOf(log, entry.tick) == |log|;
  }

  lemma NotedSteps(seen: seq<int>, window: nat, tick: int)
    requires window > 0 && AscendingTicks(seen) && |seen| <= window
    requires seen != [] && seen[|seen| - 1] <= tick
    ensures var noted := Noted(seen, window, tick);
            && noted != [] && AscendingTicks(noted) && |noted| <= window && |seen| <= |noted|
            && noted[|noted| - 1] == tick && seen[0] <= noted[0]
            && forall s :: s in seen && s >= noted[0] ==> s in noted
  {
    var noted := Noted(seen, window, tick);
    forall s | s in seen && s >= noted[0]
      ensures s in noted
    {
      var k :| 0 <= k < |seen| && seen[k] == s;
      if seen[|seen| - 1] == tick || |seen| < window {
        assert noted[k] == s;
      } else {
        assert noted == seen[1..] + [tick];
        assert k > 0;
        assert noted[k - 1] == seen[1..][k - 1] == s;
      }
    }
  }

  lemma {:induction false} CoversStep<R>(calls: seq<Sample<R>>, window: nat, log: seq<Sample<R>>, seen: seq<int>,
                                         entry: Sample<R>)
    requires window > 0 && Covers(calls, window, log, seen)
    requires calls[|calls| - 1].tick <= entry.tick
    ensures Covers(calls + [entry], window, Stored(log, window, entry), Noted(seen, window, entry.tick))
  {
    hide RowAt, Noted, AscendingTicks, Stored;
    var after, noted := Stored(log, window, entry), Noted(seen, window, entry.tick);
    StoredAtEnd(log, window, entry);
    StoredKeepsOrder(log, window, entry);
    CoversRows(calls, window, log, seen, entry);
    NotedSteps(seen, window, entry.tick);
    forall k | 0 <= k < |after| && after[k].tick >= noted[0]
      ensures after[k].tick in noted
    {
      if after[k] == entry {
        assert noted[|noted| - 1] == entry.tick;
      } else {
        var m := StoredHolds(log, window, entry, k);
      }
    }
  }

  lemma FirstCovers<R>(entry: Sample<R>, window: nat)
    requires window > 0
    ensures Covers([entry], window, [entry], [entry.tick])
  {
    RowAtAppend([], entry, entry.tick);
  }

  lemma {:induction false} RunCovers<R>(calls: seq<Sample<R>>, window: nat)
    requires window > 0 && calls != [] && InOrder(calls)
    ensures Covers(calls, window, RunLog(calls, window), RunSeen(calls, window))
  {
    var before, entry := calls[..|calls| - 1], calls[|calls| - 1];
    var log, seen := RunLog(before, window), RunSeen(before, window);
    assert calls == before + [entry];
    if before == [] {
      assert Stored(log, window, entry) == [entry];
      FirstCovers(entry, window);
    } else {
      RunCovers(before, window);
      CoversStep(before, window, log, seen, entry);
    }
  }

  /** A run of distinct ticks inside another needs no more places than it. */
  lemma {:induction false} DistinctFits<R>(log: seq<Sample<R>>, within: seq<int>)
    requires Ascending(log) && AscendingTicks(within)
    requires forall k :: 0 <= k < |log| ==> log[k].tick in within
    ensures |log| <= |within|
  {
    if log != [] {
      var n, m := |log|, |within|;
      var last :| 0 <= last < m && within[last] == log[n - 1].tick;
      forall k | 0 <= k < n - 1 ensures log[k].tick in within[..last] {
        var at :| 0 <= at < m && within[at] == log[k].tick;
        assert log[k].tick < log[n - 1].tick;
        assert at < last;
      }
      DistinctFits(log[..n - 1], within[..last]);
    }
  }

  /** The sample ring always reaches back at least as far as the recorded ring. */
  lemma SamplesReachBack<R>(calls: seq<Sample<R>>, window: nat, log: seq<Sample<R>>, seen: seq<int>)
    requires window > 0 && Covers(calls, window, log, seen)
    ensures log[0].tick <= seen[0]
  {
    if log[0].tick > seen[0] {
      forall k | 0 <= k < |log| ensures log[k].tick in seen[1..] {
        assert log[k].tick >= log[0].tick;
        var at :| 0 <= at < |seen| && seen[at] == log[k].tick;
        assert seen[1..][at - 1] == log[k].tick;
      }
      DistinctFits(log, seen[1..]);
      assert false;
    }
  }

  lemma {:induction false} OldestOfAscending(seen: seq<int>)
    requires seen != [] && seen[0] >= 0 && AscendingTicks(seen)
    ensures OldestOf(seen) == seen[0]
  {
    if |seen| > 1 {
      OldestOfAscending(seen[..|seen| - 1]);
    }
  }

  /**
   The rings answer like the plain log. For calls whose ticks never go back and start at or after 0,
   every `t` at or after the oldest recorded tick has an answer, and it is the row of the most recent
   call at the greatest recorded tick at or before `t`.
   */
  lemma RingsAnswerLikeTheLog<R>(calls: seq<Sample<R>>, window: nat, t: int) returns (i: nat)
    requires window > 0 && calls != [] && InOrder(calls) && calls[0].tick >= 0
    requires t >= OldestOf(RunSeen(calls, window))
    ensures Answers(calls, t, i)
    ensures var log := RunLog(calls, window);
            var at := NewestAt(log, t);
            at.Some? && log[at.value].row == calls[i].row && log[at.value].tick <= calls[i].tick
  {
    var log, seen := RunLog(calls, window), RunSeen(calls, window);
    RunCovers(calls, window);
    SamplesReachBack(calls, window, log, seen);
    OldestOfAscending(seen);
    assert RowAt(log, t) == RowAt(calls, t);
    i := NewestAt(calls, t).value;
    InOrderAnswer(calls, t);
    var k := NewestAt(log, t).value;
    var j := HeldSampleIsLatestCall(calls, window, k);
  }

  /** The distinct recorded ticks of an in-order run, oldest first. */
  function DistinctTicks<R>(calls: seq<Sample<R>>): seq<int> {
    if calls == [] then []
    else
      var before, tick := DistinctTicks(calls[..|calls| - 1]), calls[|calls| - 1].tick;
      if before != [] && before[|before| - 1] == tick then before else before + [tick]
  }

  /** The recorded ring holds exactly the last `window` distinct recorded ticks. */
  lemma SeenIsLastDistinct<R>(calls: seq<Sample<R>>, window: nat)
    requires window > 0
    ensures var all := DistinctTicks(calls);
            RunSeen(calls, window) == if |all| <= window then all else all[|all| - window..]
  {
    hide DistinctTicks, RunSeen;
    SeenIsLast(calls, window);
  }

  lemma {:induction false} SeenIsLast<R>(calls: seq<Sample<R>>, window: nat)
    requires window > 0
    ensures RunSeen(calls, window) == LastOf(DistinctTicks(calls), window)
  {
    if calls == [] {
    } else {
      hide Noted, LastOf;
      var early, tick := calls[..|calls| - 1], calls[|calls| - 1].tick;
      SeenIsLast(early, window);
      NotedIsLast(DistinctTicks(early), window, tick);
    }
  }

  /** The newest `window` of a list. */
  function LastOf(all: seq<int>, window: nat): seq<int> {
    if |all| <= window then all else all[|all| - window..]
  }

  lemma NotedIsLast(all: seq<int>, window: nat, tick: int)
    requires window > 0
    ensures var grown := if all != [] && all[|all| - 1] == tick then all else all + [tick];
            Noted(LastOf(all, window), window, tick) == LastOf(grown, window)
  {
  }
}
