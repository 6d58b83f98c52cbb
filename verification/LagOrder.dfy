/**
 What the lag-compensation rings answer when calls come at ticks in any order: exactly which late calls
 make them answer otherwise than the plain log of calls.
 */
module LagOrder {
  import opened Wrappers
  import opened LagHistory

  // ----- the plain log -----

  /** The call that answers at `t`: the most recent at the greatest recorded tick at or before `t`. */
  function LatestAt<R>(calls: seq<Sample<R>>, t: int): (at: Option<nat>)
    ensures at.Some? ==> Answers(calls, t, at.value)
    ensures at.None? ==> forall j :: 0 <= j < |calls| ==> calls[j].tick > t
  {
    if calls == [] then None
    else
      var n := |calls| - 1;
      var before := LatestAt(calls[..n], t);
      if calls[n].tick <= t && (before.None? || calls[before.value].tick <= calls[n].tick) then Some(n) else before
  }

  function LatestRow<R>(calls: seq<Sample<R>>, t: int): Option<R> {
    var at := LatestAt(calls, t);
    if at.Some? then Some(calls[at.value].row) else None
  }

  /** A call was made at a tick after `low` and at or before `high`. */
  ghost predicate CalledWithin<R>(calls: seq<Sample<R>>, low: int, high: int) {
    exists j :: 0 <= j < |calls| && low < calls[j].tick <= high
  }

  lemma LatestRowAppend<R>(calls: seq<Sample<R>>, entry: Sample<R>, t: int)
    ensures LatestRow(calls + [entry], t) ==
              if entry.tick <= t && !CalledWithin(calls, entry.tick, t) then Some(entry.row) else LatestRow(calls, t)
  {
    assert (calls + [entry])[..|calls|] == calls;
  }

  /** After these calls, the rings answer every `t` from the oldest recorded tick on like the plain log. */
  ghost predicate AnswersLikeLog<R>(calls: seq<Sample<R>>, window: nat) {
    forall t :: t >= OldestOf(RunSeen(calls, window)) ==> RowAt(RunLog(calls, window), t) == LatestRow(calls, t)
  }

  // ----- which call keeps that -----

  /** The new row holds from its tick up to the next held one. */
  predicate Holds<R>(log: seq<Sample<R>>, entry: Sample<R>, t: int) {
    var place := PlaceOf(log, entry.tick);
    entry.tick <= t && (place < |log| ==> t < log[place].tick)
  }

  /** No earlier call was made between the new tick and the next one held. */
  predicate NothingSkippedAfter<R>(calls: seq<Sample<R>>, log: seq<Sample<R>>, entry: Sample<R>) {
    forall j :: 0 <= j < |calls| && entry.tick < calls[j].tick ==> !Holds(log, entry, calls[j].tick)
  }

  /** The call changes no answer that is not its own. */
  predicate Harmless<R(==)>(calls: seq<Sample<R>>, log: seq<Sample<R>>, entry: Sample<R>) {
    var place := PlaceOf(log, entry.tick);
    place > 0 ==> log[place - 1].row == entry.row || NothingSkippedAfter(calls, log, entry)
  }

  /** The call is inserted into the ring or refused, neither overwriting a sample nor repeating the one before it. */
  predicate NeedsPlace<R(==)>(log: seq<Sample<R>>, entry: Sample<R>) {
    var place := PlaceOf(log, entry.tick);
    place > 0 ==> log[place - 1].tick != entry.tick && log[place - 1].row != entry.row
  }

  /** A full ring neither refuses the call nor evicts, to insert it, what a recorded tick still needs. */
  predicate KeepsReach<R(==)>(log: seq<Sample<R>>, seen: seq<int>, window: nat, entry: Sample<R>) {
    var place := PlaceOf(log, entry.tick);
    NeedsPlace(log, entry) && |log| >= window ==>
      && place > 0
      && forall s :: s in Noted(seen, window, entry.tick) ==> s >= (if place == 1 then entry.tick else log[1].tick)
  }

  predicate Clean<R(==)>(calls: seq<Sample<R>>, window: nat, entry: Sample<R>) {
    && Harmless(calls, RunLog(calls, window), entry)
    && KeepsReach(RunLog(calls, window), RunSeen(calls, window), window, entry)
  }

  // ----- the sample ring after one call -----

  lemma RowAtIs<R>(log: seq<Sample<R>>, k: nat, t: int)
    requires Ascending(log) && k < |log| && log[k].tick <= t && (k + 1 < |log| ==> t < log[k + 1].tick)
    ensures NewestAt(log, t) == Some(k) && RowAt(log, t) == Some(log[k].row)
  {
  }

  /** A new sample joins between the older and the later ones kept. */
  lemma JoinedRowAt<R>(left: seq<Sample<R>>, entry: Sample<R>, right: seq<Sample<R>>, t: int)
    requires Ascending(left + [entry] + right) && t >= (left + [entry] + right)[0].tick
    ensures RowAt(left + [entry] + right, t) ==
              if t < entry.tick then RowAt(left, t)
              else if right != [] && right[0].tick <= t then RowAt(right, t)
              else Some(entry.row)
  {
    hide NewestAt, RowAt;
    var all := left + [entry] + right;
    assert all[|left|] == entry;
    assert Ascending(left) by {
      assert forall i :: 0 <= i < |left| ==> all[i] == left[i];
    }
    assert Ascending(right) by {
      assert forall i :: 0 <= i < |right| ==> all[|left| + 1 + i] == right[i];
    }
    if t < entry.tick {
      var k := Reached(left, t);
      RowAtIs(all, k, t);
    } else if right != [] && right[0].tick <= t {
      var k := Reached(right, t);
      RowAtIs(all, |left| + 1 + k, t);
    } else {
      RowAtIs(all, |left|, t);
    }
  }

  /** The part of the ring from a position on answers like the whole of it, at ticks it reaches. */
  lemma LaterPart<R>(log: seq<Sample<R>>, from: nat, t: int)
    requires Ascending(log) && from < |log| && log[from].tick <= t
    ensures RowAt(log[from..], t) == RowAt(log, t)
  {
    hide NewestAt, RowAt;
    assert Ascending(log[from..]);
    var k := Reached(log[from..], t);
    RowAtIs(log, from + k, t);
  }

  lemma MiddlePart<R>(log: seq<Sample<R>>, from: nat, place: nat, t: int)
    requires Ascending(log) && from < place <= |log| && log[from].tick <= t && (place < |log| ==> t < log[place].tick)
    ensures RowAt(log[from..place], t) == RowAt(log, t)
  {
    hide NewestAt, RowAt;
    assert Ascending(log[from..place]);
    var k := Reached(log[from..place], t);
    assert from + k + 1 < |log| ==> t < log[from + k + 1].tick;
    RowAtIs(log, from + k, t);
  }

  /** The first sample left, and whether a place was made, when the call neither overwrites nor repeats. */
  lemma InsertedRowAt<R>(log: seq<Sample<R>>, window: nat, entry: Sample<R>, t: int)
    requires window > 0 && log != [] && Ascending(log) && |log| <= window && NeedsPlace(log, entry)
    requires PlaceOf(log, entry.tick) > 0 || |log| < window
    requires t >= Stored(log, window, entry)[0].tick
    ensures RowAt(Stored(log, window, entry), t) == if Holds(log, entry, t) then Some(entry.row) else RowAt(log, t)
  {
    var place, from := PlaceOf(log, entry.tick), if |log| < window then 0 else 1;
    var left, right := log[from..place], log[place..];
    hide Ascending, NewestAt, RowAt, PlaceOf, Stored, Writes;
    StoredKeepsOrder(log, window, entry);
    StoredCases(log, window, entry);
    assert Stored(log, window, entry) == left + [entry] + right;
    JoinedRowAt(left, entry, right, t);
    if t < entry.tick {
      MiddlePart(log, from, place, t);
    } else if right != [] && right[0].tick <= t {
      LaterPart(log, place, t);
    }
  }

  /** A call that overwrites, or repeats the sample before its place, changes no tick and at most one row. */
  lemma KeptSamples<R>(log: seq<Sample<R>>, window: nat, entry: Sample<R>)
    requires !NeedsPlace(log, entry)
    ensures var after, place := Stored(log, window, entry), PlaceOf(log, entry.tick);
            && place > 0 && |after| == |log| && after[place - 1].row == entry.row
            && (forall k :: 0 <= k < |log| ==> after[k].tick == log[k].tick)
            && (forall k :: 0 <= k < |log| && k != place - 1 ==> after[k].row == log[k].row)
  {
  }

  lemma HoldsAtPlace<R>(log: seq<Sample<R>>, entry: Sample<R>, k: nat, t: int)
    requires Ascending(log) && k < |log| && log[k].tick <= t && (k + 1 < |log| ==> t < log[k + 1].tick)
    requires PlaceOf(log, entry.tick) > 0
    ensures Holds(log, entry, t) <==> k == PlaceOf(log, entry.tick) - 1 && entry.tick <= t
  {
    var place := PlaceOf(log, entry.tick);
    assert k >= place ==> log[place].tick <= log[k].tick;
    assert place < |log| && k < place ==> log[k + 1].tick <= log[place].tick;
    assert k < place - 1 ==> log[k + 1].tick <= log[place - 1].tick;
  }

  lemma KeptRowAt<R>(log: seq<Sample<R>>, after: seq<Sample<R>>, entry: Sample<R>, t: int)
    requires log != [] && Ascending(log) && !NeedsPlace(log, entry)
    requires var place := PlaceOf(log, entry.tick);
             && |after| == |log| && after[place - 1].row == entry.row
             && (forall k :: 0 <= k < |log| ==> after[k].tick == log[k].tick)
             && (forall k :: 0 <= k < |log| && k != place - 1 ==> after[k].row == log[k].row)
    requires t >= log[0].tick
    ensures RowAt(after, t) == if Holds(log, entry, t) then Some(entry.row) else RowAt(log, t)
  {
    hide NewestAt, RowAt;
    var k := Reached(log, t);
    assert Ascending(after);
    RowAtIs(after, k, t);
    HoldsAtPlace(log, entry, k, t);
  }

  lemma StoredRowAt<R>(log: seq<Sample<R>>, window: nat, entry: Sample<R>, t: int)
    requires window > 0 && log != [] && Ascending(log) && |log| <= window
    requires PlaceOf(log, entry.tick) > 0 || |log| < window
    requires t >= Stored(log, window, entry)[0].tick
    ensures RowAt(Stored(log, window, entry), t) == if Holds(log, entry, t) then Some(entry.row) else RowAt(log, t)
  {
    hide NewestAt, RowAt, Ascending, PlaceOf, Stored, Holds;
    if NeedsPlace(log, entry) {
      InsertedRowAt(log, window, entry, t);
    } else {
      KeptSamples(log, window, entry);
      KeptRowAt(log, Stored(log, window, entry), entry, t);
    }
  }

  lemma Reached<R>(log: seq<Sample<R>>, t: int) returns (k: nat)
    requires Ascending(log) && log != [] && log[0].tick <= t
    ensures k < |log| && log[k].tick <= t && (k + 1 < |log| ==> t < log[k + 1].tick)
    ensures NewestAt(log, t) == Some(k) && RowAt(log, t) == Some(log[k].row)
  {
    k := NewestAt(log, t).value;
  }

  lemma NoneBefore<R>(log: seq<Sample<R>>, t: int)
    requires Ascending(log) && log != [] && t < log[0].tick
    ensures RowAt(log, t) == None
  {
  }

  // ----- agreement with the plain log, wherever the ring reaches -----

  /** What holds of the sample ring after any calls, whatever their order. */
  ghost predicate HoldsCalls<R>(calls: seq<Sample<R>>, window: nat, log: seq<Sample<R>>) {
    && log != [] && Ascending(log) && |log| <= window
    && (forall k :: 0 <= k < |log| ==> IsCalled(calls, log[k].tick))
    && (|log| < window ==> forall j :: 0 <= j < |calls| ==> log[0].tick <= calls[j].tick)
  }

  ghost predicate IsCalled<R>(calls: seq<Sample<R>>, tick: int) {
    exists j :: 0 <= j < |calls| && calls[j].tick == tick
  }

  /** At every tick the ring reaches, its sample is that of the plain log. */
  ghost predicate Agrees<R>(calls: seq<Sample<R>>, log: seq<Sample<R>>) {
    log != [] && forall t :: t >= log[0].tick ==> RowAt(log, t) == LatestRow(calls, t)
  }

  lemma IsCalledAppend<R>(calls: seq<Sample<R>>, entry: Sample<R>, tick: int)
    requires IsCalled(calls, tick) || tick == entry.tick
    ensures IsCalled(calls + [entry], tick)
  {
    if tick == entry.tick {
      assert (calls + [entry])[|calls|] == entry;
    } else {
      var j :| 0 <= j < |calls| && calls[j].tick == tick;
      assert (calls + [entry])[j] == calls[j];
    }
  }

  /** The first sample left: the new one when its place is first, and none older than the first before. */
  lemma StoredFirst<R>(log: seq<Sample<R>>, window: nat, entry: Sample<R>)
    requires window > 0 && log != [] && Ascending(log) && |log| <= window
    ensures var after, place := Stored(log, window, entry), PlaceOf(log, entry.tick);
            && after != []
            && after[0].tick == (if !NeedsPlace(log, entry) then log[0].tick
                                 else if |log| < window then (if place == 0 then entry.tick else log[0].tick)
                                 else if place == 0 then log[0].tick
                                 else if place == 1 then entry.tick
                                 else log[1].tick)
            && (|after| < window ==> |log| < window)
            && (place > 0 ==> log[0].tick <= entry.tick && log[0].tick <= after[0].tick <= entry.tick)
            && (NeedsPlace(log, entry) && |log| == window && place == 0 ==> after == log)
  {
    var place := PlaceOf(log, entry.tick);
    BeforePlace(log, entry.tick);
    if place == 0 {
      assert log[..0] + [entry] + log[0..] == [entry] + log;
    }
  }

  lemma HoldsCallsStep<R>(calls: seq<Sample<R>>, window: nat, log: seq<Sample<R>>, entry: Sample<R>)
    requires window > 0 && HoldsCalls(calls, window, log)
    ensures HoldsCalls(calls + [entry], window, Stored(log, window, entry))
  {
    var after := Stored(log, window, entry);
    StoredKeepsOrder(log, window, entry);
    StoredFirst(log, window, entry);
    hide Stored, PlaceOf, IsCalled;
    forall k | 0 <= k < |after| ensures IsCalled(calls + [entry], after[k].tick) {
      if after[k] != entry {
        var m := StoredHolds(log, window, entry, k);
      }
      IsCalledAppend(calls, entry, after[k].tick);
    }
  }

  /** The answers after one call, at any tick the ring reaches: the log's, or the new row where that is wrong. */
  lemma AfterCall<R>(calls: seq<Sample<R>>, window: nat, log: seq<Sample<R>>, entry: Sample<R>, t: int)
    requires window > 0 && HoldsCalls(calls, window, log) && Agrees(calls, log)
    requires t >= Stored(log, window, entry)[0].tick
    ensures var place := PlaceOf(log, entry.tick);
            var overrun := place > 0 && Holds(log, entry, t) && CalledWithin(calls, entry.tick, t);
            && (overrun ==> RowAt(Stored(log, window, entry), t) == Some(entry.row)
                            && LatestRow(calls + [entry], t) == Some(log[place - 1].row))
            && (!overrun ==> RowAt(Stored(log, window, entry), t) == LatestRow(calls + [entry], t))
  {
    hide Stored, NewestAt, RowAt, LatestAt, LatestRow, IsCalled;
    var place := PlaceOf(log, entry.tick);
    StoredFirst(log, window, entry);
    LatestRowAppend(calls, entry, t);
    if place < |log| && log[place].tick <= t {
      WithinByHeld(calls, entry.tick, log[place].tick, t);
    }
    if place == 0 && |log| == window {
    } else {
      StoredRowAt(log, window, entry, t);
      if place > 0 && Holds(log, entry, t) {
        RowAtIs(log, place - 1, t);
      }
    }
  }

  lemma WithinByHeld<R>(calls: seq<Sample<R>>, low: int, tick: int, high: int)
    requires IsCalled(calls, tick) && low < tick <= high
    ensures CalledWithin(calls, low, high)
  {
  }

  /** A harmful call is read wrongly at the tick of a call it runs over. */
  lemma HarmIsSeen<R>(calls: seq<Sample<R>>, window: nat, log: seq<Sample<R>>, entry: Sample<R>) returns (t: int)
    requires window > 0 && HoldsCalls(calls, window, log) && Agrees(calls, log)
    requires !Harmless(calls, log, entry)
    ensures entry.tick <= t && Stored(log, window, entry)[0].tick <= t
    ensures RowAt(Stored(log, window, entry), t) != LatestRow(calls + [entry], t)
  {
    hide Stored, NewestAt, RowAt, LatestRow;
    var j :| 0 <= j < |calls| && entry.tick < calls[j].tick && Holds(log, entry, calls[j].tick);
    t := calls[j].tick;
    StoredFirst(log, window, entry);
    AfterCall(calls, window, log, entry, t);
  }

  /**
   Exactly which calls keep the ring in agreement with the plain log wherever it reaches: those that
   repeat the row before their place, and those with no earlier call between their tick and the next
   held one. A call older than every sample always does, inserted or refused.
   */
  lemma AgreesIff<R>(calls: seq<Sample<R>>, window: nat, log: seq<Sample<R>>, entry: Sample<R>)
    requires window > 0 && HoldsCalls(calls, window, log) && Agrees(calls, log)
    ensures Agrees(calls + [entry], Stored(log, window, entry)) <==> Harmless(calls, log, entry)
  {
    hide Stored, NewestAt, RowAt, LatestRow;
    var after, place := Stored(log, window, entry), PlaceOf(log, entry.tick);
    if Harmless(calls, log, entry) {
      StoredFirst(log, window, entry);
      forall t | t >= after[0].tick ensures RowAt(after, t) == LatestRow(calls + [entry], t) {
        AfterCall(calls, window, log, entry, t);
      }
    } else {
      var t := HarmIsSeen(calls, window, log, entry);
    }
  }

  // ----- reaching back to the oldest recorded tick -----

  lemma {:induction false} OldestIsLeast(seen: seq<int>)
    requires seen != [] && forall k :: 0 <= k < |seen| ==> seen[k] >= 0
    ensures OldestOf(seen) in seen && forall k :: 0 <= k < |seen| ==> OldestOf(seen) <= seen[k]
  {
    if |seen| > 1 {
      OldestIsLeast(seen[..|seen| - 1]);
    }
  }

  lemma NotedHas(seen: seq<int>, window: nat, tick: int)
    requires window > 0
    ensures var noted := Noted(seen, window, tick);
            noted != [] && tick in noted && forall k :: 0 <= k < |noted| ==> noted[k] in seen || noted[k] == tick
  {
    var noted := Noted(seen, window, tick);
    assert noted[|noted| - 1] == tick;
  }

  /** Exactly which calls leave a sample at or before every recorded tick. */
  lemma ReachIff<R>(log: seq<Sample<R>>, seen: seq<int>, window: nat, entry: Sample<R>)
    requires window > 0 && log != [] && Ascending(log) && |log| <= window
    requires entry.tick >= 0 && forall k :: 0 <= k < |seen| ==> seen[k] >= 0
    requires seen != [] ==> log[0].tick <= OldestOf(seen)
    ensures Stored(log, window, entry)[0].tick <= OldestOf(Noted(seen, window, entry.tick)) <==>
              KeepsReach(log, seen, window, entry)
  {
    hide Stored, PlaceOf, OldestOf, Ascending, Noted;
    StoredFirst(log, window, entry);
    var noted := Noted(seen, window, entry.tick);
    NotedHas(seen, window, entry.tick);
    OldestIsLeast(noted);
    if seen != [] {
      OldestIsLeast(seen);
    }
    BeforePlace(log, entry.tick);
  }

  /**
   A call older than every sample goes in front of a ring with room. A full ring refuses it and stays as it
   was, so its tick, though recorded and answered by it in the plain log, reads as nothing.
   */
  lemma OlderThanAll<R>(calls: seq<Sample<R>>, window: nat, log: seq<Sample<R>>, seen: seq<int>, entry: Sample<R>)
    requires window > 0 && log != [] && Ascending(log) && entry.tick < log[0].tick
    ensures |log| < window ==> Stored(log, window, entry) == [entry] + log
    ensures |log| >= window ==> Stored(log, window, entry) == log && RowAt(log, entry.tick) == None
    ensures entry.tick in Noted(seen, window, entry.tick) && LatestRow(calls + [entry], entry.tick) == Some(entry.row)
  {
    BeforePlace(log, entry.tick);
    assert PlaceOf(log, entry.tick) == 0;
    assert log[..0] + [entry] + log[0..] == [entry] + log;
    NoneBefore(log, entry.tick);
    NotedHas(seen, window, entry.tick);
    LatestRowAppend(calls, entry, entry.tick);
  }

  // ----- whole runs -----

  /** What holds of both rings after any calls from tick 0 on, whatever their order. */
  ghost predicate Rings<R>(calls: seq<Sample<R>>, window: nat) {
    && HoldsCalls(calls, window, RunLog(calls, window))
    && RunSeen(calls, window) != []
    && (forall k :: 0 <= k < |RunSeen(calls, window)| ==> SeenCall(calls, RunSeen(calls, window)[k]))
  }

  ghost predicate SeenCall<R>(calls: seq<Sample<R>>, tick: int) {
    tick >= 0 && IsCalled(calls, tick)
  }

  /** The answers are the log's wherever the ring reaches, and it reaches every recorded tick. */
  ghost predicate Sound<R>(calls: seq<Sample<R>>, window: nat) {
    && Rings(calls, window)
    && Agrees(calls, RunLog(calls, window))
    && RunLog(calls, window)[0].tick <= OldestOf(RunSeen(calls, window))
  }

  ghost predicate FromZero<R>(calls: seq<Sample<R>>) {
    forall j :: 0 <= j < |calls| ==> calls[j].tick >= 0
  }

  /** After every one of the calls the rings answer like the log. */
  ghost predicate AlwaysAnswers<R>(calls: seq<Sample<R>>, window: nat) {
    forall n :: 0 < n <= |calls| ==> AnswersLikeLog(calls[..n], window)
  }

  ghost predicate AllClean<R>(calls: seq<Sample<R>>, window: nat) {
    forall n :: 0 < n < |calls| ==> Clean(calls[..n], window, calls[n])
  }

  lemma RingsStep<R>(calls: seq<Sample<R>>, window: nat, entry: Sample<R>)
    requires window > 0 && entry.tick >= 0 && Rings(calls, window)
    ensures Rings(calls + [entry], window)
  {
    hide Stored, Noted, HoldsCalls, IsCalled;
    var seen, noted := RunSeen(calls, window), RunSeen(calls + [entry], window);
    assert (calls + [entry])[..|calls|] == calls;
    HoldsCallsStep(calls, window, RunLog(calls, window), entry);
    NotedHas(seen, window, entry.tick);
    forall k | 0 <= k < |noted| ensures SeenCall(calls + [entry], noted[k]) {
      if noted[k] in seen {
        assert SeenCall(calls, noted[k]);
      }
      IsCalledAppend(calls, entry, noted[k]);
    }
  }

  lemma FirstIsSound<R>(entry: Sample<R>, window: nat)
    requires window > 0 && entry.tick >= 0
    ensures Sound([entry], window)
  {
    hide HoldsCalls, OldestOf, Agrees;
    FirstRings(entry, window);
    FirstAgrees(entry, window);
    OldestIsLeast([entry.tick]);
    assert IsCalled([entry], entry.tick) by {
      assert [entry][0] == entry;
    }
  }

  lemma FirstRings<R>(entry: Sample<R>, window: nat)
    requires window > 0
    ensures RunLog([entry], window) == [entry] && RunSeen([entry], window) == [entry.tick]
    ensures HoldsCalls([entry], window, [entry])
  {
    assert [entry][..0] == [];
    assert PlaceOf<R>([], entry.tick) == 0;
    assert IsCalled([entry], entry.tick) by {
      assert [entry][0] == entry;
    }
  }

  lemma FirstAgrees<R>(entry: Sample<R>, window: nat)
    ensures Agrees([entry], [entry])
  {
    forall t | t >= entry.tick ensures RowAt([entry], t) == LatestRow([entry], t) {
      RowAtAppend([], entry, t);
      LatestRowAppend([], entry, t);
    }
  }

  lemma SoundSeen<R>(calls: seq<Sample<R>>, window: nat)
    requires Rings(calls, window)
    ensures forall k :: 0 <= k < |RunSeen(calls, window)| ==> RunSeen(calls, window)[k] >= 0
  {
    forall k | 0 <= k < |RunSeen(calls, window)| ensures RunSeen(calls, window)[k] >= 0 {
      assert SeenCall(calls, RunSeen(calls, window)[k]);
    }
  }

  /** A clean call keeps both rings sound. */
  lemma CleanKeeps<R>(calls: seq<Sample<R>>, window: nat, entry: Sample<R>)
    requires window > 0 && entry.tick >= 0 && Sound(calls, window) && Clean(calls, window, entry)
    ensures Sound(calls + [entry], window)
  {
    hide Stored, Noted, OldestOf, Rings, Agrees, Harmless, KeepsReach;
    assert (calls + [entry])[..|calls|] == calls;
    RingsStep(calls, window, entry);
    RingsGive(calls, window);
    SoundSeen(calls, window);
    AgreesIff(calls, window, RunLog(calls, window), entry);
    ReachIff(RunLog(calls, window), RunSeen(calls, window), window, entry);
  }

  lemma RingsGive<R>(calls: seq<Sample<R>>, window: nat)
    requires Rings(calls, window)
    ensures HoldsCalls(calls, window, RunLog(calls, window)) && RunSeen(calls, window) != []
    ensures var log := RunLog(calls, window); log != [] && Ascending(log) && |log| <= window
  {
  }

  lemma SoundAnswers<R>(calls: seq<Sample<R>>, window: nat)
    requires Sound(calls, window)
    ensures AnswersLikeLog(calls, window)
  {
    hide Rings, RowAt, LatestRow, OldestOf;
  }

  /** The oldest recorded tick is that of a call, so the log answers there. */
  lemma OldestHasAnswer<R>(calls: seq<Sample<R>>, window: nat)
    requires Rings(calls, window)
    ensures LatestRow(calls, OldestOf(RunSeen(calls, window))) != None
  {
    var seen := RunSeen(calls, window);
    SoundSeen(calls, window);
    hide LatestAt, OldestOf;
    OldestIsLeast(seen);
    var k :| 0 <= k < |seen| && seen[k] == OldestOf(seen);
    assert SeenCall(calls, seen[k]);
    var j :| 0 <= j < |calls| && calls[j].tick == OldestOf(seen);
    assert LatestAt(calls, calls[j].tick).Some?;
  }

  /** A call that is not clean leaves a recorded tick, or one after it, without the log's answer. */
  lemma UncleanIsSeen<R>(calls: seq<Sample<R>>, window: nat, entry: Sample<R>)
    requires window > 0 && entry.tick >= 0 && Sound(calls, window) && !Clean(calls, window, entry)
    ensures !AnswersLikeLog(calls + [entry], window)
  {
    hide Stored, Noted, OldestOf, Rings, Harmless, KeepsReach, RowAt, LatestRow, HoldsCalls;
    var log, seen := RunLog(calls, window), RunSeen(calls, window);
    assert (calls + [entry])[..|calls|] == calls;
    RingsStep(calls, window, entry);
    RingsGive(calls, window);
    RingsGive(calls + [entry], window);
    SoundSeen(calls, window);
    var after, noted := Stored(log, window, entry), Noted(seen, window, entry.tick);
    if Harmless(calls, log, entry) {
      ReachIff(log, seen, window, entry);
      OldestHasAnswer(calls + [entry], window);
      NoneBefore(after, OldestOf(noted));
    } else {
      var t := HarmIsSeen(calls, window, log, entry);
      SoundSeen(calls + [entry], window);
      OldestIsLeast(noted);
      NotedHas(seen, window, entry.tick);
    }
  }

  lemma PrefixOf<R>(calls: seq<Sample<R>>, window: nat)
    requires calls != []
    ensures var early, n := calls[..|calls| - 1], |calls| - 1;
            && (AlwaysAnswers(calls, window) <==> AlwaysAnswers(early, window) && AnswersLikeLog(calls, window))
            && (AllClean(calls, window) <==> AllClean(early, window) && (n > 0 ==> Clean(early, window, calls[n])))
  {
    hide AnswersLikeLog, Clean;
    var early, n := calls[..|calls| - 1], |calls| - 1;
    assert forall m :: 0 <= m <= n ==> early[..m] == calls[..m];
    assert early[..n] == early && calls[..n + 1] == calls;
    assert forall m :: 0 <= m < n ==> early[m] == calls[m];
    if AlwaysAnswers(calls, window) {
      forall m | 0 < m <= n ensures AnswersLikeLog(early[..m], window) {
        assert AnswersLikeLog(calls[..m], window);
      }
      assert AnswersLikeLog(calls[..n + 1], window);
    }
    if AlwaysAnswers(early, window) && AnswersLikeLog(calls, window) {
      forall m | 0 < m <= n + 1 ensures AnswersLikeLog(calls[..m], window) {
        if m <= n {
          assert AnswersLikeLog(early[..m], window);
        }
      }
    }
    if AllClean(calls, window) {
      forall m | 0 < m < n ensures Clean(early[..m], window, early[m]) {
        assert Clean(calls[..m], window, calls[m]);
      }
      assert n > 0 ==> Clean(calls[..n], window, calls[n]);
    }
    if AllClean(early, window) && (n > 0 ==> Clean(early, window, calls[n])) {
      forall m | 0 < m < n + 1 ensures Clean(calls[..m], window, calls[m]) {
        if m < n {
          assert Clean(early[..m], window, early[m]);
        }
      }
    }
  }

  /** After clean calls, in whatever order, both rings are sound. */
  lemma {:induction false} CleanRunIsSound<R>(calls: seq<Sample<R>>, window: nat)
    requires window > 0 && calls != [] && FromZero(calls) && AllClean(calls, window)
    ensures Sound(calls, window)
  {
    hide AllClean, AlwaysAnswers, Sound, Clean;
    var early, entry := calls[..|calls| - 1], calls[|calls| - 1];
    assert calls == early + [entry];
    if early == [] {
      FirstIsSound(entry, window);
    } else {
      PrefixOf(calls, window);
      CleanRunIsSound(early, window);
      CleanKeeps(early, window, entry);
    }
  }

  /**
   Exactly when the rings answer like the plain log after every call, for calls from tick 0 on in
   whatever order: when no call runs over an earlier one that the ring skipped, none is refused by a
   full ring, and none evicts a sample that a recorded tick still needs.
   */
  lemma {:induction false} AlwaysAnswersIff<R>(calls: seq<Sample<R>>, window: nat)
    requires window > 0 && FromZero(calls)
    ensures AlwaysAnswers(calls, window) <==> AllClean(calls, window)
  {
    hide AllClean, AlwaysAnswers, AnswersLikeLog, Sound, Clean;
    if calls == [] {
      NothingCalled<R>(window);
    } else {
      var early, entry := calls[..|calls| - 1], calls[|calls| - 1];
      assert calls == early + [entry];
      AlwaysAnswersIff(early, window);
      PrefixOf(calls, window);
      if early == [] {
        FirstIsSound(entry, window);
        SoundAnswers([entry], window);
      } else if AllClean(early, window) {
        CleanRunIsSound(early, window);
        if Clean(early, window, entry) {
          CleanKeeps(early, window, entry);
          SoundAnswers(calls, window);
        } else {
          UncleanIsSeen(early, window, entry);
        }
      }
    }
  }

  lemma NothingCalled<R>(window: nat)
    ensures AlwaysAnswers<R>([], window) && AllClean<R>([], window)
  {
  }

  /** Calls that never go back are clean, one and all. */
  lemma {:induction false} InOrderIsClean<R>(calls: seq<Sample<R>>, window: nat)
    requires window > 0 && FromZero(calls) && InOrder(calls)
    ensures AllClean(calls, window)
  {
    hide AnswersLikeLog, AllClean, RunLog, RunSeen;
    forall n | 0 < n <= |calls| ensures AnswersLikeLog(calls[..n], window) {
      assert InOrder(calls[..n]) && FromZero(calls[..n]);
      InOrderAnswers(calls[..n], window);
    }
    AlwaysAnswersIff(calls, window);
  }

  lemma InOrderAnswers<R>(calls: seq<Sample<R>>, window: nat)
    requires window > 0 && calls != [] && FromZero(calls) && InOrder(calls)
    ensures AnswersLikeLog(calls, window)
  {
    hide RunLog, RunSeen, OldestOf, NewestAt, LatestAt;
    forall t | t >= OldestOf(RunSeen(calls, window))
      ensures RowAt(RunLog(calls, window), t) == LatestRow(calls, t)
    {
      var i := RingsAnswerLikeTheLog(calls, window, t);
    }
  }

  // ----- the three ways to fail -----

  /** A late call that runs over a skipped one: the equal call at tick 3 now reads as the late one at tick 2. */
  lemma LateCallMisreads<R>(a: R, b: R)
    requires a != b
    ensures var calls := [Sample(1, a), Sample(3, a), Sample(2, b)];
            LatestRow(calls, 3) == Some(a) && RowAt(RunLog(calls, 4), 3) == Some(b) && OldestOf(RunSeen(calls, 4)) <= 3
  {
    hide LatestRow, RowAt, RunLog, RunSeen, OldestOf;
    var c1, c2, c3 := Sample(1, a), Sample(3, a), Sample(2, b);
    MisreadRings(c1, c2, c3);
    OldestIsLeast([1, 3, 2]);
    assert [1, 3, 2][1] == 3;
    RowAtAppend([c1], c3, 3);
    LatestRowAppend([c1, c2], c3, 3);
    LatestRowAppend([c1], c2, 3);
    assert [c1, c2] + [c3] == [c1, c2, c3] && [c1] + [c2] == [c1, c2];
    assert [c1] + [c3] == [c1, c3];
    assert CalledWithin([c1, c2], 2, 3) by {
      assert [c1, c2][1].tick == 3;
    }
  }

  lemma MisreadRings<R>(c1: Sample<R>, c2: Sample<R>, c3: Sample<R>)
    requires c1.tick == 1 && c2.tick == 3 && c3.tick == 2 && c1.row == c2.row && c2.row != c3.row
    ensures RunLog([c1, c2, c3], 4) == [c1, c3] && RunSeen([c1, c2, c3], 4) == [1, 3, 2]
  {
    SkippedRings(c1, c2);
    assert [c1, c2, c3][..2] == [c1, c2];
    assert PlaceOf([c1], 2) == 1;
  }

  lemma SkippedRings<R>(c1: Sample<R>, c2: Sample<R>)
    requires c1.tick == 1 && c2.tick == 3 && c1.row == c2.row
    ensures RunLog([c1, c2], 4) == [c1] && RunSeen([c1, c2], 4) == [1, 3]
  {
    assert [c1, c2][..1] == [c1] && [c1][..0] == [];
    assert RunLog([c1], 4) == [c1] && RunSeen([c1], 4) == [1];
  }

  /** A late call that a full ring refuses is recorded all the same, and reads as empty. */
  lemma RefusedCallUnanswered<R>(a: R, b: R)
    requires a != b
    ensures var calls := [Sample(5, a), Sample(3, b)];
            OldestOf(RunSeen(calls, 1)) == 3 && LatestRow(calls, 3) == Some(b) && RowAt(RunLog(calls, 1), 3) == None
  {
    var c1, c2 := Sample(5, a), Sample(3, b);
    assert [c1, c2][..1] == [c1] && [c1][..0] == [];
    assert RunLog([c1], 1) == [c1] && RunLog([c1, c2], 1) == [c1];
    assert RunSeen([c1], 1) == [5] && RunSeen([c1, c2], 1) == [3];
  }

  /** A call between two held ones evicts the first, which was recorded just before. */
  lemma EvictedCallUnanswered<R>(a: R, b: R, c: R)
    requires a != b && b != c
    ensures var calls := [Sample(9, a), Sample(5, b), Sample(7, c)];
            OldestOf(RunSeen(calls, 2)) == 5 && LatestRow(calls, 5) == Some(b) && RowAt(RunLog(calls, 2), 5) == None
  {
    var c1, c2, c3 := Sample(9, a), Sample(5, b), Sample(7, c);
    EvictedRings(c1, c2, c3);
    assert [5, 7][..1] == [5] && [5][..0] == [];
    assert OldestOf([5]) == 5;
    hide RunLog, RunSeen, OldestOf, RowAt, LatestRow;
    NoneBefore([c3, c1], 5);
    LatestRowAppend([c1, c2], c3, 5);
    LatestRowAppend([c1], c2, 5);
    assert [c1, c2] + [c3] == [c1, c2, c3] && [c1] + [c2] == [c1, c2];
  }

  lemma EvictedRings<R>(c1: Sample<R>, c2: Sample<R>, c3: Sample<R>)
    requires c1.tick == 9 && c2.tick == 5 && c3.tick == 7 && c1.row != c2.row && c2.row != c3.row
    ensures RunLog([c1, c2, c3], 2) == [c3, c1] && RunSeen([c1, c2, c3], 2) == [5, 7]
  {
    hide RunLog, RunSeen, Stored, Noted;
    NothingRun<R>();
    FirstOfTwo([], c1);
    FirstOfTwo([c1], c2);
    EvictedFor(c2, c1, c3);
    NotedThree();
    RunsAppend([], c1, 2);
    RunsAppend([c1], c2, 2);
    RunsAppend([c1, c2], c3, 2);
    assert [] + [c1] == [c1] && [c1] + [c2] == [c1, c2] && [c1, c2] + [c3] == [c1, c2, c3];
    assert [c2] + [c1] == [c2, c1] && [c1] + [] == [c1];
  }

  lemma NotedThree()
    ensures Noted([], 2, 9) == [9] && Noted([9], 2, 5) == [9, 5] && Noted([9, 5], 2, 7) == [5, 7]
  {
  }

  lemma NothingRun<R>()
    ensures RunLog<R>([], 2) == [] && RunSeen<R>([], 2) == []
  {
  }

  /** A call older than everything in a ring of two with room goes in front. */
  lemma FirstOfTwo<R>(log: seq<Sample<R>>, entry: Sample<R>)
    requires |log| < 2 && forall k :: 0 <= k < |log| ==> log[k].tick > entry.tick
    ensures Stored(log, 2, entry) == [entry] + log
  {
    hide PlaceOf;
  }

  /** A call between the two samples of a full ring of two evicts the first. */
  lemma EvictedFor<R>(first: Sample<R>, second: Sample<R>, entry: Sample<R>)
    requires first.tick < entry.tick < second.tick && first.row != entry.row
    ensures Stored([first, second], 2, entry) == [entry, second]
  {
    hide PlaceOf;
    var log := [first, second];
    assert log[0] == first && log[1] == second;
    assert PlaceOf(log, entry.tick) == 1;
  }

  lemma RunsAppend<R>(calls: seq<Sample<R>>, entry: Sample<R>, window: nat)
    ensures RunLog(calls + [entry], window) == Stored(RunLog(calls, window), window, entry)
    ensures RunSeen(calls + [entry], window) == Noted(RunSeen(calls, window), window, entry.tick)
  {
    assert (calls + [entry])[..|calls|] == calls;
  }
}
