/**
 The lag-compensation book: a power-of-two ring of deduplicated, packed samples beside a ring of the
 ticks that were recorded. `calls` is the plain log of everything recorded since the rings were last
 sized; `Valid` ties both rings to it, so `Sample` can be specified by the log alone.
 */
module LagBooks {
  import opened Wrappers
  import opened LagHistory
  import opened LagOrder
  import opened LagCodec
  import Bits

  ghost predicate PowerOfTwo(window: nat) {
    exists n: nat :: window == Bits.Pow2(n)
  }

  /** The slot of an index less than twice round the ring. */
  function Wrap(index: nat, window: nat): (at: nat)
    requires index < 2 * window
    ensures at < window
  {
    if index < window then index else index - window
  }

  /** The source computes that slot as `index & (window - 1)`. */
  lemma WrapIsMask(index: nat, window: nat)
    requires PowerOfTwo(window) && index < 2 * window
    ensures Bits.And(index, window - 1) == Wrap(index, window)
  {
    var n: nat :| window == Bits.Pow2(n);
    Bits.MaskIsMod(index, n);
    if index < window {
      Bits.ModUnique(index, window, 0, index);
    } else {
      Bits.ModUnique(index, window, 1, index - window);
    }
  }

  /** The slot of the sample `age` places back from the newest. */
  function SlotOfAge(head: nat, held: nat, age: nat, window: nat): (at: nat)
    requires head < window && age < held <= window
  {
    Wrap(head + (held - 1 - age), window)
  }

  /** Recording `calls` in turn leaves `log` in the sample ring and `seen` in the recorded ring. */
  ghost predicate LeftBy(codec: Codec, calls: seq<Entry>, window: nat, log: seq<Sample<Row>>, seen: seq<int>)
    requires KeepsWidth(codec)
  {
    && log == RunLog(StagedCalls(codec, calls), window)
    && seen == RunSeen(StagedCalls(codec, calls), window)
  }

  /** Read round from `start`, the ring's slots list `items`. */
  ghost predicate RingLists<T>(slots: seq<T>, start: nat, items: seq<T>) {
    && PowerOfTwo(|slots|) && start < |slots| && |items| <= |slots|
    && forall i :: 0 <= i < |items| ==> slots[Wrap(start + i, |slots|)] == items[i]
  }

  lemma RingGrows<T>(slots: seq<T>, start: nat, items: seq<T>, item: T)
    requires RingLists(slots, start, items) && |items| < |slots|
    ensures RingLists(slots[Wrap(start + |items|, |slots|) := item], start, items + [item])
  {
  }

  lemma RingDrops<T>(slots: seq<T>, start: nat, items: seq<T>)
    requires RingLists(slots, start, items) && items != []
    ensures RingLists(slots, Wrap(start + 1, |slots|), items[1..])
  {
    var next, window := Wrap(start + 1, |slots|), |slots|;
    forall i | 0 <= i < |items| - 1
      ensures slots[Wrap(next + i, window)] == items[1..][i]
    {
      assert slots[Wrap(start + (i + 1), window)] == items[i + 1];
    }
  }

  lemma RingTurns<T>(slots: seq<T>, start: nat, items: seq<T>, item: T)
    requires RingLists(slots, start, items) && |items| == |slots|
    ensures RingLists(slots[start := item], Wrap(start + 1, |slots|), items[1..] + [item])
  {
    RingDrops(slots, start, items);
    RingGrows(slots, Wrap(start + 1, |slots|), items[1..], item);
  }

  lemma RingUpdates<T>(slots: seq<T>, start: nat, items: seq<T>, at: nat, item: T)
    requires RingLists(slots, start, items) && at < |items|
    ensures RingLists(slots[Wrap(start + at, |slots|) := item], start, items[at := item])
  {
  }

  /** Moving one entry up a place frees the place below it. */
  lemma RingShifts<T>(slots: seq<T>, start: nat, items: seq<T>, at: nat)
    requires RingLists(slots, start, items) && 0 < at < |items|
    ensures var window := |slots|;
            RingLists(slots[Wrap(start + at, window) := slots[Wrap(start + (at - 1), window)]], start,
                      items[at := items[at - 1]])
  {
    assert slots[Wrap(start + (at - 1), |slots|)] == items[at - 1];
    RingUpdates(slots, start, items, at, items[at - 1]);
  }

  lemma ShiftedTail<T>(log: seq<T>, moved: seq<T>, at: nat)
    requires |moved| == |log| + 1 && 0 < at <= |log|
    requires moved[..at] == log[..at] && moved[at + 1..] == log[at..]
    ensures var after := moved[at := moved[at - 1]];
            after[..at - 1] == log[..at - 1] && after[at..] == log[at - 1..]
  {
    var after := moved[at := moved[at - 1]];
    assert moved[at - 1] == moved[..at][at - 1] == log[at - 1];
    assert after[at..] == [log[at - 1]] + moved[at + 1..];
    assert log[at - 1..] == [log[at - 1]] + log[at..];
    assert after[..at - 1] == moved[..at][..at - 1];
  }

  /** A recorded payload and its tick. */
  type Entry = Sample<map<Key, Variant>>

  ghost function StagedCalls(codec: Codec, calls: seq<Entry>): (staged: seq<Sample<Row>>)
    requires KeepsWidth(codec)
    ensures |staged| == |calls|
    ensures forall i :: 0 <= i < |calls| ==> staged[i] == Sample(calls[i].tick, Staged(codec, calls[i].row))
  {
    seq(|calls|, i requires 0 <= i < |calls| => Sample(calls[i].tick, Staged(codec, calls[i].row)))
  }

  /** A row as `stage` leaves it: carried values only where a present field is not packed. */
  ghost predicate RowOf(codec: Codec, row: Row) {
    && |row.image| == codec.words && |row.carried| == FieldCount(codec)
    && row.coded <= row.present
    && (forall f :: f in row.present ==> f < FieldCount(codec))
    && (forall f :: 0 <= f < FieldCount(codec) && f !in row.present - row.coded ==> row.carried[f] == Nil)
  }

  class LagBook {
    var codec: Codec
    var compiled: bool
    var window: nat
    var fields: nat
    var floorTick: int

    // the sample ring, one entry per slot; `carried` stays empty until a value has to be carried
    var ticks: seq<int>
    var present: seq<set<int>>
    var coded: seq<set<int>>
    var images: seq<seq<bv64>>
    var carried: seq<seq<Variant>>
    var head: nat
    var held: nat

    // the ring of recorded ticks
    var recorded: seq<int>
    var recordedHead: nat
    var recordedHeld: nat

    // the payload being recorded
    var scratch: seq<bv64>
    var staged: seq<Variant>
    var stagedPresent: set<int>
    var stagedCoded: set<int>

    ghost var slots: seq<Sample<Row>>
    ghost var log: seq<Sample<Row>>
    ghost var seen: seq<int>
    ghost var calls: seq<Entry>

    ghost function StagedRow(): Row
      reads this`stagedPresent, this`stagedCoded, this`scratch, this`staged
    {
      Row(stagedPresent, stagedCoded, scratch, staged)
    }

    /** The lists of the sample ring together store exactly `slots`. */
    ghost predicate Mirrored()
      reads this`codec, this`window, this`fields, this`ticks, this`present, this`coded, this`images, this`carried,
            this`slots
    {
      && PowerOfTwo(window) && window > 0 && fields == FieldCount(codec)
      && |slots| == |ticks| == |present| == |coded| == |images| == window
      && (carried == [] || |carried| == window)
      && (forall s :: 0 <= s < window ==>
            && slots[s] == Sample(ticks[s], Row(present[s], coded[s], images[s], slots[s].row.carried))
            && RowOf(codec, slots[s].row)
            && (if carried == [] then present[s] <= coded[s] else slots[s].row.carried == carried[s]))
    }

    /** Read round from the head, the slots list `log`. */
    ghost predicate Filed()
      reads this`log, this`held, this`window, this`head, this`slots
    {
      |log| == held <= window == |slots| && head < window && RingLists(slots, head, log)
    }

    /** The rings hold `log` and `seen`, and those are what the log of calls leaves in them. */
    ghost predicate Current()
      reads this
    {
      && KeepsWidth(codec) && fields == FieldCount(codec) && Mirrored()
      && Filed()
      && |recorded| == window && |seen| == recordedHeld && RingLists(recorded, recordedHead, seen)
      && LeftBy(codec, calls, window, log, seen)
    }

    ghost predicate Valid()
      reads this
    {
      && PowerOfTwo(window) && window > 0
      && if compiled then Current()
         else held == 0 && recordedHeld == 0 && calls == [] && log == [] && seen == []
    }

    constructor (codec: Codec)
      ensures Valid() && !compiled
      ensures window == 64 && floorTick == -1 && calls == []
    {
      this.codec := codec;
      compiled, window, fields, floorTick := false, 64, 0, -1;
      ticks, present, coded, images, carried, recorded := [], [], [], [], [], [];
      head, held, recordedHead, recordedHeld := 0, 0, 0, 0;
      scratch, staged, stagedPresent, stagedCoded := [], [], {}, {};
      slots, log, seen, calls := [], [], [], [];
      assert 64 == Bits.Pow2(6);
    }

    method SizeRings()
      requires PowerOfTwo(window) && window > 0 && compiled && KeepsWidth(codec)
      modifies this
      ensures Valid() && compiled && calls == [] && log == []
      ensures codec == old(codec) && window == old(window) && floorTick == old(floorTick)
    {
      hide Mirrored, KeepsWidth, StagedUpTo;
      ClearSamples();
      SizeSamples();
      SizeRecorded();
      assert LeftBy(codec, [], window, [], []);
    }

    method ClearSamples()
      modifies this`fields, this`head, this`held, this`log, this`calls
      ensures fields == FieldCount(codec) && head == held == 0 && log == [] && calls == []
    {
      fields := FieldCount(codec);
      head, held := 0, 0;
      log, calls := [], [];
    }

    method SizeSamples()
      requires PowerOfTwo(window) && window > 0 && fields == FieldCount(codec)
      modifies this`ticks, this`present, this`coded, this`images, this`carried, this`slots
      ensures Mirrored() && |slots| == window
    {
      ticks := Filled(window, -1);
      present := Filled(window, {});
      coded := Filled(window, {});
      images := Filled(window, ClearWords(codec.words));
      carried := [];
      slots := Filled(window, Sample(-1, Row({}, {}, ClearWords(codec.words), Filled(fields, Nil))));
    }

    method SizeRecorded()
      modifies this`recorded, this`recordedHead, this`recordedHeld, this`seen
      ensures |recorded| == window && recordedHead == recordedHeld == 0 && seen == []
    {
      recorded := Filled(window, -1);
      recordedHead, recordedHeld := 0, 0;
      seen := [];
    }

    /** Rounds the window up to the least power of two that holds `samples`. */
    method SetWindow(samples: int)
      requires Valid()
      modifies this
      ensures Valid() && compiled == old(compiled) && calls == []
      ensures samples <= window && (window == 1 || window < 2 * samples)
      ensures codec == old(codec) && floorTick == old(floorTick)
    {
      var rounded: nat := 1;
      ghost var n: nat := 0;
      while rounded < samples
        invariant rounded == Bits.Pow2(n)
        invariant rounded == 1 || rounded < 2 * samples
        decreases samples - rounded
      {
        rounded, n := rounded * 2, n + 1;
      }
      window := rounded;
      if compiled {
        SizeRings();
      }
    }

    /** The declared columns of a source codec, sealed into the book's own; the rings start over. */
    method Compile(columns: seq<Column>, declared: seq<Key>, sealed: seq<Column> -> Codec)
      requires Valid() && forall kept :: KeepsWidth(sealed(kept))
      modifies this
      ensures Valid() && compiled && calls == [] && log == [] && codec == sealed(Declared(columns, declared))
      ensures window == old(window) && floorTick == old(floorTick)
    {
      hide KeepsWidth;
      var kept := Keep(columns, declared);
      codec := sealed(kept);
      compiled := true;
      SizeRings();
    }

    method CompileKeys(keys: seq<Key>)
      requires Valid()
      modifies this
      ensures Valid() && compiled && calls == [] && log == [] && codec == KeysCodec(keys)
      ensures window == old(window) && floorTick == old(floorTick)
    {
      codec := KeysCodec(keys);
      compiled := true;
      SizeRings();
    }

    method Stage(payload: map<Key, Variant>)
      requires KeepsWidth(codec) && fields == FieldCount(codec)
      modifies this`scratch, this`staged, this`stagedPresent, this`stagedCoded
      ensures StagedRow() == Staged(codec, payload)
    {
      scratch := ClearWords(codec.words);
      staged := Filled(fields, Nil);
      stagedPresent, stagedCoded := {}, {};
      for field := 0 to fields
        invariant StagedRow() == StagedUpTo(codec, payload, field)
      {
        var key := codec.keys[field];
        if key !in payload {
          continue;
        }
        var value := payload[key];
        stagedPresent := stagedPresent + {field};
        var packed := false;
        if codec.holds(field, value) {
          var written := codec.encode(field, value, scratch);
          scratch, packed := written.0, written.1;
        }
        if packed {
          stagedCoded := stagedCoded + {field};
        } else {
          staged := staged[field := value];
        }
      }
    }

    /** Whether the staged payload is stored in slot `at`, from the masks, the words and the carried fields alone. */
    method StagedEquals(at: nat) returns (same: bool)
      requires Mirrored() && at < window && RowOf(codec, StagedRow())
      ensures same == (slots[at].row == StagedRow())
    {
      ghost var row := slots[at].row;
      if present[at] != stagedPresent || coded[at] != stagedCoded {
        return false;
      }
      if images[at] != scratch {
        return false;
      }
      var carrying := stagedPresent - stagedCoded;
      for field := 0 to fields
        invariant forall f :: 0 <= f < field ==> row.carried[f] == staged[f]
      {
        if field in carrying {
          if carried == [] || carried[at][field] != staged[field] {
            assert row.carried[field] != staged[field];
            return false;
          }
        }
      }
      assert row.carried == staged;
      return true;
    }

    method WriteStaged(at: nat, tick: int, ghost row: Row)
      requires Mirrored() && at < window && RowOf(codec, row) && row == StagedRow()
      modifies this`ticks, this`present, this`coded, this`images, this`carried, this`slots
      ensures Mirrored() && slots == old(slots)[at := Sample(tick, row)]
    {
      slots := slots[at := Sample(tick, row)];
      ticks := ticks[at := tick];
      present := present[at := stagedPresent];
      coded := coded[at := stagedCoded];
      images := images[at := scratch];
      var carrying := stagedPresent - stagedCoded;
      if carrying == {} && carried == [] {
        assert forall f :: f in stagedPresent && f !in stagedCoded ==> f in carrying;
        return;
      }
      if carried == [] {
        carried := Filled(window, Filled(fields, Nil));
        assert forall s :: 0 <= s < window && s != at ==> slots[s].row.carried == carried[s];
      }
      carried := carried[at := staged];
    }

    method CopyEntry(to: nat, from: nat)
      requires Mirrored() && to < window && from < window
      modifies this`ticks, this`present, this`coded, this`images, this`carried, this`slots
      ensures Mirrored() && slots == old(slots)[to := old(slots)[from]] && |slots| == window
    {
      slots := slots[to := slots[from]];
      ticks := ticks[to := ticks[from]];
      present := present[to := present[from]];
      coded := coded[to := coded[from]];
      images := images[to := images[from]];
      if carried == [] {
        return;
      }
      carried := carried[to := carried[from]];
    }

    method NoteRecorded(tick: int)
      requires RingLists(recorded, recordedHead, seen) && |seen| == recordedHeld && |recorded| == window
      modifies this`recorded, this`recordedHead, this`recordedHeld, this`seen
      ensures RingLists(recorded, recordedHead, seen) && |seen| == recordedHeld && |recorded| == window
      ensures seen == Noted(old(seen), window, tick)
    {
      ghost var before := seen;
      seen := Noted(before, window, tick);
      if recordedHeld > 0 {
        var newest := Wrap(recordedHead + recordedHeld - 1, window);
        assert recorded[newest] == before[recordedHeld - 1];
        if recorded[newest] == tick {
          return;
        }
      }
      if recordedHeld < window {
        RingGrows(recorded, recordedHead, before, tick);
        recorded := recorded[Wrap(recordedHead + recordedHeld, window) := tick];
        recordedHeld := recordedHeld + 1;
        return;
      }
      RingTurns(recorded, recordedHead, before, tick);
      recorded := recorded[recordedHead := tick];
      recordedHead := Wrap(recordedHead + 1, window);
    }

    /** The backward scan: where a sample at `tick` belongs. */
    method FindPlace(tick: int) returns (place: nat)
      requires Mirrored() && Filed()
      ensures place == PlaceOf(log, tick) && place <= held
    {
      place := held;
      while place > 0 && ticks[Wrap(head + (place - 1), window)] > tick
        invariant place <= held
        invariant forall k :: place <= k < held ==> log[k].tick > tick
      {
        assert slots[Wrap(head + (place - 1), window)] == log[place - 1];
        place := place - 1;
      }
      assert place > 0 ==> slots[Wrap(head + (place - 1), window)] == log[place - 1];
    }

    /**
     Records `payload` at `tick`. Whatever the order of the ticks, the rings afterwards are what the
     log of calls leaves in them.
     */
    method Record(tick: int, payload: map<Key, Variant>, order: seq<Key>) returns (wrote: bool)
      requires Valid()
      modifies this
      ensures Valid() && compiled && calls == old(calls) + [Sample(tick, payload)]
      ensures codec == if old(compiled) then old(codec) else KeysCodec(order)
      ensures window == old(window) && floorTick == old(floorTick)
      ensures wrote == Writes(old(log), window, Sample(tick, Staged(codec, payload)))
    {
      hide StagedUpTo, Current, Staged, Writes;
      if !compiled {
        CompileKeys(order);
      }
      wrote := RecordCompiled(tick, payload);
    }

    method RecordCompiled(tick: int, payload: map<Key, Variant>) returns (wrote: bool)
      requires Current()
      modifies this`scratch, this`staged, this`stagedPresent, this`stagedCoded
      modifies this`ticks, this`present, this`coded, this`images, this`carried, this`slots, this`head, this`held,
               this`log
      modifies this`recorded, this`recordedHead, this`recordedHeld, this`seen, this`calls
      ensures Current() && calls == old(calls) + [Sample(tick, payload)]
      ensures wrote == Writes(old(log), window, Sample(tick, Staged(codec, payload)))
    {
      hide StagedUpTo, Staged, Stored, Noted, LeftBy, Writes, RingLists, Filed, Mirrored, RowOf, StagedRow, KeepsWidth;
      ghost var row := Staged(codec, payload);
      OneMoreCall(codec, calls, window, log, seen, tick, payload);
      calls := calls + [Sample(tick, payload)];
      NoteRecorded(tick);
      Stage(payload);
      wrote := RecordStaged(tick, row);
    }

    method OldestRecorded() returns (oldest: int)
      requires RingLists(recorded, recordedHead, seen) && |seen| == recordedHeld && |recorded| == window
      ensures oldest == OldestOf(seen)
    {
      oldest := -1;
      for at := 0 to recordedHeld
        invariant oldest == OldestOf(seen[..at])
      {
        var tick := recorded[Wrap(recordedHead + at, window)];
        assert tick == seen[at] && seen[..at + 1][..at] == seen[..at];
        oldest := if oldest < 0 || tick < oldest then tick else oldest;
      }
      assert seen[..recordedHeld] == seen;
    }

    /** The tick of the sample that answers at `t`, or -1. */
    method SampleTick(t: int) returns (tick: int)
      requires Valid()
      ensures var chosen := Chosen(log, seen, floorTick, t);
              tick == if chosen.Some? then log[chosen.value].tick else -1
    {
      hide LeftBy, StagedUpTo;
      if t < floorTick || recordedHeld == 0 {
        return -1;
      }
      var oldest := OldestRecorded();
      if t < oldest {
        return -1;
      }
      for age := 0 to held
        invariant forall k :: held - age <= k < held ==> log[k].tick > t
      {
        tick := ticks[SlotOfAge(head, held, age, window)];
        assert slots[SlotOfAge(head, held, age, window)] == log[held - 1 - age];
        if tick <= t {
          return if tick < floorTick then -1 else tick;
        }
      }
      return -1;
    }

    /** The slot holding exactly `tick`, or -1; the scan may stop at the first older sample. */
    method FindSample(tick: int) returns (at: int)
      requires Valid() && compiled
      ensures at >= 0 ==> at < window && slots[at] in log && slots[at].tick == tick
      ensures at < 0 ==> forall k :: 0 <= k < |log| ==> log[k].tick != tick
    {
      hide LeftBy, StagedUpTo;
      LeftAscends(codec, calls, window, log, seen);
      for age := 0 to held
        invariant forall k :: held - age <= k < held ==> log[k].tick > tick
      {
        var slot := SlotOfAge(head, held, age, window);
        assert slots[slot] == log[held - 1 - age];
        if ticks[slot] == tick {
          return slot;
        }
        if ticks[slot] < tick {
          assert forall k :: 0 <= k < held - age ==> log[k].tick < tick;
          return -1;
        }
      }
      return -1;
    }

    /** The payload in force at `t`, as the chosen sample reads back; empty when nothing answers. */
    method SampleAt(t: int) returns (out: map<Key, Variant>)
      requires Valid()
      ensures var chosen := Chosen(log, seen, floorTick, t);
              out == if chosen.Some? && log[chosen.value].tick >= 0 then Read(codec, log[chosen.value].row) else map[]
    {
      hide LeftBy, StagedUpTo;
      out := map[];
      var tick := SampleTick(t);
      if tick < 0 {
        return;
      }
      var found := FindSample(tick);
      ghost var k := Chosen(log, seen, floorTick, t).value;
      assert found >= 0 && slots[found] == log[k] by {
        LeftAscends(codec, calls, window, log, seen);
      }
      var at: nat := found;
      for field := 0 to fields
        invariant out == ReadUpTo(codec, log[k].row, field)
      {
        if field !in present[at] {
          continue;
        }
        var value;
        if field !in coded[at] {
          value := if carried == [] then Nil else carried[at][field];
        } else {
          var decoded := codec.decode(field, images[at]);
          if decoded.None? {
            continue;
          }
          value := decoded.value;
        }
        out := out[codec.keys[field] := value];
      }
    }

    /**
     The book answers like the plain log. After clean calls, in whatever order, every `t` at or after the
     oldest recorded tick is answered by the payload most recently recorded at the greatest recorded tick
     at or before `t`, as the codec stages and reads it back, unless the sample that holds it is from
     before the floor. Calls whose ticks never go back are clean, and no sample of theirs is from before a
     floor that none of them is.
     */
    method SampleOf(t: int, ghost quantised: (nat, Variant) -> Variant) returns (out: map<Key, Variant>)
      requires Valid()
      ensures calls != [] && FromZero(calls) && CleanCalls(codec, calls, window) && t >= OldestOf(seen) &&
              t >= floorTick ==>
                exists i: nat, k: nat ::
                  && Answers(calls, t, i) && NewestAt(log, t) == Some(k)
                  && out == (if log[k].tick >= floorTick then Read(codec, Staged(codec, calls[i].row)) else map[])
                  && (log[k].tick >= floorTick && Faithful(codec, quantised) && DistinctKeys(codec.keys) ==>
                        ReadsBack(codec.keys, quantised, calls[i].row, out))
      ensures calls != [] && InOrder(calls) && calls[0].tick >= 0 && floorTick <= calls[0].tick &&
              t >= OldestOf(seen) ==>
                exists i: nat ::
                  && Answers(calls, t, i) && out == Read(codec, Staged(codec, calls[i].row))
                  && (Faithful(codec, quantised) && DistinctKeys(codec.keys) ==>
                        ReadsBack(codec.keys, quantised, calls[i].row, out))
      ensures t < floorTick || calls == [] || t < OldestOf(seen) ==> out == map[]
    {
      hide StagedUpTo, Mirrored, Filed, RingLists, CleanCalls, FromZero, ReadsBack, Faithful, DistinctKeys, Read;
      out := SampleAt(t);
      if calls != [] && FromZero(calls) && CleanCalls(codec, calls, window) && t >= OldestOf(seen) && t >= floorTick {
        ghost var i, k := CleanAnswers(codec, calls, window, log, seen, floorTick, t);
        if Faithful(codec, quantised) && DistinctKeys(codec.keys) {
          StagedReadsBack(codec, quantised, calls[i].row);
        }
      }
      if calls != [] && InOrder(calls) && calls[0].tick >= 0 && floorTick <= calls[0].tick && t >= OldestOf(seen) {
        ghost var i := ChosenAnswers(codec, calls, window, log, seen, floorTick, t);
        if Faithful(codec, quantised) && DistinctKeys(codec.keys) {
          StagedReadsBack(codec, quantised, calls[i].row);
        }
      }
    }

    method TrimBefore(t: int)
      requires Valid()
      modifies this`floorTick
      ensures Valid() && floorTick == if t > old(floorTick) then t else old(floorTick)
    {
      floorTick := if floorTick > t then floorTick else t;
    }

    /** Files the staged row at `tick`. */
    method RecordStaged(tick: int, ghost row: Row) returns (wrote: bool)
      requires Mirrored() && RowOf(codec, row) && row == StagedRow()
      requires Filed()
      modifies this`ticks, this`present, this`coded, this`images, this`carried, this`slots, this`head, this`held,
               this`log
      ensures Mirrored() && Filed()
      ensures log == Stored(old(log), window, Sample(tick, row))
      ensures wrote == Writes(old(log), window, Sample(tick, row))
    {
      hide Mirrored, Filed, RowOf, Stored, Writes, Inserted, StagedRow;
      ghost var before, entry := log, Sample(tick, row);
      var place := FindPlace(tick);
      var sameTick, sameRow := MeetsPrevious(place, tick, row);
      StoredCases(before, window, entry);
      if sameTick {
        Overwrite(place - 1, tick, row);
        wrote := true;
      } else if sameRow {
        wrote := false;
      } else {
        wrote := Insert(place, tick, row);
      }
    }

    /** How the staged row stands to the sample just before `place`. */
    method MeetsPrevious(place: nat, tick: int, ghost row: Row) returns (sameTick: bool, sameRow: bool)
      requires Mirrored() && RowOf(codec, row) && row == StagedRow()
      requires Filed() && place <= held
      ensures sameTick == (place > 0 && log[place - 1].tick == tick)
      ensures sameRow == (place > 0 && !sameTick && log[place - 1].row == row)
    {
      if place == 0 {
        return false, false;
      }
      var previous := Wrap(head + (place - 1), window);
      assert slots[previous] == log[place - 1];
      if ticks[previous] == tick {
        return true, false;
      }
      sameTick := false;
      sameRow := StagedEquals(previous);
    }

    method Overwrite(place: nat, tick: int, ghost row: Row)
      requires Mirrored() && RowOf(codec, row) && row == StagedRow()
      requires Filed() && place < held
      modifies this`ticks, this`present, this`coded, this`images, this`carried, this`slots, this`log
      ensures Mirrored() && Filed()
      ensures log == old(log)[place := Sample(tick, row)]
    {
      hide RowOf;
      RingUpdates(slots, head, log, place, Sample(tick, row));
      log := log[place := Sample(tick, row)];
      WriteStaged(Wrap(head + place, window), tick, row);
    }

    /** The tail of `record`: makes room in a full ring, then inserts at `place`. */
    method Insert(place: nat, tick: int, ghost row: Row) returns (wrote: bool)
      requires Mirrored() && RowOf(codec, row) && row == StagedRow()
      requires Filed() && place <= held
      modifies this`ticks, this`present, this`coded, this`images, this`carried, this`slots, this`head, this`held,
               this`log
      ensures Mirrored() && Filed()
      ensures log == Inserted(old(log), window, place, Sample(tick, row))
      ensures wrote == (|old(log)| < window || place > 0)
    {
      hide RowOf, RingLists;
      if held == window {
        if place == 0 {
          return false;
        }
        RingDrops(slots, head, log);
        log := log[1..];
        head := Wrap(head + 1, window);
        held := held - 1;
        InsertAt(place - 1, tick, row);
      } else {
        InsertAt(place, tick, row);
      }
      return true;
    }

    method InsertAt(place: nat, tick: int, ghost row: Row)
      requires Mirrored() && RowOf(codec, row) && row == StagedRow()
      requires Filed() && held < window && place <= held
      modifies this`ticks, this`present, this`coded, this`images, this`carried, this`slots, this`held, this`log
      ensures Mirrored() && Filed()
      ensures log == old(log)[..place] + [Sample(tick, row)] + old(log)[place..]
    {
      hide RowOf, Mirrored, RingLists, StagedRow;
      ghost var moved := OpenPlace(place);
      ghost var entry := Sample(tick, row);
      RingUpdates(slots, head, moved, place, entry);
      assert moved[place := entry] == log[..place] + [entry] + log[place..];
      log := moved[place := entry];
      held := held + 1;
      WriteStaged(Wrap(head + place, window), tick, row);
    }

    /** Moves every entry from position `place` on one slot up. */
    method OpenPlace(place: nat) returns (ghost moved: seq<Sample<Row>>)
      requires Mirrored() && Filed() && held < window && place <= held
      modifies this`ticks, this`present, this`coded, this`images, this`carried, this`slots
      ensures Mirrored() && |slots| == window && |moved| == held + 1 && RingLists(slots, head, moved)
      ensures moved[..place] == log[..place] && moved[place + 1..] == log[place..]
    {
      hide RowOf, RingLists, Mirrored;
      ghost var spare := slots[Wrap(head + held, window)];
      RingGrows(slots, head, log, spare);
      assert slots[Wrap(head + held, window) := spare] == slots;
      moved := log + [spare];
      var at := held;
      while at > place
        invariant place <= at <= held && Mirrored() && |slots| == window
        invariant |moved| == held + 1 && RingLists(slots, head, moved)
        invariant moved[..at] == log[..at] && moved[at + 1..] == log[at..]
      {
        RingShifts(slots, head, moved, at);
        CopyEntry(Wrap(head + at, window), Wrap(head + (at - 1), window));
        ShiftedTail(log, moved, at);
        moved := moved[at := moved[at - 1]];
        at := at - 1;
      }
    }
  }

  lemma LeftAscends(codec: Codec, calls: seq<Entry>, window: nat, log: seq<Sample<Row>>, seen: seq<int>)
    requires KeepsWidth(codec) && window > 0 && LeftBy(codec, calls, window, log, seen)
    ensures Ascending(log)
  {
    RunKeepsOrder(StagedCalls(codec, calls), window);
  }

  /** What one more call does to the rings of the whole log. */
  lemma OneMoreCall(codec: Codec, calls: seq<Entry>, window: nat, log: seq<Sample<Row>>, seen: seq<int>, tick: int,
                    payload: map<Key, Variant>)
    requires KeepsWidth(codec) && LeftBy(codec, calls, window, log, seen)
    ensures var entry := Sample(tick, Staged(codec, payload));
            && LeftBy(codec, calls + [Sample(tick, payload)], window, Stored(log, window, entry),
                      Noted(seen, window, tick))
            && RowOf(codec, entry.row)
  {
    var before, after := StagedCalls(codec, calls), StagedCalls(codec, calls + [Sample(tick, payload)]);
    assert after[..|before|] == before;
  }

  /** None of the calls runs over a skipped one, is refused, or evicts what is still recorded. */
  ghost predicate CleanCalls(codec: Codec, calls: seq<Entry>, window: nat) {
    KeepsWidth(codec) && AllClean(StagedCalls(codec, calls), window)
  }

  /** After clean calls the newest sample at or before `t` carries the row of the call that answers in the log. */
  lemma CleanAnswers(codec: Codec, calls: seq<Entry>, window: nat, log: seq<Sample<Row>>, seen: seq<int>, floor: int,
                     t: int)
    returns (i: nat, k: nat)
    requires KeepsWidth(codec) && window > 0 && LeftBy(codec, calls, window, log, seen)
    requires calls != [] && FromZero(calls) && CleanCalls(codec, calls, window) && t >= OldestOf(seen)
    ensures Answers(calls, t, i) && NewestAt(log, t) == Some(k)
    ensures 0 <= log[k].tick <= t && log[k].row == Staged(codec, calls[i].row)
    ensures Chosen(log, seen, floor, t) == if floor <= t && floor <= log[k].tick then Some(k) else None
  {
    hide StagedUpTo, AllClean, Staged, OldestOf;
    var told := StagedCalls(codec, calls);
    assert forall m :: 0 <= m < |calls| ==> told[m].tick == calls[m].tick;
    CleanRunIsSound(told, window);
    SoundAnswers(told, window);
    OldestHasAnswer(told, window);
    assert RowAt(log, t) == LatestRow(told, t);
    AnswerSinceOldest(told, OldestOf(seen), t);
    i := LatestAt(told, t).value;
    k := NewestAt(log, t).value;
    assert Answers(told, t, i);
    var j := HeldSampleIsLatestCall(told, window, k);
  }

  lemma AnswerSinceOldest<R>(calls: seq<Sample<R>>, oldest: int, t: int)
    requires LatestRow(calls, oldest) != None && oldest <= t
    ensures LatestAt(calls, t).Some?
  {
    var i := LatestAt(calls, oldest).value;
    assert calls[i].tick <= t;
  }

  /** The sample the rings choose carries the row of the call that answers in the log. */
  lemma ChosenAnswers(codec: Codec, calls: seq<Entry>, window: nat, log: seq<Sample<Row>>, seen: seq<int>, floor: int,
                      t: int)
    returns (i: nat)
    requires KeepsWidth(codec) && window > 0 && LeftBy(codec, calls, window, log, seen)
    requires calls != [] && InOrder(calls) && floor <= calls[0].tick && calls[0].tick >= 0 && t >= OldestOf(seen)
    ensures Answers(calls, t, i)
    ensures var chosen := Chosen(log, seen, floor, t);
            chosen.Some? && log[chosen.value].tick >= 0 && log[chosen.value].row == Staged(codec, calls[i].row)
  {
    hide StagedUpTo, AllClean, NewestAt;
    var told := StagedCalls(codec, calls);
    assert forall m :: 0 <= m < |calls| ==> told[m].tick == calls[m].tick;
    InOrderIsClean(told, window);
    var k;
    i, k := CleanAnswers(codec, calls, window, log, seen, floor, t);
    var j := HeldSampleIsLatestCall(told, window, k);
    assert calls[0].tick <= calls[j].tick;
  }
}
