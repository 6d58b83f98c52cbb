/**
 One datagram's worth of frames and row descriptors, on values: what its fields are after any script of
 frames and route closings, and what whole runs of one peer's lane hand out.
 */
module CarrierBatches {
  import opened Wrappers

  datatype Row = Row(route: int, comp: nat, bits: int, token: nat, revision: nat, masked: bool)

  /** What a row describes; a batch carries one descriptor for each. */
  datatype Key = Key(token: nat, route: int, comp: nat)

  function KeyOf(row: Row): Key {
    Key(row.token, row.route, row.comp)
  }

  datatype Batch = Batch(held: seq<nat>, descriptors: seq<Row>, frames: nat, bits: int)

  const EMPTY := Batch([], [], 0, 0)

  // ----- the descriptors -----

  /** The place of the key's descriptor, or the end. */
  function PlaceOf(descriptors: seq<Row>, key: Key): (at: nat)
    ensures at <= |descriptors|
    ensures at < |descriptors| ==> KeyOf(descriptors[at]) == key
    ensures forall i :: 0 <= i < at ==> KeyOf(descriptors[i]) != key
  {
    if descriptors == [] then 0
    else if KeyOf(descriptors[0]) == key then 0
    else 1 + PlaceOf(descriptors[1..], key)
  }

  function Attached(descriptors: seq<Row>, row: Row): seq<Row> {
    var at := PlaceOf(descriptors, KeyOf(row));
    if at == |descriptors| then descriptors + [row]
    else if row.revision >= descriptors[at].revision then descriptors[at := row]
    else descriptors
  }

  function Without(descriptors: seq<Row>, route: int): (kept: seq<Row>)
    ensures |kept| <= |descriptors|
  {
    if descriptors == [] then []
    else
      var early, last := Without(descriptors[..|descriptors| - 1], route), descriptors[|descriptors| - 1];
      if last.route == route then early else early + [last]
  }

  /** Each descriptor is kept or dropped on its own route, and those kept stay in their order. */
  lemma WithoutInOrder(descriptors: seq<Row>, row: Row, route: int)
    ensures Without(descriptors + [row], route) == Without(descriptors, route) + if row.route == route then []
                                                                                 else [row]
  {
    assert (descriptors + [row])[..|descriptors|] == descriptors;
  }

  /** Attaching moves no descriptor: a row replaces its key's in place, or joins at the end. */
  lemma AttachedInPlace(descriptors: seq<Row>, row: Row)
    ensures var after := Attached(descriptors, row);
            && |descriptors| <= |after| <= |descriptors| + 1
            && (forall i :: 0 <= i < |descriptors| ==> after[i] == descriptors[i] || after[i] == row)
            && (forall i :: 0 <= i < |descriptors| ==> KeyOf(after[i]) == KeyOf(descriptors[i]))
            && (|after| > |descriptors| ==> after[|descriptors|] == row)
  {
  }

  /** The descriptor a list carries for a key. */
  function Carried(descriptors: seq<Row>, key: Key): Option<Row> {
    var at := PlaceOf(descriptors, key);
    if at < |descriptors| then Some(descriptors[at]) else None
  }

  ghost predicate OneEach(descriptors: seq<Row>) {
    forall i, j :: 0 <= i < j < |descriptors| ==> KeyOf(descriptors[i]) != KeyOf(descriptors[j])
  }

  lemma {:induction false} WithoutKeepsOthers(descriptors: seq<Row>, route: int)
    requires OneEach(descriptors)
    ensures var kept := Without(descriptors, route);
            OneEach(kept) && forall row :: row in kept <==> row in descriptors && row.route != route
  {
    if descriptors == [] {
    } else {
      var early, last := descriptors[..|descriptors| - 1], descriptors[|descriptors| - 1];
      WithoutKeepsOthers(early, route);
      assert descriptors == early + [last];
    }
  }

  lemma CarriedIsIn(descriptors: seq<Row>, key: Key)
    requires OneEach(descriptors)
    ensures forall row :: Carried(descriptors, key) == Some(row) <==> row in descriptors && KeyOf(row) == key
  {
    var at := PlaceOf(descriptors, key);
    forall row: Row | row in descriptors && KeyOf(row) == key ensures Carried(descriptors, key) == Some(row) {
      var i :| 0 <= i < |descriptors| && descriptors[i] == row;
    }
  }

  lemma AttachedCarries(descriptors: seq<Row>, row: Row, key: Key)
    requires OneEach(descriptors)
    ensures OneEach(Attached(descriptors, row))
    ensures Carried(Attached(descriptors, row), key) ==
              if KeyOf(row) == key &&
                (Carried(descriptors, key) == None || row.revision >= Carried(descriptors, key).value.revision)
              then Some(row) else Carried(descriptors, key)
  {
    hide PlaceOf;
    var after, at := Attached(descriptors, row), PlaceOf(descriptors, KeyOf(row));
    assert at == |descriptors| ==> forall i :: 0 <= i < |descriptors| ==> after[i] == descriptors[i];
    assert at < |after| && KeyOf(after[at]) == KeyOf(row);
    PlaceIs(after, at);
    var here := PlaceOf(descriptors, key);
    if here < |descriptors| {
      PlaceIs(after, here);
    } else if key != KeyOf(row) {
      assert forall i :: 0 <= i < |after| ==> KeyOf(after[i]) != key;
    }
  }

  lemma PlaceIs(descriptors: seq<Row>, at: nat)
    requires OneEach(descriptors) && at < |descriptors|
    ensures PlaceOf(descriptors, KeyOf(descriptors[at])) == at
  {
  }

  lemma WithoutCarries(descriptors: seq<Row>, route: int, key: Key)
    requires OneEach(descriptors)
    ensures OneEach(Without(descriptors, route))
    ensures Carried(Without(descriptors, route), key) == if key.route == route then None else Carried(descriptors, key)
  {
    hide PlaceOf, Without, OneEach, Carried;
    WithoutKeepsOthers(descriptors, route);
    CarriedIsIn(descriptors, key);
    CarriedIsIn(Without(descriptors, route), key);
    var before, after := Carried(descriptors, key), Carried(Without(descriptors, route), key);
    if after.Some? {
      assert after.value in descriptors;
    }
    if before.Some? && key.route != route {
      assert before.value in Without(descriptors, route);
    }
  }

  // ----- what happened to a batch -----

  datatype Act = Frame(bytes: seq<nat>, row: Option<Row>) | Close(route: int)

  function Acted(batch: Batch, act: Act): Batch {
    match act
    case Frame(bytes, None) => batch.(held := batch.held + bytes, frames := batch.frames + 1)
    case Frame(bytes, Some(row)) =>
      batch.(held := batch.held + bytes, frames := batch.frames + 1,
             bits := batch.bits + row.bits, descriptors := Attached(batch.descriptors, row))
    case Close(route) => batch.(descriptors := Without(batch.descriptors, route))
  }

  function BatchOf(script: seq<Act>): Batch {
    if script == [] then EMPTY else Acted(BatchOf(script[..|script| - 1]), script[|script| - 1])
  }

  function BytesOf(script: seq<Act>): seq<nat> {
    if script == [] then []
    else
      var last := script[|script| - 1];
      BytesOf(script[..|script| - 1]) + if last.Frame? then last.bytes else []
  }

  predicate Attaches(act: Act, key: Key) {
    act.Frame? && act.row.Some? && KeyOf(act.row.value) == key
  }

  /** No later act closes the key's route. */
  ghost predicate SinceClosed(script: seq<Act>, key: Key, at: nat) {
    forall i :: at < i < |script| && script[i].Close? ==> script[i].route != key.route
  }

  /** Some row attached for the key outlives every closing of its route. */
  ghost predicate Described(script: seq<Act>, key: Key) {
    exists i :: 0 <= i < |script| && Attaches(script[i], key) && SinceClosed(script, key, i)
  }

  /** The row a key ends up with: a later one replaces an earlier one unless its revision is lower. */
  function Best(script: seq<Act>, key: Key): Option<Row> {
    if script == [] then None
    else
      var held, last := Best(script[..|script| - 1], key), script[|script| - 1];
      if Attaches(last, key) && (held == None || last.row.value.revision >= held.value.revision) then last.row
      else if last.Close? && last.route == key.route then None
      else held
  }

  /**
   The best row is the one of highest revision, the latest of those, among the rows attached since the
   key's route was last closed; there is none exactly when no row was.
   */
  lemma {:induction false} BestIsHighest(script: seq<Act>, key: Key) returns (at: nat)
    ensures Best(script, key).Some? <==> Described(script, key)
    ensures Best(script, key).Some? ==>
              && at < |script| && Attaches(script[at], key) && SinceClosed(script, key, at) &&
                 script[at].row == Best(script, key)
              && (forall i :: 0 <= i < |script| && Attaches(script[i], key) && SinceClosed(script, key, i) ==>
                    script[i].row.value.revision <= Best(script, key).value.revision)
              && (forall i :: at < i < |script| && Attaches(script[i], key) ==>
                    script[i].row.value.revision < Best(script, key).value.revision)
  {
    at := 0;
    if script == [] {
    } else {
      var early, last, n := script[..|script| - 1], script[|script| - 1], |script| - 1;
      at := BestIsHighest(early, key);
      var held := Best(early, key);
      forall i | 0 <= i < n
        ensures SinceClosed(script, key, i) <==>
                  SinceClosed(early, key, i) && !(last.Close? && last.route == key.route) {
        SinceClosedLast(script, key, i);
      }
      assert SinceClosed(script, key, n);
      if Attaches(last, key) && (held == None || last.row.value.revision >= held.value.revision) {
        at := n;
      }
    }
  }

  lemma SinceClosedLast(script: seq<Act>, key: Key, at: nat)
    requires at < |script| - 1
    ensures var last := script[|script| - 1];
            SinceClosed(script, key, at) <==>
                  SinceClosed(script[..|script| - 1], key, at) && !(last.Close? && last.route == key.route)
  {
    var early := script[..|script| - 1];
    assert forall i :: at < i < |early| ==> early[i] == script[i];
  }

  /** A batch carries exactly one descriptor for each key, the best row attached with its frames. */
  lemma {:induction false} BatchCarriesBest(script: seq<Act>, key: Key)
    ensures OneEach(BatchOf(script).descriptors)
    ensures Carried(BatchOf(script).descriptors, key) == Best(script, key)
  {
    if script == [] {
    } else {
      hide Attached, Without, Carried, OneEach;
      var early, last := script[..|script| - 1], script[|script| - 1];
      BatchCarriesBest(early, key);
      match last
      case Frame(bytes, None) =>
      case Frame(bytes, Some(row)) => AttachedCarries(BatchOf(early).descriptors, row, key);
      case Close(route) => WithoutCarries(BatchOf(early).descriptors, route, key);
    }
  }

  lemma {:induction false} BatchHoldsBytes(script: seq<Act>)
    ensures BatchOf(script).held == BytesOf(script)
  {
    if script == [] {
    } else {
      BatchHoldsBytes(script[..|script| - 1]);
    }
  }

  /** Frames and bits add up over a batch's acts: one for each frame, and the bits of each row attached. */
  lemma BatchAddsUp(script: seq<Act>, act: Act)
    ensures var before, after := BatchOf(script), BatchOf(script + [act]);
            && after.frames == before.frames + (if act.Frame? then 1 else 0)
            && after.bits == before.bits + (if act.Frame? && act.row.Some? then act.row.value.bits else 0)
  {
    hide Attached, Without;
    assert (script + [act])[..|script|] == script;
  }

  // ----- one peer's lane -----

  /** The scripts of the batches handed out, and of the one still pending. */
  datatype Lane = Lane(handed: seq<seq<Act>>, script: seq<Act>)

  datatype Op = Append(bytes: seq<nat>, row: Option<Row>, budget: int) | Take | CloseRoute(route: int) | Recycle

  predicate Overflows(script: seq<Act>, reliable: bool, bytes: seq<nat>, budget: int) {
    !reliable && BytesOf(script) != [] && |BytesOf(script)| + |bytes| > budget
  }

  /** Nothing pending: no byte and no row. */
  predicate Idle(script: seq<Act>) {
    BatchOf(script).held == [] && BatchOf(script).descriptors == []
  }

  function Next(lane: Lane, reliable: bool, op: Op): Lane {
    match op
    case Append(bytes, row, budget) =>
      if Overflows(lane.script, reliable, bytes, budget) then Lane(lane.handed + [lane.script], [Frame(bytes, row)])
      else lane.(script := lane.script + [Frame(bytes, row)])
    case Take => Lane(lane.handed + [lane.script], [])
    case CloseRoute(route) => lane.(script := lane.script + [Close(route)])
    case Recycle => if Idle(lane.script) then lane.(script := []) else lane
  }

  /**
   An append hands out what was pending exactly when the lane is unreliable, something is pending and both would
   exceed the budget; the frame is then the first of a new batch.
   */
  lemma AppendSplitsIff(lane: Lane, reliable: bool, bytes: seq<nat>, row: Option<Row>, budget: int)
    ensures var after, pending := Next(lane, reliable, Append(bytes, row, budget)), |BytesOf(lane.script)|;
            if !reliable && pending > 0 && pending + |bytes| > budget
            then after.handed == lane.handed + [lane.script] && after.script == [Frame(bytes, row)]
            else after.handed == lane.handed && after.script == lane.script + [Frame(bytes, row)]
  {
  }

  function Takes(ops: seq<Op>): nat {
    if ops == [] then 0 else Takes(ops[..|ops| - 1]) + if ops[|ops| - 1].Take? then 1 else 0
  }

  /** A reliable lane hands out nothing but what is taken. */
  lemma {:induction false} ReliableHandsOnTake(ops: seq<Op>)
    ensures |Run(ops, true).handed| == Takes(ops)
  {
    if ops != [] {
      ReliableHandsOnTake(ops[..|ops| - 1]);
    }
  }

  /** Nothing is pending to recycle over exactly when there is no byte and no key is described. */
  lemma IdleMeans(script: seq<Act>)
    ensures Idle(script) <==> BytesOf(script) == [] && forall key :: !Described(script, key)
  {
    hide Described, BytesOf;
    BatchHoldsBytes(script);
    var rows := BatchOf(script).descriptors;
    forall key: Key
      ensures Described(script, key) <==> Carried(rows, key).Some?
    {
      var at := BestIsHighest(script, key);
      BatchCarriesBest(script, key);
    }
    if rows != [] {
      assert PlaceOf(rows, KeyOf(rows[0])) == 0;
      assert Carried(rows, KeyOf(rows[0])).Some?;
    }
  }

  function Run(ops: seq<Op>, reliable: bool): Lane {
    if ops == [] then Lane([], []) else Next(Run(ops[..|ops| - 1], reliable), reliable, ops[|ops| - 1])
  }

  lemma RunAppend(ops: seq<Op>, reliable: bool, op: Op)
    ensures Run(ops + [op], reliable) == Next(Run(ops, reliable), reliable, op)
  {
    assert (ops + [op])[..|ops|] == ops;
  }

  function AllBytes(scripts: seq<seq<Act>>): seq<nat> {
    if scripts == [] then [] else AllBytes(scripts[..|scripts| - 1]) + BytesOf(scripts[|scripts| - 1])
  }

  function Appended(ops: seq<Op>): seq<nat> {
    if ops == [] then []
    else Appended(ops[..|ops| - 1]) + OpBytes(ops[|ops| - 1])
  }

  lemma ActBytes(script: seq<Act>, act: Act)
    ensures BytesOf(script + [act]) == BytesOf(script) + if act.Frame? then act.bytes else []
  {
    assert (script + [act])[..|script|] == script;
  }

  lemma HandedBytes(scripts: seq<seq<Act>>, script: seq<Act>)
    ensures AllBytes(scripts + [script]) == AllBytes(scripts) + BytesOf(script)
  {
    assert (scripts + [script])[..|scripts|] == scripts;
  }

  function LaneBytes(lane: Lane): seq<nat> {
    AllBytes(lane.handed) + BytesOf(lane.script)
  }

  function OpBytes(op: Op): seq<nat> {
    if op.Append? then op.bytes else []
  }

  lemma StepBytes(lane: Lane, reliable: bool, op: Op)
    ensures LaneBytes(Next(lane, reliable, op)) == LaneBytes(lane) + OpBytes(op)
  {
    assert BytesOf([]) == [];
    hide BytesOf, AllBytes, Overflows, BatchOf;
    var handed, held := AllBytes(lane.handed), BytesOf(lane.script);
    HandedBytes(lane.handed, lane.script);
    match op
    case Append(bytes, row, budget) =>
      ActBytes(lane.script, Frame(bytes, row));
      OneFrameBytes(bytes, row);
      Regroups(handed, held, bytes);
    case Take => Regroups(handed, held, []);
    case CloseRoute(route) =>
      ActBytes(lane.script, Close(route));
      Regroups(handed, held, []);
    case Recycle => BatchHoldsBytes(lane.script);
  }

  lemma Regroups(a: seq<nat>, b: seq<nat>, c: seq<nat>)
    ensures a + (b + c) == (a + b) + c && a + [] == a && (a + b) + [] == a + b && b + [] == b
  {
  }

  lemma OneFrameBytes(bytes: seq<nat>, row: Option<Row>)
    ensures BytesOf([Frame(bytes, row)]) == bytes
  {
    assert [Frame(bytes, row)][..0] == [];
  }

  lemma AppendedLast(ops: seq<Op>)
    requires ops != []
    ensures Appended(ops) == Appended(ops[..|ops| - 1]) + OpBytes(ops[|ops| - 1])
  {
  }

  /** The bytes handed out and then those pending are the appended frames, in order. */
  lemma {:induction false} BytesAreConserved(ops: seq<Op>, reliable: bool)
    ensures LaneBytes(Run(ops, reliable)) == Appended(ops)
  {
    if ops == [] {
    } else {
      hide Run, LaneBytes, Next, Appended, OpBytes;
      AppendedLast(ops);
      var early, op := ops[..|ops| - 1], ops[|ops| - 1];
      BytesAreConserved(early, reliable);
      StepBytes(Run(early, reliable), reliable, op);
      assert ops == early + [op];
      RunAppend(early, reliable, op);
    }
  }

  function FullFrames(script: seq<Act>): nat {
    if script == [] then 0
    else FullFrames(script[..|script| - 1]) + if script[|script| - 1].Frame? && script[|script| - 1].bytes != [] then 1
                                              else 0
  }

  /** The batch fits the budget, or at most one of its frames has any bytes. */
  ghost predicate Fits(script: seq<Act>, budget: int) {
    |BytesOf(script)| <= budget || FullFrames(script) <= 1
  }

  ghost predicate LaneFits(lane: Lane, budget: int) {
    && Fits(lane.script, budget)
    && forall i :: 0 <= i < |lane.handed| ==> Fits(lane.handed[i], budget)
  }

  lemma {:induction false} NoBytesNoFullFrames(script: seq<Act>)
    requires BytesOf(script) == []
    ensures FullFrames(script) == 0
  {
    if script == [] {
    } else {
      NoBytesNoFullFrames(script[..|script| - 1]);
    }
  }

  lemma FrameFits(script: seq<Act>, bytes: seq<nat>, row: Option<Row>, budget: int)
    requires !Overflows(script, false, bytes, budget)
    ensures Fits(script + [Frame(bytes, row)], budget)
  {
    hide BytesOf, FullFrames;
    ActBytes(script, Frame(bytes, row));
    FrameCounts(script, Frame(bytes, row));
    if BytesOf(script) == [] {
      NoBytesNoFullFrames(script);
    }
  }

  lemma FrameCounts(script: seq<Act>, act: Act)
    ensures FullFrames(script + [act]) == FullFrames(script) + if act.Frame? && act.bytes != [] then 1 else 0
  {
    assert (script + [act])[..|script|] == script;
  }

  lemma NothingFits(op: Op, budget: int)
    ensures Fits([], budget) && (op.Append? ==> !Overflows([], false, op.bytes, budget))
  {
  }

  lemma CloseFits(script: seq<Act>, route: int, budget: int)
    requires Fits(script, budget)
    ensures Fits(script + [Close(route)], budget)
  {
    hide BytesOf, FullFrames;
    ActBytes(script, Close(route));
    FrameCounts(script, Close(route));
  }

  lemma FitsStep(lane: Lane, op: Op, budget: int)
    requires LaneFits(lane, budget) && (op.Append? ==> op.budget == budget)
    ensures LaneFits(Next(lane, false, op), budget)
  {
    NothingFits(op, budget);
    hide BytesOf, FullFrames, BatchOf, Fits, Overflows;
    match op
    case Append(bytes, row, _) =>
      FrameFits([], bytes, row, budget);
      assert [] + [Frame(bytes, row)] == [Frame(bytes, row)];
      if !Overflows(lane.script, false, bytes, budget) { FrameFits(lane.script, bytes, row, budget); }
    case Take =>
    case CloseRoute(route) =>
      CloseFits(lane.script, route, budget);
    case Recycle =>
  }

  /** With a fixed budget every unreliable batch fits it, or has at most one frame with any bytes. */
  lemma {:induction false} UnreliableBatchesFit(ops: seq<Op>, budget: int)
    requires forall i :: 0 <= i < |ops| && ops[i].Append? ==> ops[i].budget == budget
    ensures LaneFits(Run(ops, false), budget)
  {
    if ops == [] {
    } else {
      hide Run, LaneFits;
      UnreliableBatchesFit(ops[..|ops| - 1], budget);
      assert ops == ops[..|ops| - 1] + [ops[|ops| - 1]];
      RunAppend(ops[..|ops| - 1], false, ops[|ops| - 1]);
      FitsStep(Run(ops[..|ops| - 1], false), ops[|ops| - 1], budget);
    }
  }

  /** When every frame has bytes, a batch over the budget is one frame. */
  lemma {:induction false} FramesAreFull(script: seq<Act>)
    requires forall i :: 0 <= i < |script| && script[i].Frame? ==> script[i].bytes != []
    ensures FullFrames(script) == BatchOf(script).frames
  {
    if script == [] {
    } else {
      FramesAreFull(script[..|script| - 1]);
    }
  }

  /** Recycling storage into a lane brings back no byte and no row; an idle one starts over, counts and all. */
  lemma RecycleRevivesNothing(lane: Lane, reliable: bool, key: Key)
    ensures var after := Next(lane, reliable, Recycle);
            && BytesOf(after.script) == BytesOf(lane.script)
            && Best(after.script, key) == Best(lane.script, key)
            && after.handed == lane.handed
            && (if Idle(lane.script) then BatchOf(after.script) == Batch([], [], 0, 0) else after == lane)
  {
    NothingHeld(key);
    hide BatchOf, BytesOf, Best, PlaceOf;
    BatchHoldsBytes(lane.script);
    BatchCarriesBest(lane.script, key);
  }

  lemma NothingHeld(key: Key)
    ensures BatchOf([]) == Batch([], [], 0, 0) && BytesOf([]) == [] && Best([], key) == None
  {
  }
}
