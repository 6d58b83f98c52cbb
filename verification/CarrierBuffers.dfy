/** The batching buffers of a session, updated in place, proved against the log of each peer's lane. */
module NetwCarrierBuffers {
  import opened Wrappers
  import opened CarrierBatches

  datatype LaneKey = LaneKey(peer: int, reliable: bool)

  function RunIn(runs: map<int, Batch>, peer: int): Batch {
    if peer in runs then runs[peer] else EMPTY
  }

  function OpsOf(ops: map<LaneKey, seq<Op>>, key: LaneKey): seq<Op> {
    if key in ops then ops[key] else []
  }

  function LaneOf(ops: map<LaneKey, seq<Op>>, key: LaneKey): Lane {
    Run(OpsOf(ops, key), key.reliable)
  }

  /** Every run of the lane is the batch its log makes. */
  ghost predicate Agrees(runs: map<int, Batch>, reliable: bool, ops: map<LaneKey, seq<Op>>) {
    forall peer: int :: RunIn(runs, peer) == BatchOf(LaneOf(ops, LaneKey(peer, reliable)).script)
  }

  function Logged(ops: map<LaneKey, seq<Op>>, key: LaneKey, op: Op): map<LaneKey, seq<Op>> {
    ops[key := OpsOf(ops, key) + [op]]
  }

  function ClosedAll(ops: map<LaneKey, seq<Op>>, route: int): map<LaneKey, seq<Op>> {
    map key | key in ops :: ops[key] + [CloseRoute(route)]
  }

  /** Adds the row, or replaces the row of its key unless that one is of a higher revision. */
  method Attach(batch: Batch, row: Row) returns (after: Batch)
    ensures after == batch.(bits := batch.bits + row.bits, descriptors := Attached(batch.descriptors, row))
  {
    after := batch.(bits := batch.bits + row.bits);
    var at := 0;
    while at < |after.descriptors|
      invariant 0 <= at <= |after.descriptors|
      invariant forall i :: 0 <= i < at ==> KeyOf(after.descriptors[i]) != KeyOf(row)
      invariant after == batch.(bits := batch.bits + row.bits)
    {
      var held := after.descriptors[at];
      if held.token != row.token || held.route != row.route || held.comp != row.comp {
        at := at + 1;
        continue;
      }
      if row.revision >= held.revision {
        after := after.(descriptors := after.descriptors[at := row]);
      }
      return;
    }
    after := after.(descriptors := after.descriptors + [row]);
  }

  /** Packs the rows of other routes to the front, in place, and cuts the rest. */
  method CloseBatch(batch: Batch, route: int) returns (after: Batch)
    ensures after == batch.(descriptors := Without(batch.descriptors, route))
  {
    ghost var all := batch.descriptors;
    var rows := batch.descriptors;
    var kept := 0;
    var at := 0;
    while at < |rows|
      invariant 0 <= kept <= at <= |rows| == |all|
      invariant rows[..kept] == Without(all[..at], route)
      invariant rows[at..] == all[at..]
    {
      assert rows[at] == all[at];
      assert all[..at + 1][..at] == all[..at];
      if rows[at].route == route {
        at := at + 1;
        continue;
      }
      ghost var before := rows;
      if kept != at {
        rows := rows[kept := rows[at]];
      }
      assert rows[..kept + 1] == before[..kept] + [before[at]];
      assert rows[at + 1..] == before[at + 1..] == before[at..][1..];
      kept := kept + 1;
      at := at + 1;
    }
    assert all[..|all|] == all;
    after := batch.(descriptors := rows[..kept]);
  }

  /** Every run of a lane with the route's rows gone. */
  method CloseRuns(runs: map<int, Batch>, route: int) returns (after: map<int, Batch>)
    ensures after.Keys == runs.Keys
    ensures forall peer ::
              peer in runs ==> after[peer] == runs[peer].(descriptors := Without(runs[peer].descriptors, route))
  {
    after := runs;
    var rest := runs.Keys;
    while rest != {}
      invariant after.Keys == runs.Keys && rest <= runs.Keys
      invariant forall peer :: peer in runs ==>
                  after[peer] == if peer in rest then runs[peer]
                                 else runs[peer].(descriptors := Without(runs[peer].descriptors, route))
      decreases rest
    {
      var peer := Pick(rest);
      rest := rest - {peer};
      var closed := CloseBatch(after[peer], route);
      after := after[peer := closed];
    }
  }

  class CarrierBuffers {
    var unreliable: map<int, Batch>
    var reliable: map<int, Batch>
    /** What was done to each peer's lane since the buffers were last cleared. */
    ghost var ops: map<LaneKey, seq<Op>>

    ghost predicate Valid()
      reads this
    {
      Agrees(unreliable, false, ops) && Agrees(reliable, true, ops)
    }

    constructor ()
      ensures Valid() && ops == map[]
    {
      unreliable, reliable, ops := map[], map[], map[];
    }

    function LaneRuns(isReliable: bool): map<int, Batch>
      reads this
    {
      if isReliable then reliable else unreliable
    }

    method SetRun(isReliable: bool, peer: int, run: Batch)
      modifies `unreliable, `reliable
      ensures LaneRuns(isReliable) == old(LaneRuns(isReliable))[peer := run]
      ensures LaneRuns(!isReliable) == old(LaneRuns(!isReliable))
    {
      if isReliable { reliable := reliable[peer := run]; } else { unreliable := unreliable[peer := run]; }
    }

    /**
     Adds a frame to the peer's run, and hands out what was pending first when both would exceed the
     budget of the unreliable lane.
     */
    method Append(peer: int, frame: seq<nat>, isReliable: bool, budget: int, row: Option<Row>) returns (owed: Batch)
      requires Valid()
      modifies this
      ensures Valid()
      ensures ops == Logged(old(ops), LaneKey(peer, isReliable), CarrierBatches.Append(frame, row, budget))
      ensures var script := LaneOf(old(ops), LaneKey(peer, isReliable)).script;
              owed == if !isReliable && BytesOf(script) != [] && |BytesOf(script)| + |frame| > budget
                      then BatchOf(script) else EMPTY
    {
      hide Agrees, CarrierBatches.Run, BatchOf, BytesOf, Next, Logged;
      ghost var key, op := LaneKey(peer, isReliable), CarrierBatches.Append(frame, row, budget);
      RunAt(unreliable, reliable, ops, key);
      AppendedRun(LaneOf(ops, key), isReliable, frame, row, budget);
      var run := RunIn(LaneRuns(isReliable), peer);
      owed := EMPTY;
      if !isReliable && run.held != [] && |run.held| + |frame| > budget {
        owed, run := run, EMPTY;
      }
      run := run.(held := run.held + frame, frames := run.frames + 1);
      if row.Some? {
        run := Attach(run, row.value);
      }
      OneLogged(unreliable, reliable, ops, key, op, run);
      SetRun(isReliable, peer, run);
      ops := Logged(ops, key, op);
    }

    /** Hands out whatever is pending for the peer. */
    method Take(peer: int, isReliable: bool) returns (out: Batch)
      requires Valid()
      modifies this
      ensures Valid()
      ensures ops == Logged(old(ops), LaneKey(peer, isReliable), CarrierBatches.Take)
      ensures out == BatchOf(LaneOf(old(ops), LaneKey(peer, isReliable)).script)
    {
      assert BatchOf([]) == EMPTY;
      hide Agrees, CarrierBatches.Run, BatchOf, Logged;
      ghost var key := LaneKey(peer, isReliable);
      RunAt(unreliable, reliable, ops, key);
      OneLogged(unreliable, reliable, ops, key, CarrierBatches.Take, EMPTY);
      out := EMPTY;
      if peer in LaneRuns(isReliable) {
        out := LaneRuns(isReliable)[peer];
        SetRun(isReliable, peer, EMPTY);
      }
      ops := Logged(ops, key, CarrierBatches.Take);
    }

    /** Lends a spent batch's storage to an idle run; what comes back holds no byte and no row. */
    method Recycle(peer: int, isReliable: bool, spent: Batch) returns (left: Batch)
      requires Valid()
      modifies this
      ensures Valid()
      ensures var key, script := LaneKey(peer, isReliable), LaneOf(old(ops), LaneKey(peer, isReliable)).script;
              if peer in old(LaneRuns(isReliable)) && Idle(script)
              then ops == Logged(old(ops), key, CarrierBatches.Recycle) && left == BatchOf(script)
              else unchanged(this) && left == spent
    {
      assert BatchOf([]) == EMPTY;
      hide Agrees, CarrierBatches.Run, BatchOf, Logged;
      ghost var key := LaneKey(peer, isReliable);
      RunAt(unreliable, reliable, ops, key);
      if peer !in LaneRuns(isReliable) || LaneRuns(isReliable)[peer].held != [] ||
        LaneRuns(isReliable)[peer].descriptors != [] {
        return spent;
      }
      left := LaneRuns(isReliable)[peer];
      OneLogged(unreliable, reliable, ops, key, CarrierBatches.Recycle, EMPTY);
      SetRun(isReliable, peer, EMPTY);
      ops := Logged(ops, key, CarrierBatches.Recycle);
    }

    /** The route's rows leave every pending batch of both lanes. */
    method CloseRoute(route: int)
      requires Valid()
      modifies this
      ensures Valid() && ops == ClosedAll(old(ops), route)
    {
      hide Agrees, CarrierBatches.Run;
      var closed := CloseRuns(unreliable, route);
      ClosedAgrees(unreliable, closed, false, ops, route);
      unreliable := closed;
      closed := CloseRuns(reliable, route);
      ClosedAgrees(reliable, closed, true, ops, route);
      reliable := closed;
      ops := ClosedAll(ops, route);
    }

    method Pending(peer: int, isReliable: bool) returns (size: nat)
      requires Valid()
      ensures size == |BytesOf(LaneOf(ops, LaneKey(peer, isReliable)).script)|
    {
      hide Agrees, CarrierBatches.Run, BytesOf, BatchOf;
      RunAt(unreliable, reliable, ops, LaneKey(peer, isReliable));
      BatchHoldsBytes(LaneOf(ops, LaneKey(peer, isReliable)).script);
      size := if peer in LaneRuns(isReliable) then |LaneRuns(isReliable)[peer].held| else 0;
    }

    method Clear()
      modifies this
      ensures Valid() && ops == map[]
    {
      unreliable, reliable, ops := map[], map[], map[];
    }
  }

  lemma ActedLast(script: seq<Act>, act: Act)
    ensures BatchOf(script + [act]) == Acted(BatchOf(script), act)
  {
    assert (script + [act])[..|script|] == script;
  }

  /** What an append leaves of the pending batch, read off its bytes. */
  lemma AppendedRun(lane: Lane, isReliable: bool, frame: seq<nat>, row: Option<Row>, budget: int)
    ensures var pending := BatchOf(lane.script);
            var overflows := !isReliable && pending.held != [] && |pending.held| + |frame| > budget;
            && Overflows(lane.script, isReliable, frame, budget) == overflows
            && BatchOf(Next(lane, isReliable, CarrierBatches.Append(frame, row, budget)).script)
                 == Acted(if overflows then EMPTY else pending, Frame(frame, row))
  {
    hide BytesOf, Acted;
    BatchHoldsBytes(lane.script);
    ActedLast(lane.script, Frame(frame, row));
    ActedLast([], Frame(frame, row));
    assert [] + [Frame(frame, row)] == [Frame(frame, row)];
  }

  lemma RunAt(unreliable: map<int, Batch>, reliable: map<int, Batch>, ops: map<LaneKey, seq<Op>>, key: LaneKey)
    requires Agrees(unreliable, false, ops) && Agrees(reliable, true, ops)
    ensures RunIn(if key.reliable then reliable else unreliable, key.peer) == BatchOf(LaneOf(ops, key).script)
  {
    hide LaneOf, BatchOf;
  }

  /** One operation on one lane, with the run it leaves; every other run is as before. */
  lemma {:induction false} OneLogged(unreliable: map<int, Batch>, reliable: map<int, Batch>,
                                     ops: map<LaneKey, seq<Op>>, key: LaneKey, op: Op, run: Batch)
    requires Agrees(unreliable, false, ops) && Agrees(reliable, true, ops)
    requires run == BatchOf(Next(LaneOf(ops, key), key.reliable, op).script)
    ensures var runs, after := if key.reliable then reliable else unreliable, Logged(ops, key, op);
            && Agrees(runs[key.peer := run], key.reliable, after)
            && (RunIn(runs, key.peer) == run ==> Agrees(runs, key.reliable, after))
            && Agrees(if key.reliable then unreliable else reliable, !key.reliable, after)
  {
    hide CarrierBatches.Run, BatchOf, Next;
    RunAppend(OpsOf(ops, key), key.reliable, op);
    var after := Logged(ops, key, op);
    forall other: LaneKey
      ensures LaneOf(after, other) == if other == key then Next(LaneOf(ops, key), key.reliable, op)
                                      else LaneOf(ops, other) {
    }
    assert forall peer: int :: RunIn(unreliable, peer) == BatchOf(LaneOf(ops, LaneKey(peer, false)).script);
    assert forall peer: int :: RunIn(reliable, peer) == BatchOf(LaneOf(ops, LaneKey(peer, true)).script);
  }

  lemma ClosedAgrees(runs: map<int, Batch>, closed: map<int, Batch>, reliable: bool, ops: map<LaneKey, seq<Op>>,
                     route: int)
    requires Agrees(runs, reliable, ops) && closed.Keys == runs.Keys
    requires forall peer ::
               peer in runs ==> closed[peer] == runs[peer].(descriptors := Without(runs[peer].descriptors, route))
    ensures Agrees(closed, reliable, ClosedAll(ops, route))
  {
    hide CarrierBatches.Run, BatchOf;
    forall peer: int
      ensures RunIn(closed, peer) == BatchOf(LaneOf(ClosedAll(ops, route), LaneKey(peer, reliable)).script) {
      var key := LaneKey(peer, reliable);
      assert RunIn(runs, peer) == BatchOf(LaneOf(ops, key).script);
      if key in ops {
        RunAppend(ops[key], reliable, CarrierBatches.CloseRoute(route));
        ActedLast(LaneOf(ops, key).script, Close(route));
      }
      assert Without([], route) == [];
      NothingCloses(reliable, route);
    }
  }

  lemma NothingCloses(reliable: bool, route: int)
    ensures BatchOf(CarrierBatches.Run([], reliable).script) == EMPTY
    ensures Without(EMPTY.descriptors, route) == EMPTY.descriptors
  {
  }
}
