/**
 A rewind: owners are set to a past tick, a body runs, and what was written is put back. Each step is
 proved equal to a function of the rows and the owners, and what the whole leaves behind is proved
 about that function.
 */
module Rewinds {
  import opened Wrappers

  /** An owner's properties; a key that is not among them reads as nil and cannot be set. */
  type Owner = map<string, Variant>
  type World = map<int, Owner>
  type Payload = map<string, Variant>

  /** One timeline: the owner its port is bound to, its sample at the rewound tick, its declared keys, its parts. */
  datatype Row = Row(port: Option<int>, past: Payload, declared: seq<string>, parts: seq<int>)

  // ----- which keys a row touches -----

  predicate Touches(row: Row, key: string) {
    key in row.past && (row.declared == [] || key in row.declared)
  }

  /** What a row writes: its past, cut to the declared keys when there are any. */
  function Written(row: Row): Payload {
    map key | key in row.past && Touches(row, key) :: row.past[key]
  }

  /** The keys to capture, in order. */
  method TouchedKeys(row: Row) returns (keys: seq<string>)
    ensures forall key :: key in keys <==> Touches(row, key)
  {
    if |row.declared| == 0 {
      keys := [];
      var rest := row.past.Keys;
      while rest != {}
        invariant rest <= row.past.Keys
        invariant forall key :: key in keys <==> key in row.past && key !in rest
        decreases rest
      {
        var key := Pick(rest);
        rest := rest - {key};
        keys := keys + [key];
      }
      return;
    }
    keys := [];
    for at := 0 to |row.declared|
      invariant forall key :: key in keys <==> key in row.past && key in row.declared[..at]
    {
      assert row.declared[..at + 1] == row.declared[..at] + [row.declared[at]];
      if row.declared[at] in row.past {
        keys := keys + [row.declared[at]];
      }
    }
    assert row.declared[..|row.declared|] == row.declared;
  }

  /** The payload to write: the same keys. */
  method DeclaredOnly(row: Row) returns (payload: Payload)
    ensures payload == Written(row)
  {
    if |row.declared| == 0 {
      return row.past;
    }
    payload := map[];
    for at := 0 to |row.declared|
      invariant forall key :: key in payload <==> key in row.past && key in row.declared[..at]
      invariant forall key :: key in payload ==> payload[key] == row.past[key]
    {
      assert row.declared[..at + 1] == row.declared[..at] + [row.declared[at]];
      var key := row.declared[at];
      if key in row.past {
        payload := payload[key := row.past[key]];
      }
    }
    assert row.declared[..|row.declared|] == row.declared;
  }

  // ----- the port -----

  function Get(world: World, owner: int, key: string): Variant {
    if owner in world && key in world[owner] then world[owner][key] else Nil
  }

  predicate HasKey(world: World, owner: int, key: string) {
    owner in world && key in world[owner]
  }

  /** The owner with the payload's keys set, those it has. */
  function Applied(owner: Owner, payload: Payload): Owner {
    map key | key in owner :: if key in payload then payload[key] else owner[key]
  }

  function Set(world: World, owner: int, payload: Payload): World {
    if owner in world then world[owner := Applied(world[owner], payload)] else world
  }

  function Captured(world: World, owner: int, row: Row): Payload {
    map key | key in row.past && Touches(row, key) :: Get(world, owner, key)
  }

  method Capture(world: World, owner: int, keys: seq<string>) returns (held: Payload)
    ensures owner in world ==> held == map key | key in keys :: Get(world, owner, key)
    ensures owner !in world ==> held == map[]
  {
    held := map[];
    if owner !in world {
      return;
    }
    for at := 0 to |keys|
      invariant held == map key | key in keys[..at] :: Get(world, owner, key)
    {
      assert keys[..at + 1] == keys[..at] + [keys[at]];
      held := held[keys[at] := Get(world, owner, keys[at])];
    }
    assert keys[..|keys|] == keys;
  }

  method Apply(world: World, owner: int, payload: Payload) returns (after: World)
    ensures after == Set(world, owner, payload)
  {
    after := world;
    if owner !in world {
      return;
    }
    var rest := payload.Keys;
    while rest != {}
      invariant rest <= payload.Keys && after.Keys == world.Keys && owner in after
      invariant forall other :: other in world && other != owner ==> after[other] == world[other]
      invariant after[owner] == Applied(world[owner], map key | key in payload && key !in rest :: payload[key])
      decreases rest
    {
      var key := Pick(rest);
      rest := rest - {key};
      if key in after[owner] {
        after := after[owner := after[owner][key := payload[key]]];
      }
    }
    assert (map key | key in payload && key !in rest :: payload[key]) == payload;
    assert after[owner] == Applied(world[owner], payload);
    OnlyOwnerChanged(world, after, owner);
  }

  lemma OnlyOwnerChanged(world: World, after: World, owner: int)
    requires after.Keys == world.Keys && owner in world
    requires forall other :: other in world && other != owner ==> after[other] == world[other]
    ensures after == world[owner := after[owner]]
  {
    var updated := world[owner := after[owner]];
    assert owner in after.Keys;
    forall other: int ensures other in after <==> other in updated {
      assert other in after.Keys <==> other in world.Keys;
    }
    assert forall other: int :: other in updated ==> after[other] == updated[other];
  }

  // ----- the rewind on values -----

  datatype Move = Move(owner: int, row: Row, held: Payload)

  /** A slot takes part when it is open, bound to a live owner, and its past touches some key. */
  predicate Moves(rows: map<int, Row>, world: World, slot: int) {
    slot in rows && rows[slot].port.Some? && rows[slot].port.value in world && Written(rows[slot]) != map[]
  }

  datatype Stage = Stage(world: World, moves: seq<Move>)

  /** The owners with each slot's past written in order, and what was captured before each write. */
  function Rewound(rows: map<int, Row>, world: World, slots: seq<int>): Stage {
    if slots == [] then Stage(world, [])
    else Moved(rows, Rewound(rows, world, slots[..|slots| - 1]), slots[|slots| - 1])
  }

  function Moved(rows: map<int, Row>, stage: Stage, slot: int): Stage {
    if !Moves(rows, stage.world, slot) then stage
    else
      var row := rows[slot];
      var owner := row.port.value;
      Stage(Set(stage.world, owner, Written(row)), stage.moves + [Move(owner, row, Captured(stage.world, owner, row))])
  }

  lemma RewoundAppend(rows: map<int, Row>, world: World, slots: seq<int>, slot: int)
    ensures Rewound(rows, world, slots + [slot]) == Moved(rows, Rewound(rows, world, slots), slot)
  {
    assert (slots + [slot])[..|slots|] == slots;
  }

  function PutBack(world: World, moves: seq<Move>): World {
    if moves == [] then world
    else Set(PutBack(world, moves[..|moves| - 1]), moves[|moves| - 1].owner, moves[|moves| - 1].held)
  }

  /** Every slot followed by its parts. */
  function WithParts(rows: map<int, Row>, slots: seq<int>): seq<int> {
    if slots == [] then []
    else
      var early, slot := WithParts(rows, slots[..|slots| - 1]), slots[|slots| - 1];
      early + [slot] + if slot in rows then rows[slot].parts else []
  }

  function After(rows: map<int, Row>, world: World, slots: seq<int>, body: World -> World): World {
    var stage := Rewound(rows, world, WithParts(rows, slots));
    PutBack(body(stage.world), stage.moves)
  }

  /** The body sees the past of every listed slot and its parts; what it leaves is put back. */
  method Rewind(rows: map<int, Row>, world: World, slots: seq<int>, body: World -> World)
    returns (after: World, moved: nat, ghost seen: World)
    ensures after == After(rows, world, slots, body)
    ensures seen == Rewound(rows, world, WithParts(rows, slots)).world && ShowsThePast(rows, world, slots, seen)
    ensures moved == MovedCount(rows, world, slots)
  {
    var all: seq<int> := [];
    for at := 0 to |slots|
      invariant all == WithParts(rows, slots[..at])
    {
      assert slots[..at + 1][..at] == slots[..at];
      all := all + [slots[at]];
      if slots[at] in rows {
        all := all + rows[slots[at]].parts;
      }
    }
    assert slots[..|slots|] == slots;
    var stage := MoveAll(rows, world, all);
    seen := stage.world;
    BodySeesThePast(rows, world, slots);
    CountsMoves(rows, world, slots);
    after := body(stage.world);
    after := RestoreAll(after, stage.moves);
    moved := |stage.moves|;
  }

  method MoveAll(rows: map<int, Row>, world: World, slots: seq<int>) returns (stage: Stage)
    ensures stage == Rewound(rows, world, slots)
  {
    stage := Stage(world, []);
    for at := 0 to |slots|
      invariant stage == Rewound(rows, world, slots[..at])
    {
      assert slots[..at + 1][..at] == slots[..at];
      stage := MoveOne(rows, stage, slots[at]);
    }
    assert slots[..|slots|] == slots;
  }

  method MoveOne(rows: map<int, Row>, stage: Stage, slot: int) returns (next: Stage)
    ensures next == Moved(rows, stage, slot)
  {
    hide Set, Get;
    next := stage;
    if slot !in rows || rows[slot].port.None? {
      return;
    }
    var row, owner := rows[slot], rows[slot].port.value;
    if |row.past| == 0 {
      assert Written(row) == map[];
      return;
    }
    var keys := TouchedKeys(row);
    if |keys| == 0 {
      assert Written(row) == map[];
      return;
    }
    assert keys[0] in keys && keys[0] in Written(row);
    var held := Capture(stage.world, owner, keys);
    assert owner in stage.world ==> keys[0] in held;
    if |held| == 0 {
      return;
    }
    assert held == Captured(stage.world, owner, row);
    var written := DeclaredOnly(row);
    var world := Apply(stage.world, owner, written);
    next := Stage(world, stage.moves + [Move(owner, row, held)]);
  }

  method RestoreAll(world: World, moves: seq<Move>) returns (after: World)
    ensures after == PutBack(world, moves)
  {
    after := world;
    for at := 0 to |moves|
      invariant after == PutBack(world, moves[..at])
    {
      assert moves[..at + 1][..at] == moves[..at];
      after := Apply(after, moves[at].owner, moves[at].held);
    }
    assert moves[..|moves|] == moves;
  }

  // ----- what a rewind leaves behind -----

  predicate TouchedBy(move: Move, owner: int, key: string) {
    move.owner == owner && Touches(move.row, key)
  }

  /**
   What the key reads after these moves: the past of the last one that touches it, if the owner has the key at
   all.
   */
  function Seen(world: World, moves: seq<Move>, owner: int, key: string): Variant {
    if moves == [] then Get(world, owner, key)
    else
      var last := moves[|moves| - 1];
      if TouchedBy(last, owner, key) then (if HasKey(world, owner, key) then last.row.past[key] else Nil)
      else Seen(world, moves[..|moves| - 1], owner, key)
  }

  /** Every key a move touches was captured as it read just before that move. */
  ghost predicate Captures(world: World, moves: seq<Move>) {
    forall i, key :: 0 <= i < |moves| && Touches(moves[i].row, key) ==> Caught(world, moves, i, key)
  }

  ghost predicate Caught(world: World, moves: seq<Move>, i: nat, key: string)
    requires i < |moves|
  {
    key in moves[i].held && moves[i].held[key] == Seen(world, moves[..i], moves[i].owner, key)
  }

  ghost predicate SameKeys(a: World, b: World) {
    forall owner: int, key: string :: HasKey(a, owner, key) <==> HasKey(b, owner, key)
  }

  lemma SetReads(world: World, owner: int, payload: Payload, other: int, key: string)
    ensures HasKey(Set(world, owner, payload), other, key) <==> HasKey(world, other, key)
    ensures Get(Set(world, owner, payload), other, key) ==
              if other == owner && key in payload && HasKey(world, other, key) then payload[key]
              else Get(world, other, key)
  {
  }

  ghost predicate HeldExactly(move: Move) {
    forall key :: key in move.held <==> Touches(move.row, key)
  }

  ghost predicate AllHeldExactly(moves: seq<Move>) {
    forall i :: 0 <= i < |moves| ==> HeldExactly(moves[i])
  }

  ghost predicate ReadsSeen(world: World, stage: Stage) {
    && SameKeys(stage.world, world)
    && (forall owner: int, key: string :: Get(stage.world, owner, key) == Seen(world, stage.moves, owner, key))
    && Captures(world, stage.moves)
    && AllHeldExactly(stage.moves)
  }

  lemma SeenAppend(world: World, moves: seq<Move>, move: Move, owner: int, key: string)
    ensures Seen(world, moves + [move], owner, key) ==
              if TouchedBy(move, owner, key) then (if HasKey(world, owner, key) then move.row.past[key] else Nil)
              else Seen(world, moves, owner, key)
  {
    assert (moves + [move])[..|moves|] == moves;
  }

  lemma MoveReads(world: World, stage: Stage, owner: int, row: Row)
    requires ReadsSeen(world, stage)
    ensures ReadsSeen(world,
                      Stage(Set(stage.world, owner, Written(row)),
                            stage.moves + [Move(owner, row, Captured(stage.world, owner, row))]))
  {
    hide Set, Get, HasKey, Seen;
    var move := Move(owner, row, Captured(stage.world, owner, row));
    var moves := stage.moves + [move];
    var after := Set(stage.world, owner, Written(row));
    forall o: int, key: string
      ensures HasKey(after, o, key) <==> HasKey(world, o, key)
      ensures Get(after, o, key) == Seen(world, moves, o, key)
    {
      SetReads(stage.world, owner, Written(row), o, key);
      SeenAppend(world, stage.moves, move, o, key);
      NilWithoutKey(stage.world, o, key);
      assert Get(stage.world, o, key) == Seen(world, stage.moves, o, key);
      assert HasKey(stage.world, o, key) <==> HasKey(world, o, key);
    }
    forall i, key | 0 <= i < |moves| && Touches(moves[i].row, key)
      ensures Caught(world, moves, i, key)
    {
      assert moves[..i] == stage.moves[..i];
      if i < |stage.moves| {
        assert Caught(world, stage.moves, i, key);
      } else {
        assert stage.moves[..i] == stage.moves;
      }
    }
    assert HeldExactly(move);
  }

  /** While the body runs every touched key reads as the past, and the rest as before. */
  lemma {:induction false} RewoundReadsThePast(rows: map<int, Row>, world: World, slots: seq<int>)
    ensures ReadsSeen(world, Rewound(rows, world, slots))
  {
    if slots == [] {
    } else {
      hide Set, ReadsSeen, Captured, Written;
      var before, slot := Rewound(rows, world, slots[..|slots| - 1]), slots[|slots| - 1];
      RewoundReadsThePast(rows, world, slots[..|slots| - 1]);
      if Moves(rows, before.world, slot) {
        MoveReads(world, before, rows[slot].port.value, rows[slot]);
      }
    }
  }

  lemma NilWithoutKey(world: World, owner: int, key: string)
    ensures !HasKey(world, owner, key) ==> Get(world, owner, key) == Nil
  {
  }

  /** The last move that touches the key, or the number of moves. */
  function LastTouch(moves: seq<Move>, owner: int, key: string): (at: nat)
    ensures at <= |moves|
    ensures at < |moves| ==> TouchedBy(moves[at], owner, key)
    ensures forall i :: 0 <= i < |moves| && (i > at || at == |moves|) ==> !TouchedBy(moves[i], owner, key)
  {
    if moves == [] then 0
    else
      var n := |moves| - 1;
      if TouchedBy(moves[n], owner, key) then n
      else
        var at := LastTouch(moves[..n], owner, key);
        if at == n then |moves| else at
  }

  /** Putting back leaves each touched key as its last move captured it, and every other key alone. */
  lemma {:induction false} PutBackReads(world: World, moves: seq<Move>, owner: int, key: string)
    requires AllHeldExactly(moves)
    ensures HasKey(PutBack(world, moves), owner, key) <==> HasKey(world, owner, key)
    ensures var at := LastTouch(moves, owner, key);
            Get(PutBack(world, moves), owner, key) ==
              if at < |moves| && HasKey(world, owner, key) then moves[at].held[key] else Get(world, owner, key)
  {
    hide Set, Get, HasKey, Touches;
    if moves == [] {
    } else {
      var n := |moves| - 1;
      PutBackReads(world, moves[..n], owner, key);
      SetReads(PutBack(world, moves[..n]), moves[n].owner, moves[n].held, owner, key);
    }
  }

  /**
   What any rewind leaves, whatever its slots, owners and body: a key no row touches is as the body left
   it, and a touched key is as the last row that touches it found it.
   */
  lemma RewindLeaves(rows: map<int, Row>, world: World, slots: seq<int>, body: World -> World, owner: int, key: string)
    requires var seen := Rewound(rows, world, WithParts(rows, slots)).world;
             HasKey(body(seen), owner, key) <==> HasKey(seen, owner, key)
    ensures var stage := Rewound(rows, world, WithParts(rows, slots));
            var at := LastTouch(stage.moves, owner, key);
            Get(After(rows, world, slots, body), owner, key) ==
              if at == |stage.moves| then Get(body(stage.world), owner, key)
              else Seen(world, stage.moves[..at], owner, key)
  {
    hide Get, HasKey, Touches, WithParts, Rewound, PutBack;
    var all := WithParts(rows, slots);
    var stage := Rewound(rows, world, all);
    RewoundReadsThePast(rows, world, all);
    PutBackReads(body(stage.world), stage.moves, owner, key);
    var at := LastTouch(stage.moves, owner, key);
    if at < |stage.moves| {
      assert Caught(world, stage.moves, at, key);
      if !HasKey(world, owner, key) {
        NilWithoutKey(body(stage.world), owner, key);
        NilIsSeen(world, stage.moves[..at], owner, key);
      }
    }
  }

  lemma {:induction false} NilIsSeen(world: World, moves: seq<Move>, owner: int, key: string)
    requires !HasKey(world, owner, key)
    ensures Seen(world, moves, owner, key) == Nil
  {
    if moves == [] {
    } else {
      NilIsSeen(world, moves[..|moves| - 1], owner, key);
    }
  }

  // ----- the same over rows and slots -----

  /** Whether moving this slot writes the owner's key, which can be read off the rows before the rewind. */
  predicate SlotTouches(rows: map<int, Row>, world: World, slot: int, owner: int, key: string) {
    && slot in rows && rows[slot].port == Some(owner) && owner in world
    && key in rows[slot].past && (rows[slot].declared == [] || key in rows[slot].declared)
  }

  /** The last slot that touches the key, or the number of slots. */
  function LastSlot(rows: map<int, Row>, world: World, slots: seq<int>, owner: int, key: string): (at: nat)
    ensures at <= |slots|
    ensures at < |slots| ==> SlotTouches(rows, world, slots[at], owner, key)
    ensures forall i ::
              0 <= i < |slots| && (i > at || at == |slots|) ==> !SlotTouches(rows, world, slots[i], owner, key)
  {
    if slots == [] then 0
    else
      var n := |slots| - 1;
      if SlotTouches(rows, world, slots[n], owner, key) then n
      else
        var at := LastSlot(rows, world, slots[..n], owner, key);
        if at == n then |slots| else at
  }

  /** What the key reads once these slots have been moved: the past of the last that touches it. */
  function SlotSeen(rows: map<int, Row>, world: World, slots: seq<int>, owner: int, key: string): Variant {
    var at := LastSlot(rows, world, slots, owner, key);
    if at == |slots| then Get(world, owner, key)
    else if HasKey(world, owner, key) then rows[slots[at]].past[key]
    else Nil
  }

  lemma {:induction false} RewoundKeepsOwners(rows: map<int, Row>, world: World, slots: seq<int>)
    ensures Rewound(rows, world, slots).world.Keys == world.Keys
  {
    if slots == [] {
    } else {
      RewoundKeepsOwners(rows, world, slots[..|slots| - 1]);
    }
  }

  /**
   One slot adds a move of its row that touches the key if the slot does, and otherwise one that does not, or
   none.
   */
  predicate MovedBy(rows: map<int, Row>, world: World, slot: int, moves: seq<Move>, after: seq<Move>, owner: int,
                    key: string)
  {
    var n := |moves|;
    if SlotTouches(rows, world, slot, owner, key) then
      |after| == n + 1 && after[..n] == moves && TouchedBy(after[n], owner, key) && after[n].row == rows[slot]
    else
      after == moves || (|after| == n + 1 && after[..n] == moves && !TouchedBy(after[n], owner, key))
  }

  /** A slot moves and its move touches the key exactly when the slot does. */
  lemma MovedTouches(rows: map<int, Row>, world: World, stage: Stage, slot: int, owner: int, key: string)
    requires stage.world.Keys == world.Keys
    ensures MovedBy(rows, world, slot, stage.moves, Moved(rows, stage, slot).moves, owner, key)
  {
    hide Set, Captured, HasKey, Get;
    assert owner in stage.world <==> owner in world.Keys;
    if SlotTouches(rows, world, slot, owner, key) {
      assert key in Written(rows[slot]);
    }
  }

  lemma LastTouchAppend(moves: seq<Move>, move: Move, owner: int, key: string)
    ensures LastTouch(moves + [move], owner, key) ==
              if TouchedBy(move, owner, key) then |moves|
              else var at := LastTouch(moves, owner, key); if at == |moves| then |moves| + 1 else at
  {
    assert (moves + [move])[..|moves|] == moves;
  }

  /** Where the slots say the key was touched last and what it read, and where the moves do, agree. */
  ghost predicate SlotsAgree(rows: map<int, Row>, world: World, slots: seq<int>, moves: seq<Move>, owner: int,
                             key: string) {
    var i, at := LastSlot(rows, world, slots, owner, key), LastTouch(moves, owner, key);
    && Seen(world, moves, owner, key) == SlotSeen(rows, world, slots, owner, key)
    && (i == |slots| <==> at == |moves|)
    && (at < |moves| ==> Seen(world, moves[..at], owner, key) == SlotSeen(rows, world, slots[..i], owner, key))
  }

  lemma SlotsAgreeStep(rows: map<int, Row>, world: World, slots: seq<int>, slot: int, moves: seq<Move>,
                       after: seq<Move>, owner: int, key: string)
    requires SlotsAgree(rows, world, slots, moves, owner, key)
    requires MovedBy(rows, world, slot, moves, after, owner, key)
    ensures SlotsAgree(rows, world, slots + [slot], after, owner, key)
  {
    hide Get, HasKey, Touches;
    var all := slots + [slot];
    assert all[..|slots|] == slots;
    if after != moves {
      assert after == moves + [after[|moves|]];
      SeenAppend(world, moves, after[|moves|], owner, key);
      LastTouchAppend(moves, after[|moves|], owner, key);
    }
    var i, at := LastSlot(rows, world, slots, owner, key), LastTouch(moves, owner, key);
    assert i < |slots| ==> all[..i] == slots[..i];
    assert at < |moves| ==> after[..at] == moves[..at];
  }

  lemma {:induction false} SlotsAndMovesAgree(rows: map<int, Row>, world: World, slots: seq<int>, owner: int,
                                              key: string)
    ensures SlotsAgree(rows, world, slots, Rewound(rows, world, slots).moves, owner, key)
  {
    if slots == [] {
    } else {
      hide Rewound, Moved, SlotsAgree, SlotTouches, TouchedBy;
      var early, slot := slots[..|slots| - 1], slots[|slots| - 1];
      assert slots == early + [slot];
      SlotsAndMovesAgree(rows, world, early, owner, key);
      RewoundKeepsOwners(rows, world, early);
      RewoundAppend(rows, world, early, slot);
      MovedTouches(rows, world, Rewound(rows, world, early), slot, owner, key);
      SlotsAgreeStep(rows, world, early, slot, Rewound(rows, world, early).moves, Rewound(rows, world, slots).moves,
                     owner, key);
    }
  }

  // ----- the same over the slots listed and their parts -----

  /** Occurrence `j` of listed slot `i`: the slot itself for 0, then its parts in order. */
  predicate Occurs(rows: map<int, Row>, slots: seq<int>, i: int, j: int) {
    0 <= i < |slots| && 0 <= j && (j == 0 || (slots[i] in rows && j <= |rows[slots[i]].parts|))
  }

  function SlotAt(rows: map<int, Row>, slots: seq<int>, i: int, j: int): int
    requires Occurs(rows, slots, i, j)
  {
    if j == 0 then slots[i] else rows[slots[i]].parts[j - 1]
  }

  /** A slot listed later, or a later part of the same slot. */
  predicate Later(i: int, j: int, than: int, thanJ: int) {
    i > than || (i == than && j > thanJ)
  }

  /** The occurrence touches the key and no later one does. */
  ghost predicate LastToTouch(rows: map<int, Row>, world: World, slots: seq<int>, i: int, j: int, owner: int,
                              key: string)
  {
    && Occurs(rows, slots, i, j) && SlotTouches(rows, world, SlotAt(rows, slots, i, j), owner, key)
    && forall i2, j2 :: Later(i2, j2, i, j) && Occurs(rows, slots, i2, j2) ==>
                          !SlotTouches(rows, world, SlotAt(rows, slots, i2, j2), owner, key)
  }

  /** No listed slot and no part of one touches the key. */
  ghost predicate Untouched(rows: map<int, Row>, world: World, slots: seq<int>, owner: int, key: string) {
    forall i, j :: Occurs(rows, slots, i, j) ==> !SlotTouches(rows, world, SlotAt(rows, slots, i, j), owner, key)
  }

  /**
   What a world shows when the past of every listed slot, and after it of each of its parts, has been written
   over `world` in order: the past of the last that touches a key, and what was there of every other key.
   */
  ghost predicate ShowsThePast(rows: map<int, Row>, world: World, slots: seq<int>, seen: World) {
    && SameKeys(world, seen)
    && (forall i, j, owner, key :: LastToTouch(rows, world, slots, i, j, owner, key) && HasKey(world, owner, key) ==>
          Get(seen, owner, key) == rows[SlotAt(rows, slots, i, j)].past[key])
    && (forall owner, key ::
          Untouched(rows, world, slots, owner, key) ==> Get(seen, owner, key) == Get(world, owner, key))
  }

  /** Which occurrence the `k`-th of the slots with parts is. */
  function OccurrenceOf(rows: map<int, Row>, slots: seq<int>, k: nat): (at: (int, int))
    requires k < |WithParts(rows, slots)|
    ensures Occurs(rows, slots, at.0, at.1) && SlotAt(rows, slots, at.0, at.1) == WithParts(rows, slots)[k]
  {
    var n := |slots| - 1;
    var early := WithParts(rows, slots[..n]);
    if k < |early| then OccurrenceOf(rows, slots[..n], k) else (n, k - |early|)
  }

  lemma {:induction false} OccurrencesAscend(rows: map<int, Row>, slots: seq<int>, k: nat, m: nat)
    requires k < m < |WithParts(rows, slots)|
    ensures var a, b := OccurrenceOf(rows, slots, k), OccurrenceOf(rows, slots, m); Later(b.0, b.1, a.0, a.1)
  {
    var n := |slots| - 1;
    if m < |WithParts(rows, slots[..n])| {
      OccurrencesAscend(rows, slots[..n], k, m);
    }
  }

  lemma {:induction false} PlaceOf(rows: map<int, Row>, slots: seq<int>, i: int, j: int) returns (k: nat)
    requires Occurs(rows, slots, i, j)
    ensures k < |WithParts(rows, slots)| && OccurrenceOf(rows, slots, k) == (i, j)
  {
    var n := |slots| - 1;
    if i < n {
      k := PlaceOf(rows, slots[..n], i, j);
    } else {
      k := |WithParts(rows, slots[..n])| + j;
    }
  }

  /** Each occurrence is one place of the list with parts, so the last to touch a key is the same in both. */
  lemma LastIsLast(rows: map<int, Row>, world: World, slots: seq<int>, i: int, j: int, owner: int, key: string)
    requires LastToTouch(rows, world, slots, i, j, owner, key)
    ensures var all, last := WithParts(rows, slots), LastSlot(rows, world, WithParts(rows, slots), owner, key);
            last < |all| && OccurrenceOf(rows, slots, last) == (i, j)
  {
    hide WithParts, OccurrenceOf, SlotTouches, LastSlot;
    var all, last := WithParts(rows, slots), LastSlot(rows, world, WithParts(rows, slots), owner, key);
    var k := PlaceOf(rows, slots, i, j);
    assert SlotTouches(rows, world, all[k], owner, key);
    if k < last < |all| {
      OccurrencesAscend(rows, slots, k, last);
    }
  }

  lemma UntouchedIsNone(rows: map<int, Row>, world: World, slots: seq<int>, owner: int, key: string)
    requires Untouched(rows, world, slots, owner, key)
    ensures LastSlot(rows, world, WithParts(rows, slots), owner, key) == |WithParts(rows, slots)|
  {
    hide WithParts, OccurrenceOf, SlotTouches, LastSlot;
    var all := WithParts(rows, slots);
    forall k | 0 <= k < |all|
      ensures !SlotTouches(rows, world, all[k], owner, key)
    {
      var at := OccurrenceOf(rows, slots, k);
    }
  }

  /** The body of a rewind sees the past of the listed slots and their parts. */
  lemma BodySeesThePast(rows: map<int, Row>, world: World, slots: seq<int>)
    ensures ShowsThePast(rows, world, slots, Rewound(rows, world, WithParts(rows, slots)).world)
  {
    hide WithParts, Rewound, LastSlot, Get, Untouched, OccurrenceOf;
    var all := WithParts(rows, slots);
    var stage := Rewound(rows, world, all);
    RewoundReadsThePast(rows, world, all);
    forall i, j, owner, key | LastToTouch(rows, world, slots, i, j, owner, key) && HasKey(world, owner, key)
      ensures Get(stage.world, owner, key) == rows[SlotAt(rows, slots, i, j)].past[key]
    {
      LastIsLast(rows, world, slots, i, j, owner, key);
      SlotsAndMovesAgree(rows, world, all, owner, key);
    }
    forall owner, key | Untouched(rows, world, slots, owner, key)
      ensures Get(stage.world, owner, key) == Get(world, owner, key)
    {
      UntouchedIsNone(rows, world, slots, owner, key);
      SlotsAndMovesAgree(rows, world, all, owner, key);
    }
  }

  /** The slot is open and bound to an owner there is, and its past holds a key it may write. */
  predicate Moving(rows: map<int, Row>, world: World, slot: int) {
    && slot in rows && rows[slot].port.Some? && rows[slot].port.value in world
    && exists key :: key in rows[slot].past && (rows[slot].declared == [] || key in rows[slot].declared)
  }

  function CountMoving(rows: map<int, Row>, world: World, slots: seq<int>): nat {
    if slots == [] then 0
    else CountMoving(rows, world, slots[..|slots| - 1]) + if Moving(rows, world, slots[|slots| - 1]) then 1 else 0
  }

  /** How many of the listed slots, and of the parts of each, are moved. */
  function MovedCount(rows: map<int, Row>, world: World, slots: seq<int>): nat {
    if slots == [] then 0
    else
      var n := |slots| - 1;
      MovedCount(rows, world, slots[..n]) + (if Moving(rows, world, slots[n]) then 1 else 0)
        + if slots[n] in rows then CountMoving(rows, world, rows[slots[n]].parts) else 0
  }

  lemma {:induction false} CountConcat(rows: map<int, Row>, world: World, a: seq<int>, b: seq<int>)
    ensures CountMoving(rows, world, a + b) == CountMoving(rows, world, a) + CountMoving(rows, world, b)
  {
    if b == [] {
      assert a + b == a;
    } else {
      CountConcat(rows, world, a, b[..|b| - 1]);
      assert (a + b)[..|a + b| - 1] == a + b[..|b| - 1];
    }
  }

  lemma {:induction false} MovesAreMoving(rows: map<int, Row>, world: World, slots: seq<int>)
    ensures |Rewound(rows, world, slots).moves| == CountMoving(rows, world, slots)
  {
    if slots == [] {
    } else {
      var early, slot := slots[..|slots| - 1], slots[|slots| - 1];
      MovesAreMoving(rows, world, early);
      RewoundKeepsOwners(rows, world, early);
      MovesIffMoving(rows, world, Rewound(rows, world, early).world, slot);
    }
  }

  lemma MovesIffMoving(rows: map<int, Row>, world: World, now: World, slot: int)
    requires now.Keys == world.Keys
    ensures Moves(rows, now, slot) <==> Moving(rows, world, slot)
  {
    if slot in rows && rows[slot].port.Some? {
      assert rows[slot].port.value in now.Keys <==> rows[slot].port.value in world.Keys;
      if key :| key in rows[slot].past && (rows[slot].declared == [] || key in rows[slot].declared) {
        assert key in Written(rows[slot]);
      } else {
        assert Written(rows[slot]) == map[];
      }
    }
  }

  lemma {:induction false} CountsWithParts(rows: map<int, Row>, world: World, slots: seq<int>)
    ensures CountMoving(rows, world, WithParts(rows, slots)) == MovedCount(rows, world, slots)
  {
    if slots == [] {
    } else {
      hide Moving;
      var early, slot := slots[..|slots| - 1], slots[|slots| - 1];
      var parts := if slot in rows then rows[slot].parts else [];
      CountsWithParts(rows, world, early);
      assert WithParts(rows, slots) == WithParts(rows, early) + [slot] + parts;
      CountConcat(rows, world, WithParts(rows, early) + [slot], parts);
      CountConcat(rows, world, WithParts(rows, early), [slot]);
      assert [slot][..0] == [];
    }
  }

  lemma {:induction false} MoveHasSlot(rows: map<int, Row>, world: World, all: seq<int>, m: nat) returns (k: nat)
    requires m < |Rewound(rows, world, all).moves|
    ensures var move := Rewound(rows, world, all).moves[m];
            k < |all| && all[k] in rows && move.row == rows[all[k]] && rows[all[k]].port == Some(move.owner)
  {
    var n := |all| - 1;
    if m < |Rewound(rows, world, all[..n]).moves| {
      k := MoveHasSlot(rows, world, all[..n], m);
    } else {
      k := n;
    }
  }

  /** Every move is a listed slot's or a part of one's, and of the owner it is bound to. */
  lemma MovesBelong(rows: map<int, Row>, world: World, slots: seq<int>, m: nat) returns (i: int, j: int)
    requires m < |Rewound(rows, world, WithParts(rows, slots)).moves|
    ensures var move := Rewound(rows, world, WithParts(rows, slots)).moves[m];
            && Occurs(rows, slots, i, j) && SlotAt(rows, slots, i, j) in rows
            && move.row == rows[SlotAt(rows, slots, i, j)] && move.row.port == Some(move.owner)
  {
    hide Rewound, WithParts;
    var k := MoveHasSlot(rows, world, WithParts(rows, slots), m);
    var at := OccurrenceOf(rows, slots, k);
    i, j := at.0, at.1;
  }

  /** As many moves are made as listed slots and parts take part. */
  lemma CountsMoves(rows: map<int, Row>, world: World, slots: seq<int>)
    ensures |Rewound(rows, world, WithParts(rows, slots)).moves| == MovedCount(rows, world, slots)
  {
    MovesAreMoving(rows, world, WithParts(rows, slots));
    CountsWithParts(rows, world, slots);
  }

  /** The body neither adds nor removes the owner's key. */
  ghost predicate KeepsKey(rows: map<int, Row>, world: World, slots: seq<int>, body: World -> World, owner: int,
                           key: string) {
    var seen := Rewound(rows, world, WithParts(rows, slots)).world;
    HasKey(body(seen), owner, key) <==> HasKey(seen, owner, key)
  }

  /**
   When a touched key is restored, for any rows, slots, parts and body: exactly when the owner lacks the
   key, or the slot that touches it last is the only one that does, or the one that touches it just
   before that has the value the owner held as its past.
   */
  lemma RestoredIff(rows: map<int, Row>, world: World, slots: seq<int>, body: World -> World, owner: int, key: string)
    requires KeepsKey(rows, world, slots, body, owner, key)
    requires LastSlot(rows, world, WithParts(rows, slots), owner, key) < |WithParts(rows, slots)|
    ensures var all := WithParts(rows, slots);
            var last := LastSlot(rows, world, all, owner, key);
            var before := LastSlot(rows, world, all[..last], owner, key);
            Get(After(rows, world, slots, body), owner, key) == Get(world, owner, key) <==>
              !HasKey(world, owner, key) || before == last || rows[all[before]].past[key] == Get(world, owner, key)
  {
    hide Get, HasKey, After, Rewound, WithParts, LastSlot, SlotTouches, Touches;
    RewindLeaves(rows, world, slots, body, owner, key);
    SlotsAndMovesAgree(rows, world, WithParts(rows, slots), owner, key);
    NilWithoutKey(world, owner, key);
  }

  /** The occurrence touches the key, before the given one, and none between them does. */
  ghost predicate TouchesJustBefore(rows: map<int, Row>, world: World, slots: seq<int>, i: int, j: int, i2: int,
                                    j2: int,
                                    owner: int, key: string)
  {
    && Occurs(rows, slots, i2, j2) && Later(i, j, i2, j2)
    && SlotTouches(rows, world, SlotAt(rows, slots, i2, j2), owner, key)
    && forall i3, j3 :: Later(i3, j3, i2, j2) && Later(i, j, i3, j3) && Occurs(rows, slots, i3, j3) ==>
                          !SlotTouches(rows, world, SlotAt(rows, slots, i3, j3), owner, key)
  }

  lemma JustBeforeIsLastBefore(rows: map<int, Row>, world: World, slots: seq<int>, last: nat, i2: int, j2: int,
                               owner: int,
                               key: string)
    requires last < |WithParts(rows, slots)|
    requires var at := OccurrenceOf(rows, slots, last);
             TouchesJustBefore(rows, world, slots, at.0, at.1, i2, j2, owner, key)
    ensures var all := WithParts(rows, slots);
            var before := LastSlot(rows, world, all[..last], owner, key);
            before < last && OccurrenceOf(rows, slots, before) == (i2, j2)
  {
    hide WithParts, OccurrenceOf, SlotTouches, LastSlot;
    var all, at := WithParts(rows, slots), OccurrenceOf(rows, slots, last);
    var before := LastSlot(rows, world, all[..last], owner, key);
    var k := PlaceOf(rows, slots, i2, j2);
    if k > last {
      OccurrencesAscend(rows, slots, last, k);
    }
    assert k < last && SlotTouches(rows, world, all[..last][k], owner, key);
    forall m | k < m < last
      ensures !SlotTouches(rows, world, all[..last][m], owner, key)
    {
      OccurrencesAscend(rows, slots, k, m);
      OccurrencesAscend(rows, slots, m, last);
      var b := OccurrenceOf(rows, slots, m);
    }
  }

  /**
   The same over the slots listed and their parts: when two occurrences or more touch a key the owner has,
   it is restored if and only if the one just before the last has the value the owner held as its past.
   */
  lemma SharedKeyRestoredIff(rows: map<int, Row>, world: World, slots: seq<int>, body: World -> World, i: int, j: int,
                             i2: int, j2: int, owner: int, key: string)
    requires KeepsKey(rows, world, slots, body, owner, key) && HasKey(world, owner, key)
    requires LastToTouch(rows, world, slots, i, j, owner, key)
    requires TouchesJustBefore(rows, world, slots, i, j, i2, j2, owner, key)
    ensures Get(After(rows, world, slots, body), owner, key) == Get(world, owner, key) <==>
              rows[SlotAt(rows, slots, i2, j2)].past[key] == Get(world, owner, key)
  {
    hide Get, HasKey, After, Rewound, WithParts, LastSlot, OccurrenceOf;
    var last := LastSlot(rows, world, WithParts(rows, slots), owner, key);
    LastIsLast(rows, world, slots, i, j, owner, key);
    JustBeforeIsLastBefore(rows, world, slots, last, i2, j2, owner, key);
    RestoredIff(rows, world, slots, body, owner, key);
  }

  /** A key that no occurrence touches is as the body left it. */
  lemma UntouchedKeyStays(rows: map<int, Row>, world: World, slots: seq<int>, body: World -> World, owner: int,
                          key: string)
    requires KeepsKey(rows, world, slots, body, owner, key) && Untouched(rows, world, slots, owner, key)
    ensures var seen := Rewound(rows, world, WithParts(rows, slots)).world;
            Get(After(rows, world, slots, body), owner, key) == Get(body(seen), owner, key)
  {
    hide Get, HasKey, After, Rewound, WithParts, LastSlot, Untouched;
    UntouchedIsNone(rows, world, slots, owner, key);
    SlotsAndMovesAgree(rows, world, WithParts(rows, slots), owner, key);
    RewindLeaves(rows, world, slots, body, owner, key);
  }

  /** A key that one occurrence alone touches is restored, whatever the body writes to it. */
  lemma LoneKeyRestored(rows: map<int, Row>, world: World, slots: seq<int>, body: World -> World, i: int, j: int,
                        owner: int, key: string)
    requires KeepsKey(rows, world, slots, body, owner, key) && LastToTouch(rows, world, slots, i, j, owner, key)
    requires forall i2, j2 :: Later(i, j, i2, j2) && Occurs(rows, slots, i2, j2) ==>
                                !SlotTouches(rows, world, SlotAt(rows, slots, i2, j2), owner, key)
    ensures Get(After(rows, world, slots, body), owner, key) == Get(world, owner, key)
  {
    hide Get, HasKey, After, Rewound, WithParts, LastSlot, OccurrenceOf, SlotTouches;
    var all, last := WithParts(rows, slots), LastSlot(rows, world, WithParts(rows, slots), owner, key);
    LastIsLast(rows, world, slots, i, j, owner, key);
    forall m | 0 <= m < last
      ensures !SlotTouches(rows, world, all[..last][m], owner, key)
    {
      OccurrencesAscend(rows, slots, m, last);
      var b := OccurrenceOf(rows, slots, m);
    }
    RestoredIff(rows, world, slots, body, owner, key);
  }

  /** No two of these slots touch the same key of the same owner. */
  ghost predicate TouchApart(rows: map<int, Row>, world: World, slots: seq<int>, owner: int, key: string) {
    forall i, j ::
        0 <= i < j < |slots| && SlotTouches(rows, world, slots[i], owner, key) ==>
              !SlotTouches(rows, world, slots[j], owner, key)
  }

  lemma TouchedOnce(rows: map<int, Row>, world: World, slots: seq<int>, owner: int, key: string)
    requires TouchApart(rows, world, slots, owner, key)
    ensures var last := LastSlot(rows, world, slots, owner, key);
            LastSlot(rows, world, slots[..last], owner, key) == last
  {
    hide SlotTouches;
  }

  /**
   A key that one of the slots and parts touches, and no other, ends at its value before the rewind,
   even when other slots are bound to the same owner.
   */
  lemma RewindRestores(rows: map<int, Row>, world: World, slots: seq<int>, body: World -> World, owner: int,
                       key: string)
    requires KeepsKey(rows, world, slots, body, owner, key)
    requires TouchApart(rows, world, WithParts(rows, slots), owner, key)
    requires LastSlot(rows, world, WithParts(rows, slots), owner, key) < |WithParts(rows, slots)|
    ensures Get(After(rows, world, slots, body), owner, key) == Get(world, owner, key)
  {
    hide Get, HasKey, After, Rewound, WithParts, SlotTouches;
    RestoredIff(rows, world, slots, body, owner, key);
    TouchedOnce(rows, world, WithParts(rows, slots), owner, key);
  }

  /** The owners the slots and their parts are bound to differ, slot by slot. */
  ghost predicate BoundApart(rows: map<int, Row>, slots: seq<int>) {
    forall i, j :: 0 <= i < j < |slots| && slots[i] in rows && slots[j] in rows && rows[slots[i]].port.Some? ==>
                     rows[slots[i]].port != rows[slots[j]].port
  }

  /** Distinct slots with distinct bound owners, parts included, never touch the same key of the same owner. */
  lemma BoundApartTouchApart(rows: map<int, Row>, world: World, slots: seq<int>, owner: int, key: string)
    requires BoundApart(rows, slots)
    ensures TouchApart(rows, world, slots, owner, key)
  {
  }

  /**
   A slot named twice, as the last two that touch the key, among whatever other slots and parts: the key
   is restored exactly when it held the slot's past already.
   */
  lemma RepeatedSlotRestoredIff(rows: map<int, Row>, world: World, slots: seq<int>, body: World -> World, owner: int,
                                key: string)
    requires KeepsKey(rows, world, slots, body, owner, key) && HasKey(world, owner, key)
    requires var all := WithParts(rows, slots);
             var last := LastSlot(rows, world, all, owner, key);
             && last < |all|
             && LastSlot(rows, world, all[..last], owner, key) < last
             && all[LastSlot(rows, world, all[..last], owner, key)] == all[last]
    ensures var all := WithParts(rows, slots);
            var past := rows[all[LastSlot(rows, world, all, owner, key)]].past[key];
            Get(After(rows, world, slots, body), owner, key) == Get(world, owner, key) <==>
                  past == Get(world, owner, key)
  {
    hide Get, After, Rewound, WithParts, LastSlot, SlotTouches;
    RestoredIff(rows, world, slots, body, owner, key);
  }

  /** One slot without parts, named twice, is an instance: its owner is left at the past. */
  lemma RepeatedSlotKeepsThePast()
    ensures var rows := map[0 := Row(Some(7), map["x" := Integer(1)], [], [])];
            var world := map[7 := map["x" := Integer(2)]];
            Get(After(rows, world, [0, 0], w => w), 7, "x") != Get(world, 7, "x")
  {
    var rows := map[0 := Row(Some(7), map["x" := Integer(1)], [], [])];
    var world := map[7 := map["x" := Integer(2)]];
    assert [0, 0][..1] == [0] && [0][..0] == [];
    assert WithParts(rows, [0]) == [] + [0] + [] == [0];
    assert WithParts(rows, [0, 0]) == [0] + [0] + [] == [0, 0];
    assert SlotTouches(rows, world, 0, 7, "x");
    RestoredIff(rows, world, [0, 0], w => w, 7, "x");
  }
}
