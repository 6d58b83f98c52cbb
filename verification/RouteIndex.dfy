/**
 The liveness core's route index and entity records, on values: binding and unbinding routes, the
 state machine of a record with its tombstone, and the two epochs.
 */
module RouteIndex {
  import opened Wrappers

  /** An entity handle; 0 is the invalid one, which is also what an unbound route answers. */
  type Rid = nat

  datatype State = Unknown | Live | Lingering | Dead | Absent

  datatype Record = Record(route: int, state: State, epoch: int, wireEpoch: int, anchor: nat, anchorAuthor: nat)

  datatype Index = Index(records: map<Rid, Record>, byRoute: map<int, Rid>)

  const EMPTY := Index(map[], map[])
  const NEW_RECORD := Record(0, Unknown, 0, -1, 1, 0)

  function RankOf(state: State): int {
    match state
    case Unknown => 0
    case Live => 1
    case Lingering => 2
    case Dead => 3
    case Absent => 1
  }

  function RidFromRoute(index: Index, route: int): Rid {
    if route in index.byRoute then index.byRoute[route] else 0
  }

  function RouteState(index: Index, route: int): State {
    var e := RidFromRoute(index, route);
    if e in index.records then index.records[e].state else Unknown
  }

  /** A record for a handle the core did not hold yet; a handle it holds keeps its record. */
  function Ensured(index: Index, e: Rid): Index {
    if e in index.records then index else index.(records := index.records[e := NEW_RECORD])
  }

  /** The record a bind leaves: a tombstoned one starts over under the next epoch. */
  function BoundRecord(record: Record, route: int): Record {
    if record.state == Dead
    then record.(route := route, state := Live, epoch := record.epoch + 1, anchor := 1, anchorAuthor := 0)
    else record.(route := route, state := Live)
  }

  predicate CanBind(index: Index, e: Rid, route: int) {
    && route > 0 && e in index.records
    && (RidFromRoute(index, route) == 0 || RidFromRoute(index, route) == e)
  }

  /** The index without the route a record held, if the index names the entity there. */
  function Released(byRoute: map<int, Rid>, e: Rid, route: int): map<int, Rid> {
    if route in byRoute && byRoute[route] == e then byRoute - {route} else byRoute
  }

  function BindRoute(index: Index, e: Rid, route: int): Index {
    if !CanBind(index, e, route) then index
    else
      var record := index.records[e];
      var byRoute := if record.route > 0 && record.route != route then Released(index.byRoute, e, record.route)
                     else index.byRoute;
      Index(index.records[e := BoundRecord(record, route)], byRoute[route := e])
  }

  predicate CanUnbind(index: Index, e: Rid) {
    e in index.records && index.records[e].route > 0
  }

  function UnbindRoute(index: Index, e: Rid): Index {
    if !CanUnbind(index, e) then index
    else
      var record := index.records[e];
      Index(index.records[e := record.(route := 0)], Released(index.byRoute, e, record.route))
  }

  predicate CanSet(index: Index, e: Rid, state: State) {
    state != Absent && e in index.records && RankOf(index.records[e].state) < RankOf(state)
  }

  function SetState(index: Index, e: Rid, state: State): Index {
    if CanSet(index, e, state) then index.(records := index.records[e := index.records[e].(state := state)]) else index
  }

  predicate CanHide(index: Index, route: int) {
    var e := RidFromRoute(index, route);
    e in index.records && index.records[e].state == Live
  }

  function HideRoute(index: Index, route: int): Index {
    if !CanHide(index, route) then index
    else
      var e := RidFromRoute(index, route);
      index.(records := index.records[e := index.records[e].(state := Absent)])
  }

  predicate CanAdopt(index: Index, route: int, epoch: int) {
    var e := RidFromRoute(index, route);
    e in index.records && epoch >= index.records[e].wireEpoch
  }

  function AdoptEpoch(index: Index, route: int, epoch: int): Index {
    if !CanAdopt(index, route, epoch) then index
    else
      var e := RidFromRoute(index, route);
      index.(records := index.records[e := index.records[e].(wireEpoch := epoch)])
  }

  function RaiseEpochToWire(index: Index, route: int): Index {
    var e := RidFromRoute(index, route);
    if e in index.records && index.records[e].wireEpoch > index.records[e].epoch then
      index.(records := index.records[e := index.records[e].(epoch := index.records[e].wireEpoch)])
    else index
  }

  function FollowWireEpoch(index: Index, route: int): Index {
    var e := RidFromRoute(index, route);
    if e in index.records && index.records[e].wireEpoch >= 0 then
      index.(records := index.records[e := index.records[e].(epoch := index.records[e].wireEpoch)])
    else index
  }

  function SetRouteAnchor(index: Index, route: int, anchor: nat, author: nat): Index {
    var e := RidFromRoute(index, route);
    if e in index.records && anchor != 0 then
      index.(records := index.records[e := index.records[e].(anchor := anchor, anchorAuthor := author)])
    else index
  }

  // ----- runs -----

  datatype Op =
    | Create(entity: Rid)
    | Bind(entity: Rid, route: int)
    | Unbind(entity: Rid)
    | Set(entity: Rid, state: State)
    | Hide(route: int)
    | Adopt(route: int, epoch: int)
    | RaiseToWire(route: int)
    | FollowWire(route: int)
    | Anchor(route: int, anchor: nat, author: nat)
    | Clear

  /** Handles come from elsewhere; none is the invalid one. */
  predicate Proper(op: Op) {
    op.Create? ==> op.entity != 0
  }

  function Apply(index: Index, op: Op): Index {
    match op
    case Create(e) => Ensured(index, e)
    case Bind(e, route) => BindRoute(index, e, route)
    case Unbind(e) => UnbindRoute(index, e)
    case Set(e, state) => SetState(index, e, state)
    case Hide(route) => HideRoute(index, route)
    case Adopt(route, epoch) => AdoptEpoch(index, route, epoch)
    case RaiseToWire(route) => RaiseEpochToWire(index, route)
    case FollowWire(route) => FollowWireEpoch(index, route)
    case Anchor(route, anchor, author) => SetRouteAnchor(index, route, anchor, author)
    case Clear => EMPTY
  }

  function Run(ops: seq<Op>): Index {
    if ops == [] then EMPTY else Apply(Run(ops[..|ops| - 1]), ops[|ops| - 1])
  }

  lemma SetIs(index: Index, e: Rid, state: State)
    ensures Apply(index, Set(e, state)) == SetState(index, e, state)
  {
  }

  lemma HideIs(index: Index, route: int)
    ensures Apply(index, Hide(route)) == HideRoute(index, route)
    ensures Bijective(index) && CanHide(index, route) ==> route > 0
  {
  }

  ghost predicate AllProper(ops: seq<Op>) {
    forall i :: 0 <= i < |ops| ==> Proper(ops[i])
  }

  lemma RunAppend(ops: seq<Op>, op: Op)
    ensures Run(ops + [op]) == Apply(Run(ops), op)
  {
    assert (ops + [op])[..|ops|] == ops;
  }

  /** The index names an entity at a route exactly when that entity's record holds the route. */
  ghost predicate Bijective(index: Index) {
    && 0 !in index.records
    && (forall route :: route in index.byRoute ==>
          && index.byRoute[route] in index.records && route > 0
          && index.records[index.byRoute[route]].route == route)
    && (forall e :: e in index.records && index.records[e].route > 0 ==>
          index.records[e].route in index.byRoute && index.byRoute[index.records[e].route] == e)
    && (forall e :: e in index.records ==> index.records[e].route >= 0)
  }

  lemma {:induction false} ApplyKeepsBijection(index: Index, op: Op)
    requires Bijective(index) && Proper(op)
    ensures Bijective(Apply(index, op))
  {
    assert Bijective(EMPTY);
    hide Bijective, BindRoute, UnbindRoute, Ensured;
    match op
    case Bind(e, route) => BindKeepsBijection(index, e, route);
    case Unbind(e) => UnbindKeepsBijection(index, e);
    case Create(e) => EnsureKeepsBijection(index, e);
    case Clear =>
    case _ =>
      OpKeepsRoutes(index, op);
      hide Apply;
      SameRoutesKeepBijection(index, Apply(index, op));
  }

  ghost predicate SameRoutes(index: Index, after: Index) {
    && after.byRoute == index.byRoute
    && (forall e :: e in after.records <==> e in index.records)
    && (forall e :: e in after.records ==> after.records[e].route == index.records[e].route)
  }

  lemma OpKeepsRoutes(index: Index, op: Op)
    requires !op.Bind? && !op.Unbind? && !op.Create? && !op.Clear?
    ensures SameRoutes(index, Apply(index, op))
  {
    hide RidFromRoute;
  }

  lemma EnsureKeepsBijection(index: Index, e: Rid)
    requires Bijective(index) && e != 0
    ensures Bijective(Ensured(index, e))
  {
  }

  /** Whatever changes no route changes nothing here. */
  lemma SameRoutesKeepBijection(index: Index, after: Index)
    requires Bijective(index) && SameRoutes(index, after)
    ensures Bijective(after)
  {
  }

  lemma UnbindKeepsBijection(index: Index, e: Rid)
    requires Bijective(index)
    ensures Bijective(UnbindRoute(index, e))
  {
  }

  lemma BindKeepsBijection(index: Index, e: Rid, route: int)
    requires Bijective(index)
    ensures Bijective(BindRoute(index, e, route))
  {
    if !CanBind(index, e, route) {
      return;
    }
    var after := BindRoute(index, e, route);
    forall r | r in after.byRoute
      ensures after.byRoute[r] in after.records && r > 0 && after.records[after.byRoute[r]].route == r
    {
      if r != route {
        assert r in index.byRoute && after.byRoute[r] == index.byRoute[r];
      }
    }
    forall d | d in after.records && after.records[d].route > 0
      ensures after.records[d].route in after.byRoute && after.byRoute[after.records[d].route] == d
    {
      if d != e {
        assert index.records[d].route in index.byRoute && index.byRoute[index.records[d].route] == d;
      }
    }
  }

  /** In every reachable state the route index and the records are one partial bijection. */
  lemma {:induction false} RunIsBijective(ops: seq<Op>)
    requires AllProper(ops)
    ensures Bijective(Run(ops))
  {
    if ops != [] {
      RunIsBijective(ops[..|ops| - 1]);
      ApplyKeepsBijection(Run(ops[..|ops| - 1]), ops[|ops| - 1]);
    }
  }

  /** One route never has two holders, and one entity never two routes. */
  lemma RoutesAreUnshared(ops: seq<Op>, d: Rid, e: Rid)
    requires AllProper(ops)
    requires var index := Run(ops);
             d in index.records && e in index.records && index.records[d].route == index.records[e].route > 0
    ensures d == e
  {
    RunIsBijective(ops);
  }

  /** Binding an entity that holds no other route changes what is at no other route. */
  lemma BindKeepsOthers(index: Index, e: Rid, route: int, other: int)
    requires Bijective(index) && e in index.records && other != route
    requires index.records[e].route <= 0 || index.records[e].route == route
    ensures SameAt(index, BindRoute(index, e, route), other)
  {
  }

  /** An entity at this route already, or at none while the route is free, can be bound to it and goes live there. */
  lemma BindsThere(index: Index, e: Rid, route: int, other: int)
    requires Bijective(index) && route > 0 && e in index.records
    requires RidFromRoute(index, route) == e || (RidFromRoute(index, route) == 0 && index.records[e].route <= 0)
    ensures CanBind(index, e, route) && RouteState(BindRoute(index, e, route), route) == Live
    ensures other != route ==> SameAt(index, BindRoute(index, e, route), other)
  {
    if other != route {
      BindKeepsOthers(index, e, route, other);
    }
  }

  /** The same entity at the route, in the same state. */
  predicate SameAt(index: Index, after: Index, route: int) {
    RidFromRoute(after, route) == RidFromRoute(index, route) && RouteState(after, route) == RouteState(index, route)
  }

  lemma CreateKeepsRoutes(index: Index, e: Rid, route: int)
    requires Bijective(index) && e != 0
    ensures SameAt(index, Ensured(index, e), route)
  {
  }

  /** A record that is set dead is dead afterwards. */
  lemma SetsDead(index: Index, e: Rid, route: int)
    requires Bijective(index) && RidFromRoute(index, route) == e != 0
    ensures RouteState(SetState(index, e, Dead), route) == Dead
  {
  }

  /** Setting a state changes the state at no route but the record's own. */
  lemma SetKeepsOthers(index: Index, e: Rid, state: State, other: int)
    requires Bijective(index) && RidFromRoute(index, other) != e
    ensures SameAt(index, SetState(index, e, state), other)
  {
  }

  // ----- what a call does, told of the records alone -----

  /** No record but this one changes, and none comes or goes. */
  ghost predicate OnlyAt(before: map<Rid, Record>, after: map<Rid, Record>, e: Rid) {
    && (forall d :: d in after <==> d in before)
    && (forall d :: d in before && d != e ==> after[d] == before[d])
  }

  /** The record that holds this route, if one does, changes as told and every other stays. */
  ghost predicate AtRoute(before: map<Rid, Record>, after: map<Rid, Record>, route: int, told: Record -> Record) {
    && (forall d :: d in after <==> d in before)
    && (forall d :: d in before ==>
          after[d] == if route > 0 && before[d].route == route then told(before[d]) else before[d])
  }

  /** A state gives way only to a later one: unknown, then live or absent, then lingering, then dead. */
  predicate GivesWay(before: State, state: State) {
    match before
    case Unknown => state == Live || state == Lingering || state == Dead
    case Live => state == Lingering || state == Dead
    case Absent => state == Lingering || state == Dead
    case Lingering => state == Dead
    case Dead => false
  }

  /** What a call does to every record, without the index of routes. */
  ghost predicate Effect(before: map<Rid, Record>, after: map<Rid, Record>, op: Op) {
    match op
    case Create(e) =>
      && e in after && (e !in before ==> after[e] == Record(0, Unknown, 0, -1, 1, 0))
      && (forall d :: d in before ==> d in after && after[d] == before[d])
      && (forall d :: d in after ==> d == e || d in before)
    case Bind(e, route) =>
      if route > 0 && e in before && forall d :: d in before && d != e ==> before[d].route != route then
        && OnlyAt(before, after, e)
        && after[e].route == route && after[e].state == Live && after[e].wireEpoch == before[e].wireEpoch
        && after[e].epoch == before[e].epoch + (if before[e].state == Dead then 1 else 0)
        && after[e].anchor == (if before[e].state == Dead then 1 else before[e].anchor)
        && after[e].anchorAuthor == (if before[e].state == Dead then 0 else before[e].anchorAuthor)
      else after == before
    case Unbind(e) =>
      if e in before then OnlyAt(before, after, e) && after[e] == before[e].(route := 0) else after == before
    case Set(e, state) =>
      if e in before && GivesWay(before[e].state, state)
      then OnlyAt(before, after, e) && after[e] == before[e].(state := state)
      else after == before
    case Hide(route) =>
      AtRoute(before, after, route, (r: Record) => if r.state == Live then r.(state := Absent) else r)
    case Adopt(route, epoch) =>
      AtRoute(before, after, route, (r: Record) => if epoch > r.wireEpoch then r.(wireEpoch := epoch) else r)
    case RaiseToWire(route) =>
      AtRoute(before, after, route, (r: Record) => if r.wireEpoch > r.epoch then r.(epoch := r.wireEpoch) else r)
    case FollowWire(route) =>
      AtRoute(before, after, route, (r: Record) => if r.wireEpoch >= 0 then r.(epoch := r.wireEpoch) else r)
    case Anchor(route, anchor, author) =>
      AtRoute(before, after, route,
              (r: Record) => if anchor > 0 then r.(anchor := anchor, anchorAuthor := author) else r)
    case Clear => after == map[]
  }

  /** In a bijective index every call does to the records what it says, the route's holder found by the index. */
  lemma ApplyMeans(index: Index, op: Op)
    requires Bijective(index) && Proper(op)
    ensures Effect(index.records, Apply(index, op).records, op)
  {
    match op
    case Create(_) =>
    case Bind(e, route) => BindMeans(index, e, route);
    case Unbind(e) =>
    case Set(e, state) =>
    case Clear =>
    case _ => RouteCallMeans(index, op);
  }

  lemma RouteCallMeans(index: Index, op: Op)
    requires Bijective(index) && !op.Create? && !op.Bind? && !op.Unbind? && !op.Set? && !op.Clear?
    ensures Effect(index.records, Apply(index, op).records, op)
  {
    HolderIsNamed(index, op.route);
    hide Bijective, RidFromRoute;
  }

  lemma BindMeans(index: Index, e: Rid, route: int)
    requires Bijective(index)
    ensures Effect(index.records, BindRoute(index, e, route).records, Bind(e, route))
  {
  }

  /** The index names exactly the entity whose record holds the route, and none when no record does. */
  lemma HolderIsNamed(index: Index, route: int)
    requires Bijective(index)
    ensures forall d :: d in index.records ==>
                    (RidFromRoute(index, route) == d <==> route > 0 && index.records[d].route == route)
    ensures (forall d :: d in index.records ==> route <= 0 || index.records[d].route != route) ==>
              RidFromRoute(index, route) == 0
  {
  }

  /** The record that holds the route, told of the records alone. */
  predicate HoldsRoute(records: map<Rid, Record>, d: Rid, route: int) {
    d in records && route > 0 && records[d].route == route
  }

  /** What each call answers, told of the records alone. */
  lemma AnswersMean(index: Index, e: Rid, route: int, state: State, epoch: int)
    requires Bijective(index)
    ensures CanBind(index, e, route) <==>
              route > 0 && e in index.records && forall d :: HoldsRoute(index.records, d, route) ==> d == e
    ensures CanUnbind(index, e) <==> e in index.records && index.records[e].route != 0
    ensures CanSet(index, e, state) <==> e in index.records && GivesWay(index.records[e].state, state)
    ensures CanHide(index, route) <==>
              exists d :: HoldsRoute(index.records, d, route) && index.records[d].state == Live
    ensures CanAdopt(index, route, epoch) <==>
              exists d :: HoldsRoute(index.records, d, route) && index.records[d].wireEpoch <= epoch
  {
    HolderIsNamed(index, route);
    var d := RidFromRoute(index, route);
    assert d in index.records ==> HoldsRoute(index.records, d, route);
    hide RidFromRoute;
  }

  /** After every run a further call does exactly that, and the index answers for the records it leaves. */
  lemma RunMeans(ops: seq<Op>, op: Op, route: int)
    requires AllProper(ops) && Proper(op)
    ensures var before, after := Run(ops), Run(ops + [op]);
            && Effect(before.records, after.records, op)
            && (forall d :: d in after.records ==>
                  (RidFromRoute(after, route) == d <==> route > 0 && after.records[d].route == route))
            && (RidFromRoute(after, route) != 0 ==> RidFromRoute(after, route) in after.records)
  {
    hide Run, Effect, Apply, Bijective, RidFromRoute;
    RunIsBijective(ops);
    RunAppend(ops, op);
    ApplyMeans(Run(ops), op);
    ApplyKeepsBijection(Run(ops), op);
    HolderIsNamed(Run(ops + [op]), route);
  }

  /** What one call may do to a record it finds and leaves. */
  ghost predicate LawfulChange(before: Record, after: Record, op: Op, e: Rid) {
    && after.wireEpoch >= before.wireEpoch
    && (before.state == Dead && after.state != Dead ==>
          op.Bind? && op.entity == e && after.state == Live && after.route == op.route
          && after.epoch == before.epoch + 1 && after.anchor == 1 && after.anchorAuthor == 0)
    && (RankOf(after.state) < RankOf(before.state) ==> op.Bind? && op.entity == e && after.state == Live)
    && (before.state == Absent && after.state == Live ==> op.Bind? && op.entity == e)
    && (after.epoch < before.epoch ==> op.FollowWire? && after.epoch == after.wireEpoch)
    && (after.epoch > before.epoch ==>
          || (before.state == Dead && op.Bind? && op.entity == e && after.epoch == before.epoch + 1)
          || ((op.RaiseToWire? || op.FollowWire?) && after.epoch == after.wireEpoch))
    && (after.anchor != before.anchor ==>
          (before.state == Dead && op.Bind? && op.entity == e) || (op.Anchor? && after.anchor == op.anchor))
    && (after.wireEpoch != before.wireEpoch ==> op.Adopt? && after.wireEpoch == op.epoch)
    && (after.route != before.route ==>
          || (op.Bind? && op.entity == e && after.route == op.route)
          || (op.Unbind? && op.entity == e && after.route == 0))
    && (after.state == Absent != before.state ==> op.Hide? && before.state == Live)
  }

  lemma ApplyIsLawful(index: Index, op: Op, e: Rid)
    requires e in index.records && !op.Clear?
    ensures e in Apply(index, op).records
    ensures LawfulChange(index.records[e], Apply(index, op).records[e], op, e)
  {
  }

  /** How often `e` was brought back from its tombstone in a run. */
  function Revivals(ops: seq<Op>, e: Rid): nat {
    if ops == [] then 0
    else
      var early, op := ops[..|ops| - 1], ops[|ops| - 1];
      var before := Run(early);
      if op.Clear? then 0
      else if e in before.records && before.records[e].state == Dead && Apply(before, op).records[e].state != Dead
           then Revivals(early, e) + 1
      else Revivals(early, e)
  }

  /**
   Over a run that never follows the wire epoch, an entity's epoch counts at least every return from
   the tombstone since the last `clear`, so no two of its lives share an epoch.
   */
  lemma {:induction false} EpochCountsRevivals(ops: seq<Op>, e: Rid)
    requires AllProper(ops) && forall i :: 0 <= i < |ops| ==> !ops[i].FollowWire?
    requires e in Run(ops).records
    ensures Run(ops).records[e].epoch >= Revivals(ops, e)
  {
    if ops != [] {
      var early, op := ops[..|ops| - 1], ops[|ops| - 1];
      var before := Run(early);
      if e in before.records {
        EpochCountsRevivals(early, e);
        if !op.Clear? { ApplyIsLawful(before, op, e); }
      } else if !op.Clear? {
        NeverRevived(early, e);
      }
    }
  }

  lemma {:induction false} NeverRevived(ops: seq<Op>, e: Rid)
    requires e !in Run(ops).records
    ensures Revivals(ops, e) == 0
  {
    if ops != [] && !ops[|ops| - 1].Clear? {
      var early := ops[..|ops| - 1];
      assert e !in Run(early).records by {
        if e in Run(early).records { ApplyIsLawful(Run(early), ops[|ops| - 1], e); }
      }
      NeverRevived(early, e);
    }
  }

  /** While no call raises the epoch to the wire's or follows it, the epoch is the number of those returns. */
  lemma {:induction false} EpochIsRevivals(ops: seq<Op>, e: Rid)
    requires forall i :: 0 <= i < |ops| ==> !ops[i].FollowWire? && !ops[i].RaiseToWire?
    requires e in Run(ops).records
    ensures Run(ops).records[e].epoch == Revivals(ops, e)
  {
    if ops != [] {
      var early, op := ops[..|ops| - 1], ops[|ops| - 1];
      var before := Run(early);
      if e in before.records {
        EpochIsRevivals(early, e);
        if !op.Clear? { ApplyIsLawful(before, op, e); }
      } else if !op.Clear? {
        NeverRevived(early, e);
      }
    }
  }

  /** The wire epoch of a record never falls between one `clear` and the next. */
  lemma {:induction false} WireEpochNeverFalls(ops: seq<Op>, n: nat, e: Rid)
    requires n <= |ops| && e in Run(ops[..n]).records
    requires forall i :: n <= i < |ops| ==> !ops[i].Clear?
    ensures e in Run(ops).records && Run(ops).records[e].wireEpoch >= Run(ops[..n]).records[e].wireEpoch
  {
    if n == |ops| {
      assert ops[..n] == ops;
    } else {
      var early := ops[..|ops| - 1];
      assert early[..n] == ops[..n];
      WireEpochNeverFalls(early, n, e);
      ApplyIsLawful(Run(early), ops[|ops| - 1], e);
    }
  }
}
