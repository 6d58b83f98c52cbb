/**
 Who subscribes to which scene and why: an unordered list of reasons, and the log of subscription edges
 that lets a reader rebuild the membership without asking.
 */
module SceneMemberships {
  import opened Wrappers

  /** A scene handle; 0 is the invalid one. */
  type Scene = nat

  const WATCH := 0
  const SERVER_PEER := 1

  datatype Removal = NoRemoval | LastEntity | Unwatched | MemberGone | SceneRetired

  datatype Reason = Reason(member: int, scene: Scene, entity: int)

  datatype Pair = Pair(member: int, scene: Scene)

  datatype Edge = Edge(member: int, scene: Scene, subscribed: bool, removal: Removal)

  // ----- reading the log -----

  function PairOf(edge: Edge): Pair {
    Pair(edge.member, edge.scene)
  }

  /** The subscriptions a reader of the log believes in. */
  function Replay(log: seq<Edge>): set<Pair> {
    if log == [] then {}
    else
      var early, last := Replay(log[..|log| - 1]), log[|log| - 1];
      if last.subscribed then early + {PairOf(last)} else early - {PairOf(last)}
  }

  /** No edge says what the reader believes already. */
  predicate Telling(log: seq<Edge>) {
    log == [] ||
      var early, last := log[..|log| - 1], log[|log| - 1];
      && Telling(early)
      && last.subscribed == (PairOf(last) !in Replay(early))
      && last.subscribed == last.removal.NoRemoval?
  }

  /** The edges of one pair, in order. */
  function EdgesOf(log: seq<Edge>, pair: Pair): seq<Edge> {
    if log == [] then []
    else
      var early, last := EdgesOf(log[..|log| - 1], pair), log[|log| - 1];
      if PairOf(last) == pair then early + [last] else early
  }

  /** In a telling log each pair's edges alternate, a subscription first, and the last says what the reader believes. */
  lemma {:induction false} EdgesAlternate(log: seq<Edge>, pair: Pair)
    requires Telling(log)
    ensures var edges := EdgesOf(log, pair);
            && (forall i :: 0 <= i < |edges| ==> edges[i].subscribed == (i % 2 == 0))
            && (pair in Replay(log) <==> edges != [] && edges[|edges| - 1].subscribed)
  {
    if log == [] {
    } else {
      EdgesAlternate(log[..|log| - 1], pair);
    }
  }

  lemma ReplayAppend(log: seq<Edge>, edge: Edge)
    ensures Replay(log + [edge]) == if edge.subscribed then Replay(log) + {PairOf(edge)}
                                    else Replay(log) - {PairOf(edge)}
    ensures Telling(log + [edge]) <==> Telling(log) && edge.subscribed == (PairOf(edge) !in Replay(log))
                                       && edge.subscribed == edge.removal.NoRemoval?
  {
    assert (log + [edge])[..|log|] == log;
  }

  // ----- the reasons -----

  /** Some reason holds the pair subscribed. */
  ghost predicate Subscribed(reasons: seq<Reason>, pair: Pair) {
    exists reason :: reason in reasons && reason.member == pair.member && reason.scene == pair.scene
  }

  /** The subscriptions held are the ones the log tells. */
  ghost predicate Matches(log: seq<Edge>, reasons: seq<Reason>) {
    forall pair :: pair in Replay(log) <==> Subscribed(reasons, pair)
  }

  /** How many reasons hold the pair. */
  function CountFor(reasons: seq<Reason>, member: int, scene: Scene): nat {
    if reasons == [] then 0
    else
      var last := reasons[|reasons| - 1];
      CountFor(reasons[..|reasons| - 1], member, scene) + if last.member == member && last.scene == scene then 1 else 0
  }

  lemma {:induction false} CountsSubscribed(reasons: seq<Reason>, member: int, scene: Scene)
    ensures CountFor(reasons, member, scene) > 0 <==> Subscribed(reasons, Pair(member, scene))
  {
    if reasons == [] {
    } else {
      var early, n := reasons[..|reasons| - 1], |reasons| - 1;
      CountsSubscribed(early, member, scene);
      assert reasons == early + [reasons[n]];
    }
  }

  /** The list after an element gives its place to the last one. */
  function RemovedUnordered<T>(items: seq<T>, at: nat): (rest: seq<T>)
    requires at < |items|
    ensures |rest| == |items| - 1
  {
    items[at := items[|items| - 1]][..|items| - 1]
  }

  /** Swapping the last element in removes exactly the one that was there. */
  lemma RemovedKeepsOthers<T>(items: seq<T>, at: nat)
    requires at < |items| && Distinct(items)
    ensures var rest := RemovedUnordered(items, at);
            && Distinct(rest) && (forall x :: x in rest <==> x in items && x != items[at])
            && forall i :: 0 <= i < at ==> rest[i] == items[i]
  {
    var rest, last := RemovedUnordered(items, at), |items| - 1;
    forall x ensures x in rest <==> x in items && x != items[at] {
      if x in rest {
        var i :| 0 <= i < |rest| && rest[i] == x;
        assert x == items[if i == at then last else i];
      }
      if x in items && x != items[at] {
        var i :| 0 <= i < |items| && items[i] == x;
        assert rest[if i == last then at else i] == x;
      }
    }
  }

  /** The last element has taken the place of this one. */
  ghost predicate LastTakesPlace<T>(items: seq<T>, item: T, rest: seq<T>) {
    exists at :: 0 <= at < |items| && items[at] == item && |rest| == |items| - 1
                 && forall i :: 0 <= i < |rest| ==> rest[i] == items[if i == at then |items| - 1 else i]
  }

  lemma LastTookPlace<T>(items: seq<T>, at: nat)
    requires at < |items|
    ensures LastTakesPlace(items, items[at], RemovedUnordered(items, at))
  {
  }

  class SceneMembership {
    var reasons: seq<Reason>
    var edges: seq<Edge>
    /** Every edge announced since the membership was made or cleared, the drained ones too, under present names. */
    ghost var log: seq<Edge>

    /** No reason repeats, the log tells no edge twice, and replaying it gives exactly the subscriptions held. */
    ghost predicate Valid()
      reads this
    {
      && Distinct(reasons)
      && Telling(log)
      && Matches(log, reasons)
      && |edges| <= |log| && edges == log[|log| - |edges|..]
    }

    /**
     Of the edges announced since the membership was made or cleared, each pair's alternate, a subscription
     first, and the last says whether some reason holds the pair subscribed now.
     */
    lemma AnnouncedEdgesAlternate(pair: Pair)
      requires Valid()
      ensures var told := EdgesOf(log, pair);
              && (forall i :: 0 <= i < |told| ==> told[i].subscribed == (i % 2 == 0))
              && (Subscribed(reasons, pair) <==> told != [] && told[|told| - 1].subscribed)
    {
      EdgesAlternate(log, pair);
    }

    constructor ()
      ensures Valid() && reasons == [] && edges == [] && log == []
    {
      reasons, edges, log := [], [], [];
    }

    method ReasonAt(member: int, scene: Scene, entity: int) returns (r: int)
      ensures -1 <= r < |reasons|
      ensures r >= 0 ==> reasons[r] == Reason(member, scene, entity)
      ensures r < 0 ==> Reason(member, scene, entity) !in reasons
    {
      for at := 0 to |reasons|
        invariant Reason(member, scene, entity) !in reasons[..at]
      {
        var held := reasons[at];
        if held.member == member && held.scene == scene && held.entity == entity {
          return at;
        }
      }
      return -1;
    }

    method ReasonsFor(member: int, scene: Scene) returns (total: nat)
      ensures total == CountFor(reasons, member, scene)
    {
      total := 0;
      for at := 0 to |reasons|
        invariant total == CountFor(reasons[..at], member, scene)
      {
        var held := reasons[at];
        assert reasons[..at + 1][..at] == reasons[..at];
        if held.member == member && held.scene == scene {
          total := total + 1;
        }
      }
      assert reasons[..|reasons|] == reasons;
    }

    method Announce(member: int, scene: Scene, subscribed: bool, removal: Removal)
      modifies `edges, `log
      ensures edges == old(edges) + [Edge(member, scene, subscribed, removal)]
      ensures log == old(log) + [Edge(member, scene, subscribed, removal)]
    {
      edges := edges + [Edge(member, scene, subscribed, removal)];
      log := log + [Edge(member, scene, subscribed, removal)];
    }

    /** A new reason; the pair's first one announces its subscription. */
    method Add(member: int, scene: Scene, entity: int) returns (added: bool)
      requires Valid()
      modifies this
      ensures Valid()
      ensures added == (member != 0 && scene != 0 && Reason(member, scene, entity) !in old(reasons))
      ensures reasons == old(reasons) + if added then [Reason(member, scene, entity)] else []
      ensures edges == old(edges) + if added && !Subscribed(old(reasons), Pair(member, scene))
                                    then [Edge(member, scene, true, NoRemoval)] else []
      ensures log == old(log) + edges[|old(edges)|..]
    {
      hide Replay, Telling, Distinct, CountFor;
      if member == 0 || scene == 0 {
        return false;
      }
      var at := ReasonAt(member, scene, entity);
      if at >= 0 {
        return false;
      }
      var count := ReasonsFor(member, scene);
      CountsSubscribed(reasons, member, scene);
      AddKeeps(reasons, Reason(member, scene, entity), log);
      reasons := reasons + [Reason(member, scene, entity)];
      if count == 0 {
        Announce(member, scene, true, NoRemoval);
      }
      return true;
    }

    /** A reason removed; the pair's last one announces its end. */
    method Drop(member: int, scene: Scene, entity: int, removal: Removal) returns (dropped: bool)
      requires Valid() && !removal.NoRemoval?
      modifies this
      ensures Valid()
      ensures dropped == (Reason(member, scene, entity) in old(reasons))
      ensures forall r :: r in reasons <==> r in old(reasons) && r != Reason(member, scene, entity)
      ensures if dropped then LastTakesPlace(old(reasons), Reason(member, scene, entity), reasons)
              else reasons == old(reasons)
      ensures edges == old(edges) + if dropped && !Subscribed(reasons, Pair(member, scene))
                                    then [Edge(member, scene, false, removal)] else []
      ensures log == old(log) + edges[|old(edges)|..]
    {
      hide Replay, Telling, Distinct, CountFor, RemovedUnordered, LastTakesPlace;
      var at := ReasonAt(member, scene, entity);
      if at < 0 {
        return false;
      }
      DropKeeps(reasons, at, log, removal);
      RemovedKeepsOthers(reasons, at);
      LastTookPlace(reasons, at);
      reasons := RemovedUnordered(reasons, at);
      var count := ReasonsFor(member, scene);
      CountsSubscribed(reasons, member, scene);
      if count == 0 {
        Announce(member, scene, false, removal);
      }
      return true;
    }

    method EntityEnter(member: int, scene: Scene, entity: int) returns (added: bool)
      requires Valid()
      modifies this
      ensures Valid()
      ensures added == (entity != 0 && member != 0 && scene != 0 && Reason(member, scene, entity) !in old(reasons))
      ensures reasons == old(reasons) + if added then [Reason(member, scene, entity)] else []
      ensures edges == old(edges) + if added && !Subscribed(old(reasons), Pair(member, scene))
                                    then [Edge(member, scene, true, NoRemoval)] else []
      ensures log == old(log) + edges[|old(edges)|..]
    {
      if entity == WATCH {
        return false;
      }
      added := Add(member, scene, entity);
    }

    method EntityExit(member: int, scene: Scene, entity: int) returns (dropped: bool)
      requires Valid()
      modifies this
      ensures Valid()
      ensures dropped == (entity != 0 && Reason(member, scene, entity) in old(reasons))
      ensures forall r :: r in reasons <==> r in old(reasons) && !(dropped && r == Reason(member, scene, entity))
      ensures edges == old(edges) + if dropped && !Subscribed(reasons, Pair(member, scene))
                                    then [Edge(member, scene, false, LastEntity)] else []
      ensures log == old(log) + edges[|old(edges)|..]
    {
      if entity == WATCH {
        return false;
      }
      dropped := Drop(member, scene, entity, LastEntity);
    }

    method Watch(member: int, scene: Scene) returns (added: bool)
      requires Valid()
      modifies this
      ensures Valid()
      ensures added == (member != 0 && scene != 0 && Reason(member, scene, 0) !in old(reasons))
      ensures reasons == old(reasons) + if added then [Reason(member, scene, 0)] else []
      ensures edges == old(edges) + if added && !Subscribed(old(reasons), Pair(member, scene))
                                    then [Edge(member, scene, true, NoRemoval)] else []
      ensures log == old(log) + edges[|old(edges)|..]
    {
      added := Add(member, scene, WATCH);
    }

    method Unwatch(member: int, scene: Scene) returns (dropped: bool)
      requires Valid()
      modifies this
      ensures Valid()
      ensures dropped == (Reason(member, scene, 0) in old(reasons))
      ensures forall r :: r in reasons <==> r in old(reasons) && r != Reason(member, scene, 0)
      ensures edges == old(edges) + if dropped && !Subscribed(reasons, Pair(member, scene))
                                    then [Edge(member, scene, false, Unwatched)] else []
      ensures log == old(log) + edges[|old(edges)|..]
    {
      dropped := Drop(member, scene, WATCH, Unwatched);
    }

    /** Whether the reader of the log believes the pair subscribed. */
    method Subscribes(member: int, scene: Scene) returns (held: bool)
      requires Valid()
      ensures held == (Pair(member, scene) in Replay(log)) == Subscribed(reasons, Pair(member, scene))
    {
      var count := ReasonsFor(member, scene);
      CountsSubscribed(reasons, member, scene);
      held := count > 0;
    }

    /** The member's scenes, each once, in the order of their first reasons. */
    method ScenesOf(member: int) returns (scenes: seq<Scene>)
      ensures Distinct(scenes) && scenes == FirstScenes(reasons, member)
      ensures forall scene :: scene in scenes <==> Subscribed(reasons, Pair(member, scene))
    {
      scenes := [];
      for at := 0 to |reasons|
        invariant Distinct(scenes) && scenes == FirstScenes(reasons[..at], member)
        invariant forall scene :: scene in scenes <==> Subscribed(reasons[..at], Pair(member, scene))
      {
        var held := reasons[at];
        assert reasons[..at + 1] == reasons[..at] + [held];
        assert reasons[..at + 1][..at] == reasons[..at];
        if held.member != member || held.scene in scenes {
          continue;
        }
        scenes := scenes + [held.scene];
      }
      assert reasons[..|reasons|] == reasons;
    }

    /** The scene's members in ascending order, each once. */
    method MembersOf(scene: Scene) returns (members: seq<int>)
      ensures forall i, j :: 0 <= i < j < |members| ==> members[i] < members[j]
      ensures forall member :: member in members <==> Subscribed(reasons, Pair(member, scene))
    {
      var found: seq<int> := [];
      for at := 0 to |reasons|
        invariant Distinct(found)
        invariant forall member :: member in found <==> Subscribed(reasons[..at], Pair(member, scene))
      {
        var held := reasons[at];
        assert reasons[..at + 1] == reasons[..at] + [held];
        if held.scene != scene || held.member in found {
          continue;
        }
        found := found + [held.member];
      }
      assert reasons[..|reasons|] == reasons;
      members := Sorted(found);
    }

    method DropMember(member: int)
      requires Distinct(reasons)
      modifies `reasons
      ensures Distinct(reasons)
      ensures forall r :: r in reasons <==> r in old(reasons) && r.member != member
    {
      hide RemovedUnordered, Distinct;
      ghost var first := reasons;
      var at := 0;
      while at < |reasons|
        invariant 0 <= at <= |reasons| && Distinct(reasons)
        invariant forall i :: 0 <= i < at ==> reasons[i].member != member
        invariant forall r :: r in reasons ==> r in first
        invariant forall r :: r in first && r.member != member ==> r in reasons
        decreases |reasons| - at
      {
        if reasons[at].member == member {
          RemovedKeepsOthers(reasons, at);
          reasons := RemovedUnordered(reasons, at);
          continue;
        }
        at := at + 1;
      }
    }

    method DropScene(scene: Scene)
      requires Distinct(reasons)
      modifies `reasons
      ensures Distinct(reasons)
      ensures forall r :: r in reasons <==> r in old(reasons) && r.scene != scene
    {
      hide RemovedUnordered, Distinct;
      ghost var first := reasons;
      var at := 0;
      while at < |reasons|
        invariant 0 <= at <= |reasons| && Distinct(reasons)
        invariant forall i :: 0 <= i < at ==> reasons[i].scene != scene
        invariant forall r :: r in reasons ==> r in first
        invariant forall r :: r in first && r.scene != scene ==> r in reasons
        decreases |reasons| - at
      {
        if reasons[at].scene == scene {
          RemovedKeepsOthers(reasons, at);
          reasons := RemovedUnordered(reasons, at);
          continue;
        }
        at := at + 1;
      }
    }

    method AnnounceGone(pairs: seq<Pair>, removal: Removal)
      modifies `edges, `log
      ensures edges == old(edges) + Gone(pairs, removal)
      ensures log == old(log) + Gone(pairs, removal)
    {
      for at := 0 to |pairs|
        invariant edges == old(edges) + Gone(pairs[..at], removal)
        invariant log == old(log) + Gone(pairs[..at], removal)
      {
        assert Gone(pairs[..at + 1], removal) ==
            Gone(pairs[..at], removal) + [Edge(pairs[at].member, pairs[at].scene, false, removal)];
        Announce(pairs[at].member, pairs[at].scene, false, removal);
      }
      assert pairs[..|pairs|] == pairs;
    }

    /**
     All the member's reasons go, and every scene it was subscribed to is announced as lost, each once, in
     the order of their first reasons.
     */
    method ForgetMember(member: int) returns (ghost lost: seq<Pair>)
      requires Valid()
      modifies this
      ensures Valid()
      ensures forall r :: r in reasons <==> r in old(reasons) && r.member != member
      ensures edges == old(edges) + Gone(lost, MemberGone) && Distinct(lost)
      ensures forall pair :: pair in lost <==> pair.member == member && Subscribed(old(reasons), pair)
      ensures var scenes := FirstScenes(old(reasons), member);
              |lost| == |scenes| && forall i :: 0 <= i < |scenes| ==> lost[i] == Pair(member, scenes[i])
      ensures log == old(log) + edges[|old(edges)|..]
    {
      hide Replay, Telling, Distinct, Subscribed, Gone, Matches;
      var held := ScenesOf(member);
      var pairs := seq(|held|, i requires 0 <= i < |held| => Pair(member, held[i]));
      lost := pairs;
      PairsOfScenes(held, member, pairs);
      ghost var first := reasons;
      EachSubscribes(first);
      DropMember(member);
      GoneKeeps(log, pairs, MemberGone, first, reasons);
      AnnounceGone(pairs, MemberGone);
    }

    /** All the scene's reasons go, and its members are announced as unsubscribed in ascending order. */
    method RetireScene(scene: Scene) returns (ghost lost: seq<Pair>)
      requires Valid()
      modifies this
      ensures Valid()
      ensures forall r :: r in reasons <==> r in old(reasons) && r.scene != scene
      ensures edges == old(edges) + Gone(lost, SceneRetired)
      ensures forall i, j :: 0 <= i < j < |lost| ==> lost[i].member < lost[j].member
      ensures forall pair :: pair in lost <==> pair.scene == scene && Subscribed(old(reasons), pair)
      ensures log == old(log) + edges[|old(edges)|..]
    {
      hide Replay, Telling, Subscribed, Gone, Matches;
      var held := MembersOf(scene);
      var pairs := seq(|held|, i requires 0 <= i < |held| => Pair(held[i], scene));
      lost := pairs;
      PairsOfMembers(held, scene, pairs);
      ghost var first := reasons;
      EachSubscribes(first);
      DropScene(scene);
      GoneKeeps(log, pairs, SceneRetired, first, reasons);
      AnnounceGone(pairs, SceneRetired);
    }

    /**
     Renames every member in place, in the reasons and in the edges not drained yet; a reader of the drained
     ones renames its own. The membership stays valid exactly when no two members that become one were ever
     subscribed to the same scene at once.
     */
    method RenameMembers(rename: PeerRename)
      requires Valid()
      modifies this
      ensures reasons == RenamedReasons(old(reasons), rename)
      ensures edges == RenamedEdges(old(edges), rename) && log == RenamedEdges(old(log), rename)
      ensures Valid() <==> NeverShared(old(log), rename)
    {
      hide Telling, Matches, NeverShared, Distinct, RenamedReasons, RenamedEdges;
      RenameKeepsIff(log, reasons, rename);
      RenamedEdgesEnd(log, edges, rename);
      RenameReasons(rename);
      RenameEdges(rename);
      log := RenamedEdges(log, rename);
    }

    method RenameReasons(rename: PeerRename)
      modifies `reasons
      ensures reasons == RenamedReasons(old(reasons), rename)
    {
      for at := 0 to |reasons|
        invariant reasons == RenamedReasons(old(reasons)[..at], rename) + old(reasons)[at..]
      {
        reasons := reasons[at := reasons[at].(member := rename.Of(reasons[at].member))];
      }
    }

    method RenameEdges(rename: PeerRename)
      modifies `edges
      ensures edges == RenamedEdges(old(edges), rename)
    {
      for at := 0 to |edges|
        invariant edges == RenamedEdges(old(edges)[..at], rename) + old(edges)[at..]
      {
        edges := edges[at := edges[at].(member := rename.Of(edges[at].member))];
      }
    }

    method ClearEdges()
      requires Valid()
      modifies `edges
      ensures Valid() && edges == []
    {
      edges := [];
    }

    method Clear()
      modifies this
      ensures Valid() && reasons == [] && edges == [] && log == []
    {
      reasons, edges, log := [], [], [];
    }
  }

  // ----- renaming members -----

  /** A hand-over: the peer that becomes the server, and what the former server becomes. */
  datatype PeerRename = PeerRename(successorWas: int, formerNow: int)
  {
    function Of(peer: int): int {
      if peer == successorWas then SERVER_PEER else if peer == SERVER_PEER then formerNow else peer
    }
  }

  /** `of_transfer`: a former server with no name of its own takes the successor's. */
  function OfTransfer(successorWas: int, formerNow: int): PeerRename {
    PeerRename(successorWas, if formerNow != 0 then formerNow else successorWas)
  }

  function RenamedReasons(reasons: seq<Reason>, rename: PeerRename): (renamed: seq<Reason>)
    ensures |renamed| == |reasons|
  {
    seq(|reasons|, i requires 0 <= i < |reasons| => reasons[i].(member := rename.Of(reasons[i].member)))
  }

  function RenamedEdges(edges: seq<Edge>, rename: PeerRename): (renamed: seq<Edge>)
    ensures |renamed| == |edges|
  {
    seq(|edges|, i requires 0 <= i < |edges| => edges[i].(member := rename.Of(edges[i].member)))
  }

  /**
   A hand-over renames subscriptions: the successor's become the server's, peer 1, and the former server's go to
   its new name, its successor's old one when it has none of its own; everyone else's stay.
   */
  lemma RenamedSubscriptions(reasons: seq<Reason>, successorWas: int, formerNow: int, scene: Scene)
    ensures var after, now := RenamedReasons(reasons, OfTransfer(successorWas, formerNow)),
                              if formerNow == 0 then successorWas else formerNow;
            && (Subscribed(after, Pair(1, scene)) <==>
                  Subscribed(reasons, Pair(successorWas, scene)) || (now == 1 && Subscribed(reasons, Pair(1, scene))))
            && (now != 1 ==>
                  (Subscribed(after, Pair(now, scene)) <==>
                     || (successorWas != 1 && Subscribed(reasons, Pair(1, scene)))
                     || (now != successorWas && Subscribed(reasons, Pair(now, scene)))))
            && (now != successorWas && successorWas != 1 ==> !Subscribed(after, Pair(successorWas, scene)))
            && (forall other :: other != 1 && other != successorWas && other != now ==>
                  (Subscribed(after, Pair(other, scene)) <==> Subscribed(reasons, Pair(other, scene))))
  {
    var rename := OfTransfer(successorWas, formerNow);
    forall name: int
      ensures Subscribed(RenamedReasons(reasons, rename), Pair(name, scene)) <==>
                exists member :: rename.Of(member) == name && Subscribed(reasons, Pair(member, scene))
    {
      SubscribedAs(reasons, rename, name, scene);
    }
    hide Subscribed, RenamedReasons;
    assert rename.Of(successorWas) == 1 && (successorWas != 1 ==> rename.Of(1) == rename.formerNow);
  }

  lemma SubscribedAs(reasons: seq<Reason>, rename: PeerRename, name: int, scene: Scene)
    ensures Subscribed(RenamedReasons(reasons, rename), Pair(name, scene)) <==>
              exists member :: rename.Of(member) == name && Subscribed(reasons, Pair(member, scene))
  {
    var after := RenamedReasons(reasons, rename);
    if Subscribed(after, Pair(name, scene)) {
      var k :| 0 <= k < |after| && after[k].member == name && after[k].scene == scene;
      assert reasons[k] in reasons;
      assert Subscribed(reasons, Pair(reasons[k].member, scene));
    }
    if member :| rename.Of(member) == name && Subscribed(reasons, Pair(member, scene)) {
      var k :| 0 <= k < |reasons| && reasons[k].member == member && reasons[k].scene == scene;
      assert after[k] in after;
    }
  }

  lemma RenamedEdgesEnd(log: seq<Edge>, edges: seq<Edge>, rename: PeerRename)
    requires |edges| <= |log| && edges == log[|log| - |edges|..]
    ensures RenamedEdges(edges, rename) == RenamedEdges(log, rename)[|log| - |edges|..]
  {
  }

  function RenamedPair(pair: Pair, rename: PeerRename): Pair {
    pair.(member := rename.Of(pair.member))
  }

  /** No two of these pairs become one. */
  ghost predicate StayApart(pairs: set<Pair>, rename: PeerRename) {
    forall p, q :: p in pairs && q in pairs && RenamedPair(p, rename) == RenamedPair(q, rename) ==> p == q
  }

  /** At no point of the log are two pairs subscribed that become one. */
  ghost predicate NeverShared(log: seq<Edge>, rename: PeerRename) {
    log == [] || (NeverShared(log[..|log| - 1], rename) && StayApart(Replay(log), rename))
  }

  /** The renamed subscriptions are the subscriptions renamed. */
  ghost predicate ReplaysRenamed(log: seq<Edge>, rename: PeerRename) {
    forall pair :: pair in Replay(RenamedEdges(log, rename)) <==>
                     exists p :: p in Replay(log) && RenamedPair(p, rename) == pair
  }

  lemma RenameStep(early: seq<Edge>, last: Edge, rename: PeerRename)
    requires Telling(early) && Telling(early + [last]) && ReplaysRenamed(early, rename)
    requires StayApart(Replay(early), rename)
    ensures var before, edge := RenamedEdges(early, rename), last.(member := rename.Of(last.member));
            edge.subscribed == (PairOf(edge) !in Replay(before)) <==> StayApart(Replay(early + [last]), rename)
    ensures StayApart(Replay(early + [last]), rename) ==> ReplaysRenamed(early + [last], rename)
  {
    hide Replay, Telling;
    var before, edge := RenamedEdges(early, rename), last.(member := rename.Of(last.member));
    ReplayAppend(early, last);
    ReplayAppend(before, edge);
    assert RenamedEdges(early + [last], rename) == before + [edge];
    assert RenamedPair(PairOf(last), rename) == PairOf(edge);
  }

  /**
   Exactly which renames a log survives: it stays telling, and replays to the renamed subscriptions, when no
   two pairs that become one were ever subscribed at once.
   */
  lemma {:induction false} RenameTellsIff(log: seq<Edge>, rename: PeerRename)
    requires Telling(log)
    ensures Telling(RenamedEdges(log, rename)) <==> NeverShared(log, rename)
    ensures NeverShared(log, rename) ==> ReplaysRenamed(log, rename) && StayApart(Replay(log), rename)
  {
    if log == [] {
    } else {
      hide Replay, StayApart, ReplaysRenamed;
      var early, last := log[..|log| - 1], log[|log| - 1];
      RenameTellsIff(early, rename);
      assert log == early + [last];
      var edge := last.(member := rename.Of(last.member));
      assert RenamedEdges(log, rename) == RenamedEdges(early, rename) + [edge];
      ReplayAppend(RenamedEdges(early, rename), edge);
      if NeverShared(early, rename) {
        RenameStep(early, last, rename);
      }
    }
  }

  /** The same of the log and the reasons together. */
  lemma RenameKeepsIff(log: seq<Edge>, reasons: seq<Reason>, rename: PeerRename)
    requires Telling(log) && Distinct(reasons) && Matches(log, reasons)
    ensures var renamed, after := RenamedEdges(log, rename), RenamedReasons(reasons, rename);
            Telling(renamed) && Distinct(after) && Matches(renamed, after) <==> NeverShared(log, rename)
  {
    hide Replay, Telling, NeverShared, RenamedEdges;
    RenameTellsIff(log, rename);
    if NeverShared(log, rename) {
      RenamedStayDistinct(log, reasons, rename);
      RenamedMatch(log, reasons, rename);
    }
  }

  lemma RenamedStayDistinct(log: seq<Edge>, reasons: seq<Reason>, rename: PeerRename)
    requires Distinct(reasons) && Matches(log, reasons) && StayApart(Replay(log), rename)
    ensures Distinct(RenamedReasons(reasons, rename))
  {
    hide Replay;
    var after := RenamedReasons(reasons, rename);
    forall i, j | 0 <= i < j < |after|
      ensures after[i] != after[j]
    {
      var p, q := Pair(reasons[i].member, reasons[i].scene), Pair(reasons[j].member, reasons[j].scene);
      assert reasons[i] in reasons && reasons[j] in reasons;
      assert Subscribed(reasons, p) && Subscribed(reasons, q);
      assert p in Replay(log) && q in Replay(log);
    }
  }

  lemma RenamedMatch(log: seq<Edge>, reasons: seq<Reason>, rename: PeerRename)
    requires Matches(log, reasons) && ReplaysRenamed(log, rename)
    ensures Matches(RenamedEdges(log, rename), RenamedReasons(reasons, rename))
  {
    hide Replay, RenamedEdges;
    var after := RenamedReasons(reasons, rename);
    forall pair
      ensures pair in Replay(RenamedEdges(log, rename)) <==> Subscribed(after, pair)
    {
      if Subscribed(after, pair) {
        var k :| 0 <= k < |after| && after[k].member == pair.member && after[k].scene == pair.scene;
        var p := Pair(reasons[k].member, reasons[k].scene);
        assert reasons[k] in reasons && Subscribed(reasons, p);
        assert RenamedPair(p, rename) == pair;
      }
      if p :| p in Replay(log) && RenamedPair(p, rename) == pair {
        assert Subscribed(reasons, p);
        var k :| 0 <= k < |reasons| && reasons[k].member == p.member && reasons[k].scene == p.scene;
        assert after[k] in after;
      }
    }
  }

  /** A former server that takes the successor's name, or one no edge was ever told of, is renamed safely. */
  lemma {:induction false} FreshNameNeverShared(log: seq<Edge>, rename: PeerRename)
    requires || rename.formerNow == rename.successorWas || rename.successorWas == SERVER_PEER
             || (rename.formerNow != SERVER_PEER
                 && forall i :: 0 <= i < |log| ==> log[i].member != rename.formerNow)
    ensures NeverShared(log, rename)
  {
    if log != [] {
      FreshNameNeverShared(log[..|log| - 1], rename);
      ReplayTold(log);
    }
  }

  lemma {:induction false} ReplayTold(log: seq<Edge>)
    ensures forall pair :: pair in Replay(log) ==> exists i :: 0 <= i < |log| && PairOf(log[i]) == pair
  {
    if log != [] {
      var early := log[..|log| - 1];
      ReplayTold(early);
      forall pair | pair in Replay(log)
        ensures exists i :: 0 <= i < |log| && PairOf(log[i]) == pair
      {
        if pair in Replay(early) {
          var i :| 0 <= i < |early| && PairOf(early[i]) == pair;
          assert PairOf(log[i]) == pair;
        } else {
          assert PairOf(log[|log| - 1]) == pair;
        }
      }
    }
  }

  /** The server and peer 3 in one scene, and the server renamed to 3: the reasons repeat, and so does an edge. */
  lemma SharedSceneRepeats()
    ensures var rename, reasons := OfTransfer(7, 3), [Reason(1, 5, 0), Reason(3, 5, 0)];
            Distinct(reasons) && !Distinct(RenamedReasons(reasons, rename))
    ensures var log := [Edge(1, 5, true, NoRemoval), Edge(3, 5, true, NoRemoval)];
            Telling(log) && !NeverShared(log, OfTransfer(7, 3))
  {
    var after := RenamedReasons([Reason(1, 5, 0), Reason(3, 5, 0)], OfTransfer(7, 3));
    assert after[0] == after[1];
    var first, second := Edge(1, 5, true, NoRemoval), Edge(3, 5, true, NoRemoval);
    assert [first, second][..1] == [first] && [first][..0] == [];
    assert PairOf(first) in Replay([first, second]) && PairOf(second) in Replay([first, second]);
    assert RenamedPair(PairOf(first), OfTransfer(7, 3)) == RenamedPair(PairOf(second), OfTransfer(7, 3));
  }

  /** The scenes the member has a reason for, in the order of the first reason for each. */
  function FirstScenes(reasons: seq<Reason>, member: int): seq<Scene> {
    if reasons == [] then []
    else
      var early, last := FirstScenes(reasons[..|reasons| - 1], member), reasons[|reasons| - 1];
      if last.member != member || last.scene in early then early else early + [last.scene]
  }

  /** Each scene comes with its first reason: before the first reason for any scene after it. */
  lemma {:induction false} FirstScenesInOrder(reasons: seq<Reason>, member: int, i: nat, j: nat) returns (at: nat)
    requires i < j < |FirstScenes(reasons, member)|
    ensures at < |reasons| && reasons[at].member == member && reasons[at].scene == FirstScenes(reasons, member)[i]
    ensures forall k :: 0 <= k <= at && reasons[k].member == member ==>
              reasons[k].scene != FirstScenes(reasons, member)[j]
  {
    var n := |reasons| - 1;
    var early := FirstScenes(reasons[..n], member);
    if j < |early| {
      at := FirstScenesInOrder(reasons[..n], member, i, j);
    } else {
      at := FirstReason(reasons[..n], member, early[i]);
      forall k | 0 <= k <= at && reasons[k].member == member
        ensures reasons[k].scene != reasons[n].scene
      {
        FirstScenesHas(reasons[..n], member, k);
      }
    }
  }

  lemma {:induction false} FirstReason(reasons: seq<Reason>, member: int, scene: Scene) returns (at: nat)
    requires scene in FirstScenes(reasons, member)
    ensures at < |reasons| && reasons[at].member == member && reasons[at].scene == scene
  {
    var n := |reasons| - 1;
    if scene in FirstScenes(reasons[..n], member) {
      at := FirstReason(reasons[..n], member, scene);
    } else {
      at := n;
    }
  }

  lemma {:induction false} FirstScenesHas(reasons: seq<Reason>, member: int, k: nat)
    requires k < |reasons| && reasons[k].member == member
    ensures reasons[k].scene in FirstScenes(reasons, member)
  {
    if k < |reasons| - 1 {
      FirstScenesHas(reasons[..|reasons| - 1], member, k);
    }
  }

  lemma PairsOfScenes(scenes: seq<Scene>, member: int, pairs: seq<Pair>)
    requires Distinct(scenes) && |pairs| == |scenes|
    requires forall i :: 0 <= i < |pairs| ==> pairs[i] == Pair(member, scenes[i])
    ensures Distinct(pairs) && forall pair :: pair in pairs <==> pair.member == member && pair.scene in scenes
  {
    forall pair: Pair | pair.member == member && pair.scene in scenes ensures pair in pairs {
      var i :| 0 <= i < |scenes| && scenes[i] == pair.scene;
      assert pairs[i] == pair;
    }
  }

  lemma PairsOfMembers(members: seq<int>, scene: Scene, pairs: seq<Pair>)
    requires (forall i, j :: 0 <= i < j < |members| ==> members[i] < members[j]) && |pairs| == |members|
    requires forall i :: 0 <= i < |pairs| ==> pairs[i] == Pair(members[i], scene)
    ensures Distinct(pairs) && forall pair :: pair in pairs <==> pair.scene == scene && pair.member in members
  {
    forall pair: Pair | pair.scene == scene && pair.member in members ensures pair in pairs {
      var i :| 0 <= i < |members| && members[i] == pair.member;
      assert pairs[i] == pair;
    }
  }

  // ----- what one call does to the log and the reasons -----

  lemma SubscribedAppend(reasons: seq<Reason>, reason: Reason, pair: Pair)
    ensures Subscribed(reasons + [reason], pair) <==>
              Subscribed(reasons, pair) || Pair(reason.member, reason.scene) == pair
  {
    assert reason in reasons + [reason];
  }

  lemma EachSubscribes(reasons: seq<Reason>)
    ensures forall r :: r in reasons ==> Subscribed(reasons, Pair(r.member, r.scene))
  {
  }

  lemma AddKeeps(reasons: seq<Reason>, reason: Reason, log: seq<Edge>)
    requires Distinct(reasons) && Telling(log) && Matches(log, reasons) && reason !in reasons
    ensures Distinct(reasons + [reason])
    ensures var pair, edge := Pair(reason.member, reason.scene), Edge(reason.member, reason.scene, true, NoRemoval);
            if Subscribed(reasons, pair) then Matches(log, reasons + [reason])
            else Telling(log + [edge]) && Matches(log + [edge], reasons + [reason])
  {
    hide Replay, Telling, Subscribed;
    ReplayAppend(log, Edge(reason.member, reason.scene, true, NoRemoval));
    forall pair
      ensures Subscribed(reasons + [reason], pair) <==>
                Subscribed(reasons, pair) || Pair(reason.member, reason.scene) == pair {
      SubscribedAppend(reasons, reason, pair);
    }
  }

  lemma DropKeeps(reasons: seq<Reason>, at: nat, log: seq<Edge>, removal: Removal)
    requires at < |reasons| && Distinct(reasons) && Telling(log) && Matches(log, reasons) && !removal.NoRemoval?
    ensures var reason, rest := reasons[at], RemovedUnordered(reasons, at);
            var pair, edge := Pair(reason.member, reason.scene), Edge(reason.member, reason.scene, false, removal);
            if Subscribed(rest, pair) then Matches(log, rest)
            else Telling(log + [edge]) && Matches(log + [edge], rest)
  {
    hide Replay, Telling, RemovedUnordered, Distinct;
    var reason := reasons[at];
    RemovedKeepsOthers(reasons, at);
    ReplayAppend(log, Edge(reason.member, reason.scene, false, removal));
    assert Subscribed(reasons, Pair(reason.member, reason.scene));
  }

  /** The edges that end these pairs. */
  function Gone(pairs: seq<Pair>, removal: Removal): (edges: seq<Edge>)
    ensures |edges| == |pairs|
  {
    seq(|pairs|, i requires 0 <= i < |pairs| => Edge(pairs[i].member, pairs[i].scene, false, removal))
  }

  lemma {:induction false} GoneReplay(log: seq<Edge>, pairs: seq<Pair>, removal: Removal)
    requires Telling(log) && Distinct(pairs) && !removal.NoRemoval? && forall pair ::
               pair in pairs ==> pair in Replay(log)
    ensures Telling(log + Gone(pairs, removal))
    ensures forall pair :: pair in Replay(log + Gone(pairs, removal)) <==> pair in Replay(log) && pair !in pairs
  {
    hide Replay, Telling;
    if pairs == [] {
      assert log + Gone(pairs, removal) == log;
    } else {
      var early, last := pairs[..|pairs| - 1], pairs[|pairs| - 1];
      GoneReplay(log, early, removal);
      var edge := Edge(last.member, last.scene, false, removal);
      assert log + Gone(pairs, removal) == (log + Gone(early, removal)) + [edge];
      ReplayAppend(log + Gone(early, removal), edge);
      assert pairs == early + [last];
    }
  }

  /** Ending every pair the sweep emptied keeps the log and the reasons in agreement. */
  lemma GoneKeeps(log: seq<Edge>, pairs: seq<Pair>, removal: Removal, before: seq<Reason>, after: seq<Reason>)
    requires Telling(log) && Matches(log, before) && Distinct(pairs) && !removal.NoRemoval?
    requires forall pair :: pair in pairs ==> Subscribed(before, pair)
    requires forall r :: r in after <==> r in before && Pair(r.member, r.scene) !in pairs
    ensures Telling(log + Gone(pairs, removal)) && Matches(log + Gone(pairs, removal), after)
  {
    hide Replay, Telling, Gone, Distinct;
    GoneReplay(log, pairs, removal);
    forall pair ensures Subscribed(after, pair) <==> Subscribed(before, pair) && pair !in pairs {
      if Subscribed(before, pair) && pair !in pairs {
        var reason :| reason in before && reason.member == pair.member && reason.scene == pair.scene;
        assert reason in after;
      }
    }
  }
}
