/**
 Callbacks waiting for a route to go live, on values: parking, flushing, deferred flushing, failing and
 expiring. Every list is kept per route, and beside the pending ones stand four histories: what was
 asked, what was called because the route went live, what was given up on, and what `clear` dropped.
 */
module LivePending {
  import opened Wrappers

  /** One `when_live` entry; `id` tells two calls with equal arguments apart. */
  datatype Entry = Entry(id: nat, deadline: int, span: int, onClock: bool)

  type Lists = map<int, seq<Entry>>

  datatype Waits = Waits(
    pending: Lists, held: set<int>, depth: int, deferred: seq<int>, frame: int,
    asked: Lists, called: Lists, givenUp: Lists, dropped: Lists)

  const QUIET := Waits(map[], {}, 0, [], 0, map[], map[], map[], map[])

  function At(lists: Lists, route: int): seq<Entry> {
    if route in lists then lists[route] else []
  }

  function Added(lists: Lists, route: int, entries: seq<Entry>): (added: Lists)
    ensures forall r :: At(added, r) == if r == route then At(lists, r) + entries else At(lists, r)
  {
    lists[route := At(lists, route) + entries]
  }

  /** `when_live`: called at once on a live route that owes no flush, and parked otherwise. */
  function WhenLive(w: Waits, route: int, live: bool, entry: Entry): Waits {
    var noted := w.(asked := Added(w.asked, route, [entry]));
    if live && route !in w.deferred then noted.(called := Added(w.called, route, [entry]))
    else noted.(pending := Added(w.pending, route, [entry]))
  }

  function FlushLive(w: Waits, route: int): Waits {
    if route !in w.pending then w
    else if w.depth > 0 then
      if route in w.deferred then w else w.(deferred := w.deferred + [route])
    else w.(pending := w.pending - {route}, called := Added(w.called, route, w.pending[route]))
  }

  function FailLive(w: Waits, route: int): Waits {
    if route !in w.pending then w
    else w.(pending := w.pending - {route}, givenUp := Added(w.givenUp, route, w.pending[route]))
  }

  /** The loop of `resume_flushes` at depth 0. */
  function Drained(w: Waits): Waits
    decreases |w.deferred|
  {
    if w.depth != 0 || w.deferred == [] then w
    else
      var rest := w.(deferred := w.deferred[1..]);
      assert FlushLive(rest, w.deferred[0]).deferred == w.deferred[1..];
      Drained(FlushLive(rest, w.deferred[0]))
  }

  function ResumeFlushes(w: Waits): Waits {
    Drained(w.(depth := w.depth - 1))
  }

  // ----- the sweep -----

  function Now(entry: Entry, frame: int, clock: int): int {
    if entry.onClock then clock else frame
  }

  /** What a sweep keeps of one route's list; on a held route every deadline is pushed back instead. */
  function Remaining(entries: seq<Entry>, held: bool, frame: int, clock: int): seq<Entry> {
    if entries == [] then []
    else
      var rest, entry := Remaining(entries[..|entries| - 1], held, frame, clock), entries[|entries| - 1];
      if held then rest + [entry.(deadline := Now(entry, frame, clock) + entry.span)]
      else if Now(entry, frame, clock) >= entry.deadline then rest
      else rest + [entry]
  }

  function Expired(entries: seq<Entry>, held: bool, frame: int, clock: int): seq<Entry> {
    if entries == [] then []
    else
      var rest, entry := Expired(entries[..|entries| - 1], held, frame, clock), entries[|entries| - 1];
      if !held && Now(entry, frame, clock) >= entry.deadline then rest + [entry] else rest
  }

  /** `poll`: one frame on, then a sweep of every route. */
  function Poll(w: Waits, clock: int): Waits {
    var frame := w.frame + 1;
    w.(frame := frame,
       pending := map r | r in w.pending && Remaining(w.pending[r], r in w.held, frame, clock) != []
                      :: Remaining(w.pending[r], r in w.held, frame, clock),
       givenUp := map r | r in w.givenUp.Keys + w.pending.Keys
                      :: At(w.givenUp, r) + Expired(At(w.pending, r), r in w.held, frame, clock))
  }

  /** `clear`: whatever waits is dropped uncalled. The depth of the deferrals is not reset. */
  function Cleared(w: Waits): Waits {
    w.(pending := map[], held := {}, deferred := [], frame := 0, dropped := Joined(w.dropped, w.pending))
  }

  function Joined(lists: Lists, more: Lists): (joined: Lists)
    ensures forall r :: At(joined, r) == At(lists, r) + At(more, r)
  {
    map r | r in lists.Keys + more.Keys :: At(lists, r) + At(more, r)
  }

  // ----- runs -----

  datatype Op =
    | Ask(route: int, live: bool, entry: Entry)
    | Flush(route: int)
    | Fail(route: int)
    | Defer
    | Resume
    | Hold(route: int)
    | Release(route: int)
    | Sweep(clock: int)
    | Clear

  function Apply(w: Waits, op: Op): Waits {
    match op
    case Ask(route, live, entry) => WhenLive(w, route, live, entry)
    case Flush(route) => FlushLive(w, route)
    case Fail(route) => FailLive(w, route)
    case Defer => w.(depth := w.depth + 1)
    case Resume => ResumeFlushes(w)
    case Hold(route) => w.(held := w.held + {route})
    case Release(route) => w.(held := w.held - {route})
    case Sweep(clock) => Poll(w, clock)
    case Clear => Cleared(w)
  }

  function Run(ops: seq<Op>): Waits {
    if ops == [] then QUIET else Apply(Run(ops[..|ops| - 1]), ops[|ops| - 1])
  }

  lemma SweepIs(w: Waits, clock: int)
    ensures Apply(w, Sweep(clock)) == Poll(w, clock)
  {
  }

  lemma AskIs(w: Waits, route: int, live: bool, entry: Entry)
    ensures Apply(w, Ask(route, live, entry)) == WhenLive(w, route, live, entry)
  {
  }

  lemma RunAppend(ops: seq<Op>, op: Op)
    ensures Run(ops + [op]) == Apply(Run(ops), op)
  {
    assert (ops + [op])[..|ops|] == ops;
  }

  function Ids(entries: seq<Entry>): (ids: seq<nat>)
    ensures |ids| == |entries|
    ensures forall i :: 0 <= i < |ids| ==> ids[i] == entries[i].id
  {
    seq(|entries|, i requires 0 <= i < |entries| => entries[i].id)
  }

  function Bag(entries: seq<Entry>): multiset<nat> {
    multiset(Ids(entries))
  }

  lemma BagSum(a: seq<Entry>, b: seq<Entry>)
    ensures Bag(a + b) == Bag(a) + Bag(b)
  {
    assert Ids(a + b) == Ids(a) + Ids(b);
  }

  /** On one route, what was asked is what still waits, what was called, what was given up on and what was dropped. */
  ghost predicate Balanced(asked: seq<Entry>, pending: seq<Entry>, called: seq<Entry>, givenUp: seq<Entry>,
                           dropped: seq<Entry>)
  {
    Bag(asked) == Bag(pending) + Bag(called) + Bag(givenUp) + Bag(dropped)
  }

  ghost predicate Accounted(w: Waits) {
    forall r :: Balanced(At(w.asked, r), At(w.pending, r), At(w.called, r), At(w.givenUp, r), At(w.dropped, r))
  }

  /** No flush is owed unless flushes are being deferred. */
  predicate Settled(w: Waits) {
    && (w.depth <= 0 ==> w.deferred == [])
    && (forall i, j :: 0 <= i < j < |w.deferred| ==> w.deferred[i] != w.deferred[j])
  }

  lemma NoneBalanced()
    ensures Balanced([], [], [], [], [])
  {
  }

  lemma AskBalances(asked: seq<Entry>, pending: seq<Entry>, called: seq<Entry>, givenUp: seq<Entry>,
                    dropped: seq<Entry>, entry: Entry)
    requires Balanced(asked, pending, called, givenUp, dropped)
    ensures Balanced(asked + [entry], pending + [entry], called, givenUp, dropped)
    ensures Balanced(asked + [entry], pending, called + [entry], givenUp, dropped)
  {
    BagSum(asked, [entry]);
    BagSum(called, [entry]);
    BagSum(pending, [entry]);
  }

  lemma ConsumeBalances(asked: seq<Entry>, pending: seq<Entry>, called: seq<Entry>, givenUp: seq<Entry>,
                        dropped: seq<Entry>)
    requires Balanced(asked, pending, called, givenUp, dropped)
    ensures Balanced(asked, [], called + pending, givenUp, dropped)
    ensures Balanced(asked, [], called, givenUp + pending, dropped)
    ensures Balanced(asked, [], called, givenUp, dropped + pending)
  {
    BagSum(called, pending);
    BagSum(givenUp, pending);
    BagSum(dropped, pending);
    assert Bag([]) == multiset{};
  }

  lemma SweepBalances(asked: seq<Entry>, pending: seq<Entry>, called: seq<Entry>, givenUp: seq<Entry>,
                      dropped: seq<Entry>, held: bool, frame: int, clock: int)
    requires Balanced(asked, pending, called, givenUp, dropped)
    ensures Balanced(asked, Remaining(pending, held, frame, clock), called,
                     givenUp + Expired(pending, held, frame, clock), dropped)
  {
    SweepSplits(pending, held, frame, clock);
    BagSum(givenUp, Expired(pending, held, frame, clock));
  }

  lemma SplitStep(early: seq<Entry>, kept: seq<Entry>, gone: seq<Entry>, entry: Entry, left: Entry)
    requires Bag(early) == Bag(kept) + Bag(gone) && left.id == entry.id
    ensures Bag(early + [entry]) == Bag(kept + [left]) + Bag(gone)
    ensures Bag(early + [entry]) == Bag(kept) + Bag(gone + [entry])
  {
    BagSum(early, [entry]);
    BagSum(kept, [left]);
    BagSum(gone, [entry]);
    assert Ids([left]) == Ids([entry]) == [entry.id];
  }

  lemma IdsAppend(entries: seq<Entry>, entry: Entry)
    ensures Ids(entries + [entry]) == Ids(entries) + [entry.id]
  {
    assert (entries + [entry])[..|entries|] == entries;
  }

  lemma SweepLast(entries: seq<Entry>, held: bool, frame: int, clock: int)
    requires entries != []
    ensures var early, entry := entries[..|entries| - 1], entries[|entries| - 1];
            var kept, gone := Remaining(early, held, frame, clock), Expired(early, held, frame, clock);
            var expires := Now(entry, frame, clock) >= entry.deadline;
            && Remaining(entries, held, frame, clock) ==
                 (if held then kept + [entry.(deadline := Now(entry, frame, clock) + entry.span)]
                  else if expires then kept else kept + [entry])
            && Expired(entries, held, frame, clock) == if !held && expires then gone + [entry] else gone
  {
  }

  lemma NothingSplits(held: bool, frame: int, clock: int)
    ensures Bag([]) == Bag(Remaining([], held, frame, clock)) + Bag(Expired([], held, frame, clock))
  {
  }

  /** A sweep keeps or expires every entry, and loses none. */
  lemma {:induction false} SweepSplits(entries: seq<Entry>, held: bool, frame: int, clock: int)
    ensures Bag(entries) == Bag(Remaining(entries, held, frame, clock)) + Bag(Expired(entries, held, frame, clock))
  {
    hide Bag, Remaining, Expired, Ids, Now;
    if entries == [] {
      NothingSplits(held, frame, clock);
    } else {
      var early, entry := entries[..|entries| - 1], entries[|entries| - 1];
      SweepSplits(early, held, frame, clock);
      assert entries == early + [entry];
      var kept, gone := Remaining(early, held, frame, clock), Expired(early, held, frame, clock);
      SweepLast(entries, held, frame, clock);
      SplitStep(early, kept, gone, entry,
                if held then entry.(deadline := Now(entry, frame, clock) + entry.span) else entry);
    }
  }

  /** Nothing on a held route expires. */
  lemma {:induction false} HeldSweepKeepsAll(entries: seq<Entry>, frame: int, clock: int)
    ensures Expired(entries, true, frame, clock) == [] && Ids(Remaining(entries, true, frame, clock)) == Ids(entries)
  {
    if entries == [] {
    } else {
      hide Remaining, Expired, Ids, Now;
      var early, entry := entries[..|entries| - 1], entries[|entries| - 1];
      HeldSweepKeepsAll(early, frame, clock);
      assert entries == early + [entry];
      SweepLast(entries, true, frame, clock);
      IdsAppend(early, entry);
      IdsAppend(Remaining(early, true, frame, clock), entry.(deadline := Now(entry, frame, clock) + entry.span));
    }
  }

  lemma {:induction false} PollAccounts(w: Waits, clock: int)
    requires Accounted(w)
    ensures Accounted(Poll(w, clock))
  {
    hide Balanced;
    var after := Poll(w, clock);
    forall r
      ensures Balanced(At(after.asked, r), At(after.pending, r), At(after.called, r), At(after.givenUp, r),
                       At(after.dropped, r))
    {
      var entries, held := At(w.pending, r), r in w.held;
      SweepBalances(At(w.asked, r), entries, At(w.called, r), At(w.givenUp, r), At(w.dropped, r), held, after.frame,
                    clock);
      assert At(after.pending, r) == Remaining(entries, held, after.frame, clock);
      assert At(after.givenUp, r) == At(w.givenUp, r) + Expired(entries, held, after.frame, clock);
    }
  }

  lemma {:induction false} FlushAccounts(w: Waits, route: int)
    requires Accounted(w)
    ensures Accounted(FlushLive(w, route)) && Accounted(FailLive(w, route))
  {
    hide Balanced;
    if route in w.pending {
      ConsumeBalances(At(w.asked, route), At(w.pending, route), At(w.called, route), At(w.givenUp, route),
                      At(w.dropped, route));
    }
  }

  lemma {:induction false} DrainAccounts(w: Waits)
    requires Accounted(w)
    ensures Accounted(Drained(w))
    decreases |w.deferred|
  {
    hide Balanced;
    if w.depth == 0 && w.deferred != [] {
      var rest := w.(deferred := w.deferred[1..]);
      FlushAccounts(rest, w.deferred[0]);
      DrainAccounts(FlushLive(rest, w.deferred[0]));
    }
  }

  lemma ClearAccounts(w: Waits)
    requires Accounted(w)
    ensures Accounted(Cleared(w))
  {
    hide Balanced;
    forall r
      ensures var after := Cleared(w);
              Balanced(At(after.asked, r), At(after.pending, r), At(after.called, r), At(after.givenUp, r),
                       At(after.dropped, r))
    {
      ConsumeBalances(At(w.asked, r), At(w.pending, r), At(w.called, r), At(w.givenUp, r), At(w.dropped, r));
    }
  }

  lemma {:induction false} AskAccounts(w: Waits, route: int, live: bool, entry: Entry)
    requires Accounted(w)
    ensures Accounted(WhenLive(w, route, live, entry))
  {
    hide Balanced;
    AskBalances(At(w.asked, route), At(w.pending, route), At(w.called, route), At(w.givenUp, route),
                At(w.dropped, route), entry);
  }

  lemma {:induction false} ApplyAccounts(w: Waits, op: Op)
    requires Accounted(w)
    ensures Accounted(Apply(w, op))
  {
    hide Balanced;
    match op
    case Ask(route, live, entry) => AskAccounts(w, route, live, entry);
    case Flush(route) => FlushAccounts(w, route);
    case Fail(route) => FlushAccounts(w, route);
    case Resume => DrainAccounts(w.(depth := w.depth - 1));
    case Sweep(clock) => PollAccounts(w, clock);
    case Clear => ClearAccounts(w);
    case _ =>
  }

  lemma {:induction false} DrainSettles(w: Waits)
    ensures Drained(w).depth == w.depth
    ensures w.depth == 0 ==> Drained(w).deferred == []
    ensures w.depth != 0 ==> Drained(w) == w
    ensures forall r :: r in Drained(w).pending ==> r in w.pending && (w.depth == 0 ==> r !in w.deferred)
    decreases |w.deferred|
  {
    if w.depth == 0 && w.deferred != [] {
      var rest := w.(deferred := w.deferred[1..]);
      DrainSettles(FlushLive(rest, w.deferred[0]));
    }
  }

  lemma ApplySettles(w: Waits, op: Op)
    requires Settled(w)
    ensures Settled(Apply(w, op))
  {
    hide Remaining, Expired;
    if op.Resume? { DrainSettles(w.(depth := w.depth - 1)); }
  }

  /**
   Every entry asked for in a run is in exactly one place: still waiting on its route, called, given up
   on, or dropped by a `clear`; and no flush is owed while the depth is not positive.
   */
  lemma {:induction false} EveryEntryIsAccountedFor(ops: seq<Op>)
    ensures Accounted(Run(ops)) && Settled(Run(ops))
  {
    hide Balanced;
    if ops == [] {
      NoneBalanced();
    } else {
      hide Accounted, Settled, Apply;
      var w, op := Run(ops[..|ops| - 1]), ops[|ops| - 1];
      EveryEntryIsAccountedFor(ops[..|ops| - 1]);
      ApplyAccounts(w, op);
      ApplySettles(w, op);
    }
  }

  /**
   What one frame of polling does to a route. Nothing there is given up on while it is held: every deadline is
   a whole span from now, on the entry's own counter. Otherwise exactly the entries whose counter, the clock or
   the frame that begins, has reached their deadline are given up on, and the rest wait on unchanged.
   */
  ghost predicate RoutePolled(w: Waits, after: Waits, clock: int, route: int) {
    var waiting, left, frame := At(w.pending, route), At(after.pending, route), w.frame + 1;
    && (route in after.pending <==> left != [])
    && (route in w.held ==>
          && At(after.givenUp, route) == At(w.givenUp, route) && |left| == |waiting|
          && forall i :: 0 <= i < |left| ==>
               left[i] == waiting[i].(deadline := (if waiting[i].onClock then clock else frame) + waiting[i].span))
    && (route !in w.held ==>
          var before, now := At(w.givenUp, route), At(after.givenUp, route);
          && before <= now && Interleaves(waiting, left, now[|before|..])
          && (forall i :: 0 <= i < |left| ==> (if left[i].onClock then clock else frame) < left[i].deadline)
          && (forall i :: |before| <= i < |now| ==> (if now[i].onClock then clock else frame) >= now[i].deadline))
  }

  /** Polling advances the frame by one and does that to every route; nothing is asked, called or dropped. */
  ghost predicate Polled(w: Waits, after: Waits, clock: int) {
    && after == w.(frame := w.frame + 1, pending := after.pending, givenUp := after.givenUp)
    && forall route :: RoutePolled(w, after, clock, route)
  }

  /** A sweep of an unheld route keeps in order what is not due and gives up in order what is. */
  ghost predicate Sorts(entries: seq<Entry>, left: seq<Entry>, gone: seq<Entry>, frame: int, clock: int) {
    && Interleaves(entries, left, gone)
    && (forall i :: 0 <= i < |left| ==> (if left[i].onClock then clock else frame) < left[i].deadline)
    && (forall i :: 0 <= i < |gone| ==> (if gone[i].onClock then clock else frame) >= gone[i].deadline)
  }

  lemma SortsStep(early: seq<Entry>, left: seq<Entry>, gone: seq<Entry>, last: Entry, frame: int, clock: int)
    requires Sorts(early, left, gone, frame, clock)
    ensures if (if last.onClock then clock else frame) >= last.deadline
            then Sorts(early + [last], left, gone + [last], frame, clock)
            else Sorts(early + [last], left + [last], gone, frame, clock)
  {
    hide Interleaves;
    InterleavesAppend(early, left, gone, last);
  }

  lemma {:induction false} SweepSorts(entries: seq<Entry>, frame: int, clock: int)
    ensures Sorts(entries, Remaining(entries, false, frame, clock), Expired(entries, false, frame, clock), frame, clock)
  {
    if entries == [] {
    } else {
      hide Sorts, Remaining, Expired;
      var early, last := entries[..|entries| - 1], entries[|entries| - 1];
      SweepSorts(early, frame, clock);
      SweepLast(entries, false, frame, clock);
      assert entries == early + [last];
      SortsStep(early, Remaining(early, false, frame, clock), Expired(early, false, frame, clock), last, frame, clock);
    }
  }

  lemma {:induction false} HeldSweepExtends(entries: seq<Entry>, frame: int, clock: int)
    ensures Expired(entries, true, frame, clock) == []
    ensures var left := Remaining(entries, true, frame, clock);
            && |left| == |entries|
            && forall i :: 0 <= i < |left| ==>
                 left[i] == entries[i].(deadline := (if entries[i].onClock then clock else frame) + entries[i].span)
  {
    if entries != [] {
      HeldSweepExtends(entries[..|entries| - 1], frame, clock);
    }
  }

  lemma PollMeaning(w: Waits, clock: int)
    ensures Polled(w, Poll(w, clock), clock)
  {
    hide RoutePolled;
    forall route
      ensures RoutePolled(w, Poll(w, clock), clock, route)
    {
      PollRoute(w, clock, route);
    }
  }

  lemma PollRoute(w: Waits, clock: int, route: int)
    ensures RoutePolled(w, Poll(w, clock), clock, route)
  {
    hide Remaining, Expired, Interleaves;
    var entries, held, frame := At(w.pending, route), route in w.held, w.frame + 1;
    PolledLists(w, clock, route);
    if held {
      HeldSweepExtends(entries, frame, clock);
    } else {
      SweepSorts(entries, frame, clock);
    }
  }

  lemma PolledLists(w: Waits, clock: int, route: int)
    ensures var after, entries, held := Poll(w, clock), At(w.pending, route), route in w.held;
            && (route in after.pending <==> At(after.pending, route) != [])
            && At(after.pending, route) == Remaining(entries, held, w.frame + 1, clock)
            && At(after.givenUp, route) == At(w.givenUp, route) + Expired(entries, held, w.frame + 1, clock)
  {
    NothingSwept(route in w.held, w.frame + 1, clock);
    hide Remaining, Expired;
  }

  lemma NothingSwept(held: bool, frame: int, clock: int)
    ensures Remaining([], held, frame, clock) == [] && Expired([], held, frame, clock) == []
  {
  }

  /** Asking on a live route that is owed no flush calls the entry, at once and last; otherwise it waits last. */
  lemma AskCallsOrParks(w: Waits, route: int, live: bool, entry: Entry)
    ensures var after, now := WhenLive(w, route, live, entry), live && route !in w.deferred;
            && after == w.(asked := after.asked, called := after.called, pending := after.pending)
            && At(after.asked, route) == At(w.asked, route) + [entry]
            && At(after.called, route) == At(w.called, route) + (if now then [entry] else [])
            && At(after.pending, route) == At(w.pending, route) + (if now then [] else [entry])
            && forall r :: r != route ==> At(after.asked, r) == At(w.asked, r) && At(after.called, r) == At(w.called, r)
                                          && At(after.pending, r) == At(w.pending, r)
  {
  }

  /** A flush that is not deferred calls exactly what waited, in order; a deferred one is owed once. */
  lemma FlushCallsAll(w: Waits, route: int)
    ensures var after := FlushLive(w, route);
            && after == w.(called := after.called, pending := after.pending, deferred := after.deferred)
            && (forall r ::
                  r != route ==> At(after.called, r) == At(w.called, r) && At(after.pending, r) == At(w.pending, r))
            && (w.depth <= 0 ==>
                  && At(after.called, route) == At(w.called, route) + At(w.pending, route)
                  && route !in after.pending && after.deferred == w.deferred)
            && (w.depth > 0 ==>
                  && after.called == w.called && after.pending == w.pending
                  && after.deferred == w.deferred + if route in w.pending && route !in w.deferred then [route] else [])
  {
  }

  lemma {:induction false} DrainCalls(w: Waits, route: int)
    requires w.depth == 0
    ensures var after := Drained(w);
            && after == w.(called := after.called, pending := after.pending, deferred := [])
            && At(after.called, route) ==
               At(w.called, route) + (if route in w.deferred then At(w.pending, route) else [])
            && At(after.pending, route) == (if route in w.deferred then [] else At(w.pending, route))
    decreases |w.deferred|
  {
    if w.deferred != [] {
      var rest, first := w.(deferred := w.deferred[1..]), w.deferred[0];
      assert w.deferred == [first] + w.deferred[1..];
      FlushCallsAll(rest, first);
      DrainCalls(FlushLive(rest, first), route);
    }
  }

  /** Closing the last deferral calls exactly what waited on the routes owed a flush; closing another calls nothing. */
  lemma ResumeCalls(w: Waits, route: int)
    ensures var after := ResumeFlushes(w);
            && after ==
               w.(called := after.called, pending := after.pending, deferred := after.deferred, depth := w.depth - 1)
            && (w.depth != 1 ==> after == w.(depth := w.depth - 1))
            && (w.depth == 1 ==>
                  && after.deferred == []
                  && At(after.called, route) ==
                     At(w.called, route) + (if route in w.deferred then At(w.pending, route) else [])
                  && At(after.pending, route) == (if route in w.deferred then [] else At(w.pending, route)))
  {
    if w.depth == 1 {
      DrainCalls(w.(depth := 0), route);
    }
  }

  /** Failing gives up on exactly what waited, in order, and clearing drops exactly what waited everywhere. */
  lemma FailAndClear(w: Waits, route: int)
    ensures var after := FailLive(w, route);
            && after == w.(givenUp := after.givenUp, pending := after.pending)
            && At(after.givenUp, route) == At(w.givenUp, route) + At(w.pending, route) && route !in after.pending
            && forall r :: r != route ==>
                 At(after.givenUp, r) == At(w.givenUp, r) && At(after.pending, r) == At(w.pending, r)
    ensures var after := Cleared(w);
            && after.pending == map[] && after.held == {} && after.deferred == [] && after.frame == 0
            && after.depth == w.depth && after.asked == w.asked && after.called == w.called &&
               after.givenUp == w.givenUp
            && forall r :: At(after.dropped, r) == At(w.dropped, r) + At(w.pending, r)
  {
  }

  /** What a sweep gives up on one route: exactly what waits there past its deadline, unless the route is held. */
  lemma {:induction false} ExpiredAreOverdue(entries: seq<Entry>, held: bool, frame: int, clock: int, entry: Entry)
    ensures entry in Expired(entries, held, frame, clock) <==>
              entry in entries && !held && (if entry.onClock then clock else frame) >= entry.deadline
  {
    if entries == [] {
    } else {
      hide Remaining;
      ExpiredAreOverdue(entries[..|entries| - 1], held, frame, clock, entry);
      SweepLast(entries, held, frame, clock);
      assert entries == entries[..|entries| - 1] + [entries[|entries| - 1]];
    }
  }

  /** The call gives up on the entry: it fails its route, or sweeps past its deadline while the route is not held. */
  ghost predicate GivesUpOn(w: Waits, op: Op, route: int, entry: Entry) {
    && entry in At(w.pending, route)
    && match op
       case Fail(r) => r == route
       case Sweep(clock) => route !in w.held && (if entry.onClock then clock else w.frame + 1) >= entry.deadline
       case _ => false
  }

  lemma ApplyGivesUp(w: Waits, op: Op, route: int, entry: Entry)
    requires entry in At(Apply(w, op).givenUp, route) && entry !in At(w.givenUp, route)
    ensures GivesUpOn(w, op, route, entry)
  {
    hide Remaining, Expired;
    match op
    case Sweep(clock) => SweptEntry(w, clock, route, entry);
    case Resume => DrainGivesUpNothing(w.(depth := w.depth - 1));
    case _ =>
  }

  lemma SweptEntry(w: Waits, clock: int, route: int, entry: Entry)
    requires entry in At(Poll(w, clock).givenUp, route) && entry !in At(w.givenUp, route)
    ensures GivesUpOn(w, Sweep(clock), route, entry)
  {
    assert forall frame, held: bool :: Expired([], held, frame, clock) == [];
    hide Remaining, Expired;
    ExpiredAreOverdue(At(w.pending, route), route in w.held, w.frame + 1, clock, entry);
    var gone := Expired(At(w.pending, route), route in w.held, w.frame + 1, clock);
    assert At(Poll(w, clock).givenUp, route) == At(w.givenUp, route) + gone;
  }

  lemma {:induction false} DrainGivesUpNothing(w: Waits)
    ensures Drained(w).givenUp == w.givenUp
    decreases |w.deferred|
  {
    if w.depth == 0 && w.deferred != [] {
      DrainGivesUpNothing(FlushLive(w.(deferred := w.deferred[1..]), w.deferred[0]));
    }
  }

  /**
   Over any run, whatever was given up on was waiting at some call that failed its route, or that swept
   past its deadline while its route was not held.
   */
  lemma {:induction false} GivenUpWhenOverdue(ops: seq<Op>, route: int, entry: Entry) returns (n: nat)
    requires entry in At(Run(ops).givenUp, route)
    ensures n < |ops| && GivesUpOn(Run(ops[..n]), ops[n], route, entry)
  {
    hide Apply, GivesUpOn;
    var early := ops[..|ops| - 1];
    if entry in At(Run(early).givenUp, route) {
      n := GivenUpWhenOverdue(early, route, entry);
      assert early[..n] == ops[..n];
    } else {
      n := |ops| - 1;
      ApplyGivesUp(Run(early), ops[n], route, entry);
    }
  }

  /** A sweep lets nothing expire on a held route. */
  lemma HeldRoutesNeverExpire(w: Waits, clock: int, route: int)
    requires route in w.held
    ensures At(Poll(w, clock).givenUp, route) == At(w.givenUp, route)
    ensures Ids(At(Poll(w, clock).pending, route)) == Ids(At(w.pending, route))
  {
    var frame := w.frame + 1;
    assert Remaining([], true, frame, clock) == [];
    hide Remaining, Expired, Ids;
    HeldSweepKeepsAll(At(w.pending, route), frame, clock);
    assert At(Poll(w, clock).pending, route) == Remaining(At(w.pending, route), true, frame, clock);
  }

  /** While flushes are deferred, no call but asking about a live route calls anything. */
  lemma DeferringCallsNothing(w: Waits, op: Op)
    requires w.depth > 0 && !(op.Resume? && w.depth == 1) && !(op.Ask? && op.live && op.route !in w.deferred)
    ensures Apply(w, op).called == w.called
  {
    if op.Resume? { DrainSettles(w.(depth := w.depth - 1)); }
  }

  /** Closing the last deferral drains the queue: no route that was owed a flush has anything waiting. */
  lemma LastResumeDrains(w: Waits, route: int)
    requires w.depth == 1
    ensures var after := ResumeFlushes(w);
            after.depth == 0 && after.deferred == [] && (route in w.deferred ==> route !in after.pending)
  {
    DrainSettles(w.(depth := 0));
  }
}
