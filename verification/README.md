# Verified model of the networking core

A Dafny 4.11 model of the in-memory state machines under `extension/src`, with proofs of what they
promise over whole runs. `dafny verify dfyconfig.toml` checks everything.

Each component is modelled twice where the source updates state in place: once as functions on values
that say what one call does, and once as a class or method that does it step by step. The whole-run
theorems are about the functions, over sequences of calls. The classes keep ghost logs of their calls, and
their `Valid()` says that the fields are what running those calls leaves: `LagBook`, `LivenessCore` (since
the last `clear` for the allocation), `DatagramSeqBook`, `AckBook`, `ClockEngine` (since it was last
configured or cleared), `SceneMembership` (the edges announced since it was made or cleared), `RateWindow`
and `CarrierBuffers`. Every method that changes a log says how the log goes on. So a theorem about runs holds
of every such object; where that is a main result it is also stated of the object, as
`LivenessCore.IndexIsBijective`, `EntriesAreAccountedFor` and `MintsAbovePromotion`, `AckBook.ReportedOnce`,
`SceneMembership.AnnouncedEdgesAlternate` and `ClockEngine.CreditIsKept` do. The two-party lease protocol, the
rewind and the codecs are on values.

| files | component |
|---|---|
| `LagHistory`, `LagOrder`, `LagCodec`, `LagBook` | the lag-compensation book: a power-of-two ring of deduplicated samples, a second ring of recorded ticks, lazily opened side storage, and exactly when together they answer like the plain log |
| `RouteLeases`, `LeaseProtocol`, `RouteIndex`, `LivePending`, `LivenessCore` | route minting with server-granted leases as a two-party protocol with loss and hand-over, the route index and tombstones, deferred and expiring callbacks |
| `AckHistory`, `RoundTrips`, `DatagramSeqBook`, `AckFlight`, `AckBook` | 16-bit sequence numbers and the 32-bit history against unbounded numbers, the round-trip estimator, and the sender's book that turns acks into deliveries and losses |
| `ClockModel`, `ClockRuns`, `ClockEngine` | the tick accumulator, drift correction and the simulation gate, over the reals |
| `BitStreams`, `Base64Url` | the base64 loops against bit strings |
| `SceneMembership` | reasons, subscriptions and the edge log |
| `RateWindow` | the pruned sliding window against the full call log |
| `CarrierBatches`, `CarrierBuffers` | batching under a byte budget, with row descriptors |
| `Rewind` | saving, writing and restoring owners |
| `Utf8`, `AuthProtocol` | the handshake frames and the capped reason |
| `Bits`, `Reals`, `Wrappers` | bit operators on naturals; powers over the reals; options and engine values |

Conventions. A hash map's iteration order is not specified, so loops over one pick any member. Machine
integers are unbounded except where wrapping matters (sequence numbers, words of frames, the base64
accumulator, the rate limit's comparison), and there it is written out. Times are passed in.
What a function on values computes is stated again without its helpers: as a closed form
(`RoundTrips.EstimateIsOfSamples`), of the slots, keys or records a call names (`Rewinds.BodySeesThePast`,
`LagCodec.StagedReadsBack`, `RouteIndex.ApplyMeans`), or of what a call leaves behind
(`ClockRuns.FrameRunsWhatIsOwed`, `LivePending.PollMeaning`), with the source's constants written out.
The runs are sequences; `Run` recursions append at the end, as calls do. Preconditions on a run
(`AllClean`, `Near`, `NoStall`) stand where the property needs them and nowhere else.

Findings, where the code does not keep the plain form of a promise:

- the 32-bit ack history drops the number it jumps from when a packet advances by exactly 32
  (`extension/src/datagram_seq_book.cpp:52`); it is exact if and only if no such number is outstanding
  (`AckHistory.HistoryIsExactIff`);
- the lag book does not answer like the log of its calls when calls come late: a late call can run over a
  skipped one (`LagOrder.LateCallMisreads`), be refused by a full ring though its tick is recorded
  (`LagOrder.RefusedCallUnanswered`), or evict what a recorded tick still needs
  (`LagOrder.EvictedCallUnanswered`); `LagOrder.AlwaysAnswersIff` says exactly which calls do;
- a new server whose counter does not cover what was minted and what it takes over can mint a route twice,
  as when the former server stays silent past the deadline (`LeaseProtocol.SilentServerMintsAgain`,
  `extension/src/api/session/transfer.cpp:931`); `LeaseProtocol.HandOverIsSafeIff` says exactly which do not;
- a rewind given one slot twice leaves the past behind (`Rewinds.RepeatedSlotKeepsThePast`);
  `Rewinds.RestoredIff` says exactly which keys are restored;
- forcing a negative number of ticks on a gated clock charges simulation credit for ticks that did not
  run (`ClockRuns.NegativeForceUnbalances`); nothing else does (`ClockRuns.CreditIsConservedIff`);
- a base64url text whose last letter carries stray bits decodes, and does not encode back to itself
  (`Base64Url.QRDoesNotComeBack`, exactly when: `Base64Url.DecodedEncodesIff`);
- renaming members at a hand-over repeats reasons and edges when two members that become one are subscribed to
  the same scene (`SceneMemberships.SharedSceneRepeats`); `SceneMemberships.RenameKeepsIff` says exactly when
  it does not.

## Model

| member | source | states |
|---|---|---|
| LagBooks.LagBook.SampleOf | extension/src/lagcomp_book.cpp:278-327 | After clean calls in whatever order, from tick 0 on, every `t` at or after the floor and the oldest recorded tick answers with the payload most recently recorded at the greatest recorded tick at or before `t`, unless the sample that holds it is from before the floor: exactly its keys among the first 64 of the codec come back, each quantised; calls whose ticks never went back are clean, and with no floor above the first of them every such `t` is answered; before the floor or the oldest recorded tick, and on an empty book, nothing is |
| LagHistory.RingsAnswerLikeTheLog | extension/src/lagcomp_book.cpp:183-290 | In an in-order run both rings together choose a sample for every such `t`, and its row is the row of the call that answers in the plain log: neither ring evicts what the other still promises |
| LagBooks.ChosenAnswers | extension/src/lagcomp_book.cpp:278-327 | The sample the two rings choose at `t` carries the staged row of the call that answers at `t` |
| LagHistory.RunKeepsOrder | extension/src/lagcomp_book.cpp:213-252 | After calls at ticks in any order, with overwrites, middle insertions, refusals and evictions, the held ticks are strictly increasing by position and at most `window` are held |
| LagHistory.StoredKeepsOrder | extension/src/lagcomp_book.cpp:213-252 | One call keeps the held ticks strictly increasing and at most `window` |
| LagHistory.WritesIff | extension/src/lagcomp_book.cpp:213-252 | Recording reports that it wrote exactly when the ring then holds the very call |
| LagHistory.HeldSampleIsLatestCall | extension/src/lagcomp_book.cpp:213-252 | Whatever the order of the calls, each held sample is the latest call made at its own tick |
| LagHistory.SeenIsLastDistinct | extension/src/lagcomp_book.cpp:183-198 | The ring of recorded ticks is the last `window` entries of the list of recorded ticks with immediate repeats removed |
| LagOrder.AlwaysAnswersIff | extension/src/lagcomp_book.cpp:183-290 | For calls from tick 0 on in any order, the rings answer every `t` from the oldest recorded tick on like the plain log after every call, if and only if every call is clean: it repeats the row before its place or no earlier call lies between its tick and the next held one, a full ring does not refuse it, and it evicts no sample a recorded tick still needs |
| LagOrder.AgreesIff | extension/src/lagcomp_book.cpp:213-252 | In any ring whose held ticks are ticks of calls, one call keeps the ring in agreement with the plain log wherever it reaches if and only if it is older than every sample, repeats the row before its place, or runs over no earlier call |
| LagOrder.ReachIff | extension/src/lagcomp_book.cpp:183-276 | One call leaves a sample at or before every recorded tick if and only if a full ring neither refuses it nor evicts for it what a recorded tick still needs |
| LagOrder.OlderThanAll | extension/src/lagcomp_book.cpp:231-252 | A call older than every sample goes in front of a ring with room; a full one refuses it and stays as it was, so its tick is recorded and reads as nothing |
| LagOrder.CleanRunIsSound | extension/src/lagcomp_book.cpp:183-252 | After clean calls the ring agrees with the log wherever it reaches, and reaches the oldest recorded tick |
| LagOrder.InOrderIsClean | extension/src/lagcomp_book.cpp:213-252 | Calls whose ticks never go back are clean |
| LagOrder.LateCallMisreads | extension/src/lagcomp_book.cpp:213-252 | One way to fail: calls `a` at 1, `a` at 3, `b` at 2 make tick 3 read as `b`, because the equal call at 3 was skipped |
| LagOrder.RefusedCallUnanswered | extension/src/lagcomp_book.cpp:231-234 | Another: with one slot, `a` at 5 then `b` at 3 leaves 3 recorded and unanswered, because the full ring refused it |
| LagOrder.EvictedCallUnanswered | extension/src/lagcomp_book.cpp:231-238 | The third: with two slots, `a` at 9, `b` at 5, `c` at 7 leaves 5 recorded and unanswered, because 7 evicted it |
| LagBooks.CleanAnswers | extension/src/lagcomp_book.cpp:278-327 | After clean calls the newest sample at or before `t` carries the staged row of the call that answers at `t`, and is chosen exactly when neither `t` nor it is from before the floor |
| LagHistory.OldestOfAscending | extension/src/lagcomp_book.cpp:269-276 | The running minimum over the recorded ring is its first entry when those ticks ascend from a non-negative one |
| LagHistory.SamplesReachBack | extension/src/lagcomp_book.cpp:183-252 | In an in-order run the sample ring reaches back at least as far as the recorded ring |
| LagCodec.StagedReadsBack | extension/src/lagcomp_book.cpp:113-138 | For distinct keys, exactly the payload's keys at positions 0 to 63 of the codec's list come back, each with its quantised value |
| LagCodec.KeysCodecReadsBack | extension/src/lagcomp_book.cpp:73-138 | With the codec made from a list of distinct keys, the payload comes back as exactly itself restricted to the keys at positions 0 to 63 |
| LagCodec.NamedReadsBack | extension/src/lagcomp_book.cpp:113-138 | With at most 64 keys, exactly the payload's keys that are in the list come back |
| LagCodec.KeysCodecReadsAll | extension/src/lagcomp_book.cpp:73-138 | With the codec made from at most 64 distinct keys, the payload comes back as exactly itself restricted to them |
| LagBooks.WrapIsMask | extension/include/netw/lagcomp_book.hpp:39-45 | The ring index `(head + i) & (window - 1)` is the remainder modulo a power-of-two window |
| LagBooks.LagBook.constructor | extension/src/lagcomp_book.cpp:88-111 | A new book is valid, empty and uncompiled |
| LagBooks.LagBook.SetWindow | extension/src/lagcomp_book.cpp:39-48 | The window becomes the least power of two that holds the samples asked for, and a compiled book starts over |
| LagBooks.LagBook.SizeRings | extension/src/lagcomp_book.cpp:88-111 | The rings are empty and sized to the window |
| LagBooks.LagBook.Compile | extension/src/lagcomp_book.cpp:50-71 | The codec is sealed from the columns that are declared, in their order, or from all of them when nothing is, and the rings start over |
| LagCodec.Declares | extension/src/lagcomp_book.cpp:23-35 | A key is declared when it is listed, or when nothing is |
| LagCodec.DeclaredInOrder | extension/src/lagcomp_book.cpp:50-63 | Each column is kept or dropped on its own name, and those kept stay in their order |
| LagBooks.LagBook.CompileKeys | extension/src/lagcomp_book.cpp:73-86 | An uncompiled key list becomes a codec that carries every field |
| LagBooks.LagBook.Stage | extension/src/lagcomp_book.cpp:113-138 | The staged masks, words and carried values are exactly the staging of the payload |
| LagBooks.LagBook.StagedEquals | extension/src/lagcomp_book.cpp:140-161 | Comparing masks, words and carried fields decides exactly whether the slot stores the staged row, lazy side storage included |
| LagBooks.LagBook.WriteStaged | extension/src/lagcomp_book.cpp:163-181 | One slot stores the staged row and every other slot is kept, whether or not the side storage had to be opened |
| LagBooks.LagBook.CopyEntry | extension/src/lagcomp_book.cpp:254-267 | One slot becomes another and every other slot is kept |
| LagBooks.LagBook.NoteRecorded | extension/src/lagcomp_book.cpp:183-198 | The ring of recorded ticks takes the tick unless it is its newest, turning when full |
| LagBooks.LagBook.Record | extension/src/lagcomp_book.cpp:213-252 | For ticks in any order the rings afterwards are what the whole log of calls leaves in them; the answer says whether the call was written |
| LagBooks.LagBook.RecordStaged | extension/src/lagcomp_book.cpp:213-252 | The staged row overwrites, is skipped, is inserted, evicts or is refused as the specification of one call says |
| LagBooks.LagBook.FindPlace | extension/src/lagcomp_book.cpp:218-224 | The backward scan finds the position after every held tick at or before the new one |
| LagBooks.LagBook.OpenPlace | extension/src/lagcomp_book.cpp:239-247 | Shifting slot by slot moves every entry from a position on one place up and loses none |
| LagBooks.LagBook.Insert | extension/src/lagcomp_book.cpp:231-252 | A full ring drops its oldest entry before inserting, and refuses an entry older than all of them |
| LagBooks.LagBook.OldestRecorded | extension/src/lagcomp_book.cpp:269-276 | The scan is the running minimum of the recorded ticks |
| LagBooks.LagBook.SampleTick | extension/src/lagcomp_book.cpp:278-290 | The tick of the greatest held sample at or before `t`, or -1 below the floor, below the oldest recorded tick or when the sample is below the floor |
| LagBooks.LagBook.FindSample | extension/src/lagcomp_book.cpp:200-211 | The scan may stop at the first older sample: it returns the slot of that tick exactly when one is held |
| LagBooks.LagBook.SampleAt | extension/src/lagcomp_book.cpp:292-327 | The chosen sample read back field by field, with any floor and any order of calls |
| LagBooks.LagBook.TrimBefore | extension/src/lagcomp_book.cpp:341-343 | The floor is raised, never lowered |
| LeaseProtocol.NoRouteMintedTwice | extension/src/liveness_core.cpp:95-189 | Over every run of server mints, offers, in-order deliveries, peer mints, presentations with any loss, departures and hand-overs whose new counter covers what was minted and what is taken over, no route is minted twice by anyone |
| LeaseProtocol.HandOverIsSafeIff | extension/src/api/session/transfer.cpp:858-967 | In every state a covered run reaches, a hand-over leads to no repeated mint under any covered continuation if and only if its new counter is at or above every route minted and the end of every lease it takes over |
| LeaseProtocol.ToldHandOverIsSafeIff | extension/src/api/session/transfer.cpp:858-967 | A hand-over told at least every floor that is reported, as the source's is, is safe if and only if no route above the new counter was minted by the old server, or by a peer that does not report or joined anew since |
| LeaseProtocol.HighIsRemembered | extension/src/liveness_core.cpp:95-111 | A leaseholder that stays joined remembers a number at or above every route it minted |
| LeaseProtocol.UncoveredMintsTwice | extension/src/api/session/transfer.cpp:858-967 | Below that, a continuation of server and peer mints alone mints some route twice |
| LeaseProtocol.SilentServerMintsAgain | extension/src/api/session/transfer.cpp:924-967 | A server that minted and stays silent past the deadline: the next server, told nothing, mints its route again |
| LeaseProtocol.ToldTheCounterCovers | extension/src/api/session/transfer.cpp:858-859 | A new server told the old one's counter covers everything |
| LeaseProtocol.SpansCarryTheLease | extension/src/api/session/transfer.cpp:670-680 | The spans of a lease, restored one by one, restore exactly what is unspent of it |
| LeaseProtocol.CappedReportCarriesIff | extension/src/api/session/transfer.cpp:670-680 | A report, which carries at most 127 spans, restores the whole unspent lease if and only if at most 127 of its blocks have a route left |
| LeaseProtocol.RecordedKeeps | extension/src/liveness_core.cpp:95-252 | Every step keeps on record that what was presented, accepted or used a lease block up was minted |
| LeaseProtocol.ClaimsAreAccepted | extension/src/liveness_core.cpp:191-234 | In every state such a run reaches the server accepts the next mint of a peer it sees, however many before it were lost, then refuses that route and every lower one of the peer, and leaves every other peer's grants as they were |
| LeaseProtocol.StepsBackAreRefused | extension/src/liveness_core.cpp:204-234 | At any later time, and by any later server, a repeat or a step backwards is refused and changes nothing |
| LeaseProtocol.StepKeeps | extension/src/liveness_core.cpp:95-252 | Every step keeps the protocol invariant, a hand-over when its counter covers: chains of blocks ascend, are apart from each other and from every mint, and are covered by the server's grants, and past mints stay on record |
| LeaseProtocol.RunKeeps | extension/src/liveness_core.cpp:95-252 | The invariant holds in every state such a run reaches |
| LeaseProtocol.PromoteKeeps | extension/src/liveness_core.cpp:133-189 | A leaseholder that takes over as server, restoring the spans of whichever survivors report and minting above whatever floor it is told, keeps the invariant when its counter covers what was minted and what is taken over |
| LeaseProtocol.RestoreAllMeaning | extension/src/liveness_core.cpp:165-189 | The grants restored from the survivors' reported spans cover their leases and nothing else |
| LeaseProtocol.PeerMintKeeps | extension/src/liveness_core.cpp:95-111 | A leaseholder's mint keeps the invariant |
| LeaseProtocol.OfferKeeps | extension/src/liveness_core.cpp:191-202 | Granting a block keeps the invariant |
| LeaseProtocol.DeliverKeeps | extension/src/liveness_core.cpp:122-131 | Installing the next block in order keeps the invariant |
| LeaseProtocol.PresentKeeps | extension/src/liveness_core.cpp:218-234 | Presenting a mint keeps the invariant and is accepted |
| LeaseProtocol.DepartKeeps | extension/src/liveness_core.cpp:246-252 | Abandoning a peer's grants keeps the invariant |
| RouteLeases.SpendMeaning | extension/src/liveness_core.cpp:204-234 | A route is spent exactly when the peer was granted it; afterwards the peer holds exactly its granted routes above it, and every other peer holds what it held |
| RouteLeases.SpendLeavesOthers | extension/src/liveness_core.cpp:218-234 | The list of every other peer's blocks is untouched by a spend |
| RouteLeases.SpendDropsExhausted | extension/src/liveness_core.cpp:218-234 | After a spend the peer keeps no block without a route left |
| RouteLeases.GrantMeaning | extension/src/liveness_core.cpp:191-202 | A grant hands exactly the next `count` routes of the counter to the peer, and nothing to anyone else |
| RouteLeases.RestoreMeaning | extension/src/liveness_core.cpp:180-189 | A restored span is granted to the peer again, and nothing else is |
| RouteLeases.AbandonMeaning | extension/src/liveness_core.cpp:246-252 | Abandoning a peer takes back every route granted to it and none of another's |
| RouteLeases.RunRemembers | extension/src/liveness_core.cpp:95-202 | Nothing a core ever minted, was leased or granted is forgotten, not even a lease that was used up and dropped |
| RouteLeases.CounterOnlyGrows | extension/src/liveness_core.cpp:95-189 | Without a new lease an unleased core's counter never falls |
| RouteLeases.NoRouteSkipped | extension/src/liveness_core.cpp:95-189 | Over every run of mints and grants that neither raises, leaves nor installs, every route up to the counter was minted or granted |
| RouteLeases.CounterIsNatural | extension/src/liveness_core.cpp:95-189 | No call makes the counter negative |
| RouteLeases.MintsNext | extension/src/liveness_core.cpp:95-155 | An unleased core mints the number after the greatest of its counter and the floor it is raised to, and after leaving a lease the one after its floor |
| RouteLeases.PromotionIsSafe | extension/src/liveness_core.cpp:133-155 | After any run, `leave_lease` and any further run without a new lease, the next mint or grant is above every route ever minted, leased or granted before, and above every route bound or restored at that moment |
| RouteLeases.UnboundRouteIsForgotten | extension/src/liveness_core.cpp:143-155 | "At that moment" is needed: a route bound and unbound again can be minted |
| RouteLeases.IssuedStays | extension/src/liveness_core.cpp:95-202 | What a log says was issued, every log that goes on from it says too |
| LivenessCores.LivenessCore.IssuedIsRemembered | extension/src/liveness_core.cpp:95-202 | In every core, every route minted, leased or granted since its last `clear` is at or below a counter or still leased |
| LivenessCores.LivenessCore.MintsAbovePromotion | extension/src/liveness_core.cpp:133-155 | A core that left its lease and was given no other mints above everything it minted, was leased or granted before, and above what was bound or granted at that moment |
| LivenessCores.LivenessCore.LeaseSpans | extension/src/liveness_core.cpp:165-174 | The bases and counts of the blocks that have a route left, in order |
| LivenessCores.LivenessCore.Clear | extension/src/liveness_core.cpp:606-624 | Everything starts over, every handle with a record is given back, waiting callbacks are dropped uncalled, and what moved reads as overflowed; the depth of the deferrals stays |
| LivenessCores.LivenessCore.ReserveRoute | extension/src/liveness_core.cpp:95-111 | Mints from the lease or the counter, dropping exhausted blocks; what is minted is on the core's log as issued |
| LivenessCores.LivenessCore.InstallLease | extension/src/liveness_core.cpp:122-131 | A granted block joins the end of the lease |
| LivenessCores.LivenessCore.RouteFloor | extension/src/liveness_core.cpp:143-155 | The loops over the books find the least number no route this core knows exceeds |
| LivenessCores.LivenessCore.LeaveLease | extension/src/liveness_core.cpp:133-155 | The counter becomes the floor, at or above every route the core minted, was leased or granted since its last `clear`, and the lease is gone |
| LivenessCores.LivenessCore.RestoreGrant | extension/src/liveness_core.cpp:180-189 | A reported span becomes a grant again |
| LivenessCores.LivenessCore.GrantLease | extension/src/liveness_core.cpp:191-202 | A new block above the counter is granted to the peer, and all of it is on the log as issued |
| LivenessCores.LivenessCore.LeaseBlockHolding | extension/src/liveness_core.cpp:204-212 | The first block of the peer that holds the route |
| LivenessCores.LivenessCore.SpendLease | extension/src/liveness_core.cpp:218-234 | Spends the route and prunes the peer's blocks before it, in place |
| LivenessCores.LivenessCore.PruneGrants | extension/src/liveness_core.cpp:222-232 | The in-place removal keeps exactly the blocks the specification keeps, in order |
| LivenessCores.LivenessCore.AbandonLease | extension/src/liveness_core.cpp:246-252 | The peer's blocks are removed and the others keep their order |
| RouteIndex.RunIsBijective | extension/src/liveness_core.cpp:254-323 | In every reachable state the route index names an entity at a route exactly when that entity's record holds the route |
| RouteIndex.RoutesAreUnshared | extension/src/liveness_core.cpp:254-294 | In every reachable state two entities with the same positive route are the same entity |
| RouteIndex.ApplyKeepsBijection | extension/src/liveness_core.cpp:254-416 | Every call keeps the bijection |
| RouteIndex.ApplyIsLawful | extension/src/liveness_core.cpp:254-416 | A record leaves DEAD only through `bind_route`, with its epoch one higher and its anchor reset; the state never falls back otherwise; the wire epoch never falls; only following the wire lowers an epoch |
| RouteIndex.ApplyMeans | extension/src/liveness_core.cpp:254-416 | In a bijective index each call does to the records exactly what `Effect` says of the records alone, the holder of a route found without the index, and leaves every other record |
| RouteIndex.RunMeans | extension/src/liveness_core.cpp:254-416 | After every run a further call does exactly that, and the index then answers for each route with the entity whose record holds it |
| RouteIndex.AnswersMean | extension/src/liveness_core.cpp:254-416 | What binding, unbinding, setting, hiding and adopting answer, told of the records alone |
| RouteIndex.EpochCountsRevivals | extension/src/liveness_core.cpp:254-282 | Without following the wire, an entity's epoch is at least the number of times it came back from DEAD since the last `clear` |
| RouteIndex.EpochIsRevivals | extension/src/liveness_core.cpp:254-282 | Over every run that neither raises an epoch to the wire's nor follows it, an entity's epoch is exactly the number of its returns from the tombstone since the last clear |
| RouteIndex.WireEpochNeverFalls | extension/src/liveness_core.cpp:316-337 | The wire epoch of a record never falls between one `clear` and the next |
| LivenessCores.LivenessCore.IndexIsBijective | extension/src/liveness_core.cpp:254-381 | In every core a route names an entity exactly when that entity's record holds the route, and no two entities share a positive one |
| LivenessCores.LivenessCore.RidOf | extension/src/liveness_core.cpp:377-381 | The one entity whose record holds the route, or none |
| LivenessCores.LivenessCore.Adopt | extension/src/liveness_core.cpp:80-89 | A handle gets a record, logged as created, if it has none and can be retained |
| LivenessCores.LivenessCore.RaiseEpochToWire | extension/src/liveness_core.cpp:325-330 | In place, the record that holds the route, if one does, has its epoch raised to the wire's when that is higher, and no other record changes |
| LivenessCores.LivenessCore.FollowWireEpoch | extension/src/liveness_core.cpp:332-337 | In place, the epoch of the record that holds the route becomes the wire's once there is one, and no other record changes |
| LivenessCores.LivenessCore.SetRouteAnchor | extension/src/liveness_core.cpp:349-361 | A positive anchor and its author are set on the record that holds the route, and no other record changes |
| LivenessCores.LivenessCore.TakeMoved | extension/src/liveness_core.cpp:51-72 | Since the last take, exactly the routes noted, in order; or word that there were more than 4096 or that the core was cleared |
| LivenessCores.LivenessCore.BindRoutesData | extension/src/liveness_core.cpp:434-449 | Afterwards each positive listed route is live with nothing waiting on it, unless flushes are deferred, and every other route names the same entity in the same state with the same callbacks waiting; all logs go on from where they were, and exactly the positive routes are noted as moved, in order |
| LivenessCores.LivenessCore.TombstoneRoutesData | extension/src/liveness_core.cpp:451-464 | Afterwards the entity at each positive listed route is dead, every other route is in the same state, and no route names another entity; the log goes on, and exactly the routes whose entity was not dead before are noted as moved, each once, in order |
| RouteIndex.BindsThere | extension/src/liveness_core.cpp:254-282 | Binding an entity that holds no other route to a free route or its own succeeds, goes live there and changes what is at no other route |
| LivenessCores.LivenessCore.EntityCreate | extension/src/liveness_core.cpp:74-78 | A fresh handle gets a record without a route, unknown, at epoch 0 and wire epoch -1, and nothing else changes |
| LivenessCores.LivenessCore.BindRoute | extension/src/liveness_core.cpp:254-282 | In place, a positive route that no other record holds is taken: the record is live there, one epoch on with its anchor reset if it was dead, and no other record changes; otherwise nothing does. The index log grows by the bind, the allocation log by the release of the old route and the bind, and the route is noted as moved exactly when it bound |
| LivenessCores.LivenessCore.UnbindRoute | extension/src/liveness_core.cpp:284-294 | In place, the record holds no route afterwards and is otherwise as before, and no other record changes; both logs go on from where they were |
| LivenessCores.LivenessCore.SetState | extension/src/liveness_core.cpp:392-406 | In place, the state gives way only to a later one, and no other record changes; the record's route is noted as moved exactly when it did |
| LivenessCores.LivenessCore.HideRoute | extension/src/liveness_core.cpp:408-416 | In place, the record that holds the route becomes absent if it was live, and no other record changes; the route is noted as moved exactly then |
| LivenessCores.LivenessCore.AdoptEpoch | extension/src/liveness_core.cpp:316-323 | In place, the record that holds the route takes the wire epoch unless it is older than its own, and no other record changes |
| LivePending.EveryEntryIsAccountedFor | extension/src/liveness_core.cpp:466-621 | Over every run, `clear` included, the entries asked for on a route are, as a bag, those still pending, those called, those given up on and those a `clear` dropped; and no flush is owed while the depth is not positive |
| LivePending.HeldRoutesNeverExpire | extension/src/liveness_core.cpp:567-604 | A sweep gives up nothing on a held route and keeps all its entries |
| LivePending.GivenUpWhenOverdue | extension/src/liveness_core.cpp:466-604 | Over every run, whatever was given up on was waiting at a call that failed its route, or at a poll while its route was not held whose clock, for an entry on the clock, or whose frame, for one counted in frames, had reached its deadline |
| LivePending.ExpiredAreOverdue | extension/src/liveness_core.cpp:567-589 | A sweep gives up on exactly what waits on a route that is not held with a deadline at or before the clock, for an entry on the clock, or the frame, for one counted in frames |
| LivePending.PollMeaning | extension/src/liveness_core.cpp:556-604 | What a poll does to every route, with deadlines judged by the clock or the new frame as each entry asks, is what `Polled` says |
| LivePending.DeferringCallsNothing | extension/src/liveness_core.cpp:466-531 | While flushes are deferred nothing but asking about a route already live and not owed calls anything |
| LivePending.AskCallsOrParks | extension/src/liveness_core.cpp:466-485 | Asking on a live route that is owed no flush calls the entry, at once and last; otherwise it waits last; no other route is touched |
| LivePending.FlushCallsAll | extension/src/liveness_core.cpp:512-531 | A flush that is not deferred calls exactly what waited, in order; a deferred one is owed once and calls nothing |
| LivePending.LastResumeDrains | extension/src/liveness_core.cpp:503-531 | Closing the last deferral leaves the queue empty and nothing waiting on a route that was owed a flush |
| LivePending.ResumeCalls | extension/src/liveness_core.cpp:503-531 | Closing the last deferral calls exactly what waited on each route owed a flush, in order; closing another calls nothing |
| LivePending.FailAndClear | extension/src/liveness_core.cpp:533-546 | Failing a route gives up on exactly what waited there, in order; clearing drops exactly what waited everywhere |
| LivePending.SweepSplits | extension/src/liveness_core.cpp:567-604 | A sweep keeps or expires every entry and loses none |
| LivenessCores.LivenessCore.EntriesAreAccountedFor | extension/src/liveness_core.cpp:466-621 | In every core each callback asked for waits, was called, was given up on or was dropped, once, and no flush is owed while none is deferred |
| LivenessCores.LivenessCore.WhenLive | extension/src/liveness_core.cpp:466-485 | Calls at once exactly when the route is live in the index and owes no flush, and otherwise queues with its deadline |
| LivenessCores.LivenessCore.FlushLive | extension/src/liveness_core.cpp:512-531 | Flushes or defers, in place |
| LivenessCores.LivenessCore.ResumeFlushes | extension/src/liveness_core.cpp:503-510 | Drains the deferred queue when the depth reaches zero |
| LivenessCores.LivenessCore.FailLive | extension/src/liveness_core.cpp:533-546 | Everything waiting on the route is given up |
| LivenessCores.LivenessCore.SweepRoute | extension/src/liveness_core.cpp:576-598 | Splits one route's entries in place into those that remain and those that fire |
| LivenessCores.LivenessCore.SweepPending | extension/src/liveness_core.cpp:567-604 | In whatever order the routes are visited every one is swept once; the routes left with nothing waiting are listed in ascending order, each once, and no other |
| LivenessCores.LivenessCore.Poll | extension/src/liveness_core.cpp:556-604 | One frame on; then on each route that is not held an entry is given up on exactly when it is on the clock and the clock has reached its deadline, or counted in frames and the new frame has, and the others wait on unchanged, both in order; on a held route all wait on with the deadline their span after the clock or the new frame. The routes left with nothing waiting are listed in ascending order, each once, and no other |
| AckHistory.HistoryRefinesReceived | extension/src/datagram_seq_book.cpp:41-73 | For arrivals each within 32767 of the highest so far, the stored freshest is that maximum modulo 2^16, and bit k-1 is set exactly when max-k was received and is not the one number forgotten |
| AckHistory.HistoryIsExactIff | extension/src/datagram_seq_book.cpp:41-73 | The history says "set if and only if received" for 1 to 32 exactly when no number is forgotten |
| AckHistory.NoJumpOf32ForgetsNothing | extension/src/datagram_seq_book.cpp:49-57 | Without a forward jump of exactly 32 nothing is ever forgotten |
| AckHistory.JumpOf32Forgets | extension/src/datagram_seq_book.cpp:52-53 | A jump of exactly 32 does lose a number that was received |
| AckHistory.VerdictMeaning | extension/src/datagram_seq_book.cpp:41-73 | An arrival is judged fresh exactly when above everything received, duplicate or reordered within 32 of the maximum as it was or was not remembered, stale otherwise |
| AckHistory.FresherIsSerial | extension/src/datagram_seq_book.cpp:7-9 | The comparison is the order of serial numbers of section 3.2 of RFC 1982 |
| AckHistory.WrappedOrder | extension/src/datagram_seq_book.cpp:7-13 | Within 32767 of each other wrapped numbers order and measure like the unbounded ones |
| AckHistory.ForgottenIsAtTheEdge | extension/src/datagram_seq_book.cpp:49-57 | A forgotten number was received and is exactly 32 behind the maximum |
| AckHistory.WireTracksReceived | extension/src/datagram_seq_book.cpp:41-73 | A book that is told only the wrapped numbers holds the history of the unbounded ones |
| RoundTrips.SamplesAreRight | extension/src/datagram_seq_book.cpp:15-25 | Over every run each send is sampled at most once, and every sample is the time from the latest send of the acked number to the ack |
| RoundTrips.SampledIff | extension/src/datagram_seq_book.cpp:95-101 | An accepted ack yields a sample exactly when it names the latest send of its slot, that send has not been sampled and the clock has not gone back |
| RoundTrips.SampledIffRecent | extension/src/datagram_seq_book.cpp:95-101 | An accepted ack is sampled exactly when it names one of the newest 256 sends, not sampled yet and not later than now |
| RoundTrips.AcceptedAcksAdvance | extension/src/datagram_seq_book.cpp:91-96 | For acks within 32767 of the last accepted one, the accepted acks are exactly those above every ack before them, strictly increasing, and the last is the one kept |
| RoundTrips.EstimateIsBounded | extension/src/datagram_seq_book.cpp:102-117 | The smoothed value stays between the least and greatest sample, and jitter within the greater of half the first sample and their distance (after section 2 of RFC 6298) |
| RoundTrips.EstimateIsOfSamples | extension/src/datagram_seq_book.cpp:102-117 | Over every run the smoothed value is (7/8)^(n-1) of the first sample and 1/8 (7/8)^(n-k) of each k-th, and the jitter is the same with 3/4 and 1/4 over half the first sample and each later one's distance from the smoothed value before it: the gains of section 2 of RFC 6298 |
| RoundTrips.WireRunsAlike | extension/src/datagram_seq_book.cpp:85-118 | A book told only the wrapped acks keeps the same ack, estimate and samples |
| DatagramSeqBooks.DatagramSeqBook.NextSendSeq | extension/src/datagram_seq_book.cpp:15-25 | The number is the count of sends to the peer, wrapped; the stamp is filed; every other book and peer agrees with its log as before |
| DatagramSeqBooks.DatagramSeqBook.NoteInbound | extension/src/datagram_seq_book.cpp:41-73 | Afterwards the peer's books and counters are what its whole log of arrivals makes them, and the answer is whether the arrival was fresh |
| DatagramSeqBooks.CountsAre | extension/src/datagram_seq_book.cpp:59-73 | For arrivals each within 32767 of the highest, the reorders counted are those 1 to 32 below the highest that had not come or were forgotten, and the duplicates those that had or that repeat the highest |
| DatagramSeqBooks.DatagramSeqBook.NotePeerAck | extension/src/datagram_seq_book.cpp:85-118 | Afterwards the kept ack, history and stamps are what the peer's whole log makes them, every peer's estimate is the closed form of its samples (`RoundTrips.EstimateIsOfSamples`), and the answer is whether the ack advanced |
| DatagramSeqBooks.DatagramSeqBook.EstimatesAreTheSamples | extension/src/datagram_seq_book.cpp:85-118 | In every book each peer's estimate is the closed form of its samples alone |
| DatagramSeqBooks.DatagramSeqBook.PeersOwedEcho | extension/src/datagram_seq_book.cpp:144-154 | Lists each once, exactly the peers heard from whose freshest number was not the last one echoed |
| DatagramSeqBooks.DatagramSeqBook.ForgetPeer | extension/src/datagram_seq_book.cpp:156-166 | The peer starts over and every other peer keeps its logs |
| AckFlights.AckNamesTheReceived | extension/src/wire/ack_book.cpp:43-65 | For what a peer's inbound book reports, an ack names exactly the packets within 32 of the highest received that were received and not forgotten, so nothing is delivered that never arrived |
| AckFlights.ToldArrivedDid | extension/src/wire/ack_book.cpp:43-65 | A send the book told to have arrived did reach the peer, when the ack that said so is what the peer's inbound book reports and its highest is within 32767 of the send |
| AckBooks.AckBook.ReportedOnce | extension/src/wire/ack_book.cpp:17-86 | In every book a send tracked once is reported at most once, and not while it is in flight |
| AckFlights.NamesIsAcks | extension/src/wire/ack_book.cpp:43-65 | Within 32767 an ack names a wrapped number exactly when it names the unbounded one |
| AckFlights.TellKeeps | extension/src/wire/ack_book.cpp:36-84 | Whenever a packet leaves flight, tracked sends stay equal, as a bag, to those in flight and those told of |
| AckFlights.HighestAckIsHighest | extension/src/wire/ack_book.cpp:67-71 | For acks each within 32767 of the highest before, the one kept is the highest of the unbounded numbers, wrapped |
| AckBooks.AckBook.ProcessAck | extension/src/wire/ack_book.cpp:43-86 | For any ack and history: the packets in flight the ack names are delivered, those of the others more than 32 behind the highest ack by signed 16-bit distance are lost, the rest stay in flight; to what was told before come exactly the delivered as arrived by this ack, then the lost as behind the highest; and the highest is that of the acks processed |
| AckBooks.AckBook.TakeAcked | extension/src/wire/ack_book.cpp:43-65 | The acked packet and those its history names, and no others, leave flight, and each is told of once, as arrived by this ack |
| AckBooks.AckBook.SweepLost | extension/src/wire/ack_book.cpp:72-84 | Exactly the packets in flight more than 32 behind the highest ack leave flight, and each is told of once, as lost |
| AckBooks.AckBook.RecordSend | extension/src/wire/ack_book.cpp:17-34 | A send is tracked exactly when no packet of another number waits in flight with the same number modulo 128, and no packet elsewhere is touched; another packet is replaced, told of as neither delivered nor lost, exactly when it still waits under the same wrapped number |
| AckBooks.AckBook.Take | extension/src/wire/ack_book.cpp:36-43 | A packet is taken exactly when it is in flight, and only it leaves |
| AckBooks.AckBook.Clear | extension/src/wire/ack_book.cpp:88-94 | Nothing stays in flight, each packet that was is told of once, as cleared, and no ack is remembered |
| AckFlights.SignedIsDifference | extension/src/wire/ack_book.cpp:67-77 | Within 32767 the signed 16-bit difference is the true one |
| ClockModel.StretchedStepContracts | extension/src/clock_engine.cpp:274-322 | An unheld synchronised stretch-mode frame multiplies the error, with whatever a stall dropped added, by exactly 1 - nudge, or makes it 0 on a snap, however many ticks it runs; the estimate advances by the frame's length |
| ClockModel.NudgeContracts | extension/src/clock_engine.cpp:468-483 | A nudge leaves exactly 1 - nudge of the error, or none on a snap |
| ClockModel.TicksKeepPosition | extension/src/clock_engine.cpp:310-316 | The tick loop preserves tick + accumulator / ticktime |
| ClockModel.TicksAreToldInOrder | extension/src/clock_engine.cpp:246-257 | The ticks of a frame are announced in order, each before, on and after with its own number |
| ClockModel.PlainStepAddsItsLength | extension/src/clock_engine.cpp:274-322 | Without drift correction a frame adds exactly its own length to the clock's time, less what a stall drops |
| ClockRuns.FrameRunsWhatIsOwed | extension/src/clock_engine.cpp:274-322 | An unheld frame runs every tick its accumulator holds, up to one under a gate and the configured number otherwise: with fewer run less than a tick is left, none is run that is not owed, and each is counted and told in order |
| ClockRuns.FrameEndsOnTime | extension/src/clock_engine.cpp:274-322 | A frame that runs fewer ticks than it may and leaves nothing negative ends with the tick the whole part of the clock's time |
| ClockRuns.PlainClockIsOnTime | extension/src/clock_engine.cpp:274-322 | Over every run of frames no longer than the ticks they may run, a clock without drift correction or gates is after each less than a tick behind, its tick the whole part of its time and its ticks run as many as it moved on |
| ClockRuns.FrameCorrects | extension/src/clock_engine.cpp:468-483 | A frame leaves the error, with what a stall drops added, times `1 - nudge`, or none of it when it exceeds the snap threshold or a gated clock owes more ticks than a frame may run; a clock that snaps counts from the tick nearest to the estimate |
| ClockRuns.FrameSimulates | extension/src/clock_engine.cpp:372-386 | Without a gate a frame simulates and has no credit; under one it simulates exactly when there is credit, which it takes one of, and counts a frame behind when a tick or more is owed still |
| ClockRuns.HeldFrameRunsNothing | extension/src/clock_engine.cpp:274-295 | A held frame runs no tick, tells nothing and empties the accumulator |
| ClockRuns.ForcedRuns | extension/src/clock_engine.cpp:263-272 | Forced ticks run, counted and told in order, whatever the accumulator holds, which they leave alone; a held clock runs none |
| ClockModel.MeanAndJitterAreBounded | extension/src/clock_engine.cpp:41-65 | The mean lies between the samples kept and the jitter is at most their spread |
| ClockRuns.StatsMeaning | extension/src/clock_engine.cpp:41-65 | Of the samples as many of the newest as the window are kept, at least one; the mean times their number is their sum, the jitter times it the sum of their distances from the mean, and they are stable when it is under the threshold |
| ClockModel.WholeTicks | extension/src/clock_engine.cpp:312-316 | The whole ticks in an accumulator are its quotient by the tick time, rounded down |
| ClockRuns.DriftShrinks | extension/src/clock_engine.cpp:274-322 | Over any run of unstalled frames between pongs the estimate advances by their total length and the error is at most abs(1 - nudge)^n of its start |
| ClockRuns.DriftIsExact | extension/src/clock_engine.cpp:274-322 | An ungated clock within the snap threshold never snaps: after n frames its error is exactly (1 - nudge)^n of the first |
| ClockRuns.PlainClockLosesNoTime | extension/src/clock_engine.cpp:274-322 | Without drift correction a run of frames advances the clock by exactly their total length |
| ClockRuns.PongSetsTime | extension/src/clock_engine.cpp:448-466 | A pong sets the clock's time to its target when snapping or first synchronising, and otherwise leaves it and sets the error to what separates them |
| ClockRuns.PongMeaning | extension/src/clock_engine.cpp:413-466 | What the target of a pong is, how the clock takes it and what it reports, told of the new mean and the settings alone |
| ClockRuns.DueLeavesRemainder | extension/src/clock_engine.cpp:312-316 | The tick loop leaves less than a tick in a non-negative accumulator unless the ceiling stopped it |
| ClockRuns.CreditIsConservedIff | extension/src/clock_engine.cpp:263-407 | Over every run of frames, forced ticks, pongs, gates and holds, credit spent by simulated frames, dropped by stalls, releases and ungated frames, and left, adds up to the first credit and what gated ticks brought, after every input, if and only if no negative count is forced on a gated clock that is not held; then none is ever owed |
| ClockRuns.BoughtByTicks | extension/src/clock_engine.cpp:263-386 | While a clock is gated and the physics rate stays, what ticks brought is their number times the physics steps of one |
| ClockRuns.NegativeForceOwes | extension/src/clock_engine.cpp:263-272 | Forcing -1 on a gated clock without credit leaves it owing what a tick would have brought |
| ClockRuns.NegativeForceUnbalances | extension/src/clock_engine.cpp:263-272 | At 60 physics steps a second the default clock ends two credits in debt |
| ClockRuns.FramesAreInputs | extension/src/clock_engine.cpp:274-322 | A run that ends in frames is the frames' run from where the rest left the clock |
| ClockModel.RecommendedOffset | extension/src/clock_engine.cpp:195-203 | The recommended display offset is the least whole number of ticks that covers the one-way latency and the jitter |
| ClockEngines.ClockEngine.CreditIsKept | extension/src/clock_engine.cpp:263-407 | In every engine that was forced no negative count, credit is not negative and is the first credit and what ticks brought, less what frames spent and what was dropped |
| ClockEngines.ClockEngine.DriftHasShrunk | extension/src/clock_engine.cpp:274-322 | In every engine whose last inputs were unstalled frames while stretching, the estimate moved on by their length and the error decayed by the power of their number |
| ClockEngines.ClockEngine.NoTimeWasLost | extension/src/clock_engine.cpp:274-322 | In every engine whose last inputs were unstalled frames without drift correction, its time advanced by exactly their length |
| ClockRuns.CreditOfOne | extension/src/clock_engine.cpp:263-398 | One input on any clock conserves credit exactly when it is not a negative count forced on a gated clock that is not held, and then leaves none owed; a gated frame runs at most one tick |
| ClockEngines.Record | extension/src/clock_engine.cpp:41-65 | The window cut from its old end, its mean and its mean deviation |
| ClockEngines.ClockEngine.EmitTick | extension/src/clock_engine.cpp:246-257 | One tick, announced three times with its own number |
| ClockEngines.ClockEngine.RunTicks | extension/src/clock_engine.cpp:310-316 | Runs exactly the whole ticks the accumulator holds, up to the ceiling |
| ClockEngines.ClockEngine.NudgeTowardEstimate | extension/src/clock_engine.cpp:468-483 | The stretch or the snap, in place |
| ClockEngines.ClockEngine.ResolveSimulationGate | extension/src/clock_engine.cpp:372-386 | The gate's decision and credit, in place |
| ClockEngines.ClockEngine.PhysicsStep | extension/src/clock_engine.cpp:274-322 | One whole frame: the new state and everything announced. Unheld, it runs every tick the accumulator holds, at most one under a gate and at most the configured number otherwise: with fewer run less than a tick time is left, none is run that is not owed, each is counted, and each is told three times with its number inside the loop's two notices. Held, it runs none, tells nothing and empties the accumulator |
| ClockEngines.ClockEngine.ForceStep | extension/src/clock_engine.cpp:263-272 | Ticks outside the frame loop |
| ClockEngines.ClockEngine.Calibrate | extension/src/clock_engine.cpp:448-466 | A target taken by snapping, stretching or first synchronising |
| ClockEngines.ClockEngine.HandlePong | extension/src/clock_engine.cpp:413-446 | A pong's sample is recorded and stability announced when it changes; its target is the server's tick and phase and, when asked to lead, half the mean round trip in ticks and the configured lead; the clock takes it as its own time when it snaps or first synchronises and as its estimate otherwise; and the difference reported is the target less the tick before, rounded to the nearest |
| ClockEngines.ClockEngine.ReleaseGate | extension/src/clock_engine.cpp:392-398 | The last gate released lets every frame simulate and drops the credit |
| ClockEngines.ClockEngine.Clear | extension/src/clock_engine.cpp:494-510 | Everything starts over but the settings and the count of ticks ever run |
| Base64Url.EncodedDecodes | extension/src/id_token.cpp:131-160 | Decoding an encoding yields the bytes for every nonempty byte string; only the empty string does not decode (section 5 of RFC 4648) |
| Base64Url.DecodedEncodesIff | extension/src/id_token.cpp:131-160 | Encoding what was decoded gives the text back exactly when the bits of the last letter that belong to no byte are zero |
| Base64Url.QRDoesNotComeBack | extension/src/id_token.cpp:131-160 | "QR" decodes to the byte 65, whose encoding is another text |
| Base64Url.DecodeBase64Url | extension/src/id_token.cpp:131-152 | The accumulator loop with its non-masked shifts accepts exactly texts of length at least 2, not 1 modulo 4, in the alphabet, and yields the whole bytes of their letters' bits |
| Base64Url.EncodedWith | extension/src/id_token.cpp:35-62 | The loop over groups of three bytes yields the letters of the bytes' bits filled up with zeros, and the padding asked for |
| Base64Url.EncodeBase64Url | extension/src/id_token.cpp:158-160 | The unpadded URL alphabet |
| Base64Url.EncodeBase64 | extension/src/id_token.cpp:154-156 | The padded standard alphabet |
| Base64Url.LetterTaken | extension/src/id_token.cpp:140-150 | One letter moves the decoder on by exactly its six bits, and by a byte once eight are there, whatever the shift pushed out of the word |
| Base64Url.GroupEncodes | extension/src/id_token.cpp:42-60 | A group's letters are its bytes' bits, with zeros after a short last group |
| Base64Url.UrlAlphabetNamesValues | extension/src/id_token.cpp:14-33 | Alphabet and letter values name each other |
| Base64Url.StandardFromUrl | extension/src/id_token.cpp:154-160 | The padded standard encoding is the unpadded one for URLs with `-` and `_` written `+` and `/`, filled up with `=` to whole groups of four; that one has a letter for every six bits begun |
| Base64Url.SextetsSpellPadded | extension/src/id_token.cpp:35-62 | An encoding spells the padded bits exactly and never has one letter over |
| SceneMemberships.EdgesAlternate | extension/src/scene_membership.cpp:44-96 | In a log where no edge repeats what the reader believes, each pair's edges alternate, a subscription first, and the last says what replaying gives |
| SceneMemberships.SceneMembership.AnnouncedEdgesAlternate | extension/src/scene_membership.cpp:44-96 | In every membership, of the edges announced since it was made or cleared each pair's alternate, a subscription first, and the last says whether some reason holds the pair subscribed now |
| SceneMemberships.SceneMembership.Subscribes | extension/src/scene_membership.cpp:132-134 | The pair is subscribed exactly when replaying every edge announced since the membership was made or cleared says so |
| SceneMemberships.SceneMembership.Add | extension/src/scene_membership.cpp:58-79 | A new reason is added once; the pair's first one announces its subscription; the log goes on by what was announced, and replaying it still gives exactly the subscriptions held |
| SceneMemberships.SceneMembership.Drop | extension/src/scene_membership.cpp:81-96 | A reason is removed, the last one taking its place; the pair's last one announces its end, and the log goes on by what was announced |
| SceneMemberships.SceneMembership.EntityEnter | extension/src/scene_membership.cpp:98-107 | An entity's entry, refused for the watch marker, with what it announces on the log |
| SceneMemberships.SceneMembership.EntityExit | extension/src/scene_membership.cpp:109-118 | An entity's exit; the last one announces the removal as such, on the log too |
| SceneMemberships.SceneMembership.Watch | extension/src/scene_membership.cpp:120-122 | A watch is one more reason, with what it announces on the log |
| SceneMemberships.SceneMembership.Unwatch | extension/src/scene_membership.cpp:124-126 | The last reason gone by unwatching announces it as such, on the log too |
| SceneMemberships.SceneMembership.ForgetMember | extension/src/scene_membership.cpp:262-275 | All the member's reasons go and no other, and every scene it was subscribed to is announced as lost, each once, in the order of its first reasons, on the log too |
| SceneMemberships.SceneMembership.RetireScene | extension/src/scene_membership.cpp:277-289 | All the scene's reasons go and no other, and its members are announced in ascending order, each once, on the log too |
| SceneMemberships.SceneMembership.DropMember | extension/src/scene_membership.cpp:265-271 | The unordered removal loop leaves exactly the other members' reasons |
| SceneMemberships.SceneMembership.DropScene | extension/src/scene_membership.cpp:279-285 | The unordered removal loop leaves exactly the other scenes' reasons |
| SceneMemberships.SceneMembership.ReasonAt | extension/src/scene_membership.cpp:18-31 | The place of the reason, or -1 exactly when it is not held |
| SceneMemberships.SceneMembership.ScenesOf | extension/src/scene_membership.cpp:148-159 | The member's subscribed scenes, each once, in the order of their first reasons |
| SceneMemberships.FirstScenesInOrder | extension/src/scene_membership.cpp:148-159 | Each scene is listed with its first reason, before any scene whose first reason comes later |
| SceneMemberships.SceneMembership.MembersOf | extension/src/scene_membership.cpp:240-256 | The scene's subscribed members, ascending |
| SceneMemberships.RemovedKeepsOthers | extension/src/scene_membership.cpp:91-91 | Giving an element's place to the last one removes exactly that element |
| SceneMemberships.GoneKeeps | extension/src/scene_membership.cpp:262-289 | Ending every pair a sweep emptied keeps the log and the reasons in agreement |
| SceneMemberships.SceneMembership.RenameMembers | extension/src/scene_membership.cpp:9-16 | Every reason and every edge not drained yet names its member's new name; the membership stays valid if and only if no two members that become one were ever subscribed to the same scene at once |
| SceneMemberships.RenameKeepsIff | extension/src/scene_membership.cpp:9-16 | A rename keeps reasons that do not repeat, a telling log and their agreement if and only if that holds |
| SceneMemberships.RenameTellsIff | extension/src/scene_membership.cpp:9-16 | A log stays telling under a rename if and only if that holds, and then replays to the subscriptions renamed |
| SceneMemberships.RenamedSubscriptions | extension/src/scene_membership.cpp:9-16 | A hand-over makes the successor's subscriptions the server's and the former server's those of its new name, its successor's old one when it has none of its own, and leaves everyone else's |
| SceneMemberships.FreshNameNeverShared | extension/include/netw/peer_rename.hpp:16-29 | It holds when the former server takes the successor's name, or one that no edge was ever told of |
| SceneMemberships.SharedSceneRepeats | extension/src/scene_membership.cpp:9-16 | The server and peer 3 in one scene, and the server renamed to 3: the reasons repeat |
| SceneMemberships.SceneMembership.ClearEdges | extension/src/scene_membership.cpp:301-303 | Draining the edges changes no membership |
| RateWindows.RateWindow.Exceeded | extension/src/rate_window.cpp:7-33 | For times that never go back, a call is over the limit exactly when the number of the peer's earlier calls since `now - span` in the full log and this one exceed it; pruning and sweeping change no answer; the exempt peer never is; and a call made with too many peers tracked leaves, beside its own, only peers with a stamp in the window |
| RateWindows.RateWindow.DropPeersIdleSince | extension/src/rate_window.cpp:35-47 | Whatever the order, exactly the peers whose newest stamp is before the window, or that have none, are dropped, the others keep their stamps, and no stamp still in the window is lost |
| RateWindows.PrunedKeeps | extension/src/rate_window.cpp:20-30 | After pruning, what is kept is exactly the stamps in the window |
| RateWindows.CountIsCalls | extension/src/rate_window.cpp:20-32 | Counting a peer's stamps counts its calls in the full log |
| RateWindows.StampsAscend | extension/src/rate_window.cpp:7-33 | Each peer's stamps ascend |
| CarrierBatches.BytesAreConserved | extension/src/carrier_buffers.cpp:70-127 | Over every run of one lane, the bytes handed out followed by those pending are the appended frames in order |
| CarrierBatches.UnreliableBatchesFit | extension/src/carrier_buffers.cpp:85-99 | With a fixed budget every unreliable batch, handed out or pending, fits it or has at most one frame with any bytes |
| CarrierBatches.AppendSplitsIff | extension/src/carrier_buffers.cpp:85-99 | An append hands out what was pending exactly when the lane is unreliable, something is pending and both would exceed the budget; the frame then starts a new batch |
| CarrierBatches.ReliableHandsOnTake | extension/src/carrier_buffers.cpp:85-114 | Over every run a reliable lane hands out nothing but what is taken |
| CarrierBatches.FramesAreFull | extension/src/carrier_buffers.cpp:11-14 | When every frame has bytes, that is one frame |
| CarrierBatches.BatchCarriesBest | extension/src/carrier_buffers.cpp:16-44 | A batch carries one descriptor for each key, and it is the best row of its own script |
| CarrierBatches.BestIsHighest | extension/src/carrier_buffers.cpp:16-44 | The best row is the latest of the highest revision among those attached since the key's route was last closed; there is none exactly when none was attached since |
| CarrierBatches.RecycleRevivesNothing | extension/src/carrier_buffers.cpp:116-127 | Recycling brings back no byte and no row |
| CarrierBatches.IdleMeans | extension/src/carrier_buffers.cpp:116-127 | A lane is idle exactly when no byte is pending and no key is described |
| CarrierBatches.BatchHoldsBytes | extension/src/carrier_buffers.cpp:11-14 | A batch holds its frames' bytes in order |
| CarrierBatches.BatchAddsUp | extension/src/carrier_buffers.cpp:11-30 | A batch counts one frame for each and the bits of each row attached |
| CarrierBatches.AttachedCarries | extension/src/carrier_buffers.cpp:16-30 | Attaching changes only the key of the row, and there keeps the higher revision |
| CarrierBatches.AttachedInPlace | extension/src/carrier_buffers.cpp:16-30 | Attaching moves no descriptor: a row replaces its key's in place or joins at the end |
| CarrierBatches.WithoutKeepsOthers | extension/src/carrier_buffers.cpp:32-44 | Closing a route removes exactly its rows |
| CarrierBatches.WithoutInOrder | extension/src/carrier_buffers.cpp:32-44 | Each descriptor is kept or dropped on its own route, and those kept stay in their order |
| NetwCarrierBuffers.Attach | extension/src/carrier_buffers.cpp:16-30 | The search loop adds or replaces the row of its key |
| NetwCarrierBuffers.CloseBatch | extension/src/carrier_buffers.cpp:32-44 | The in-place packing keeps exactly the other routes' rows, in order |
| NetwCarrierBuffers.CarrierBuffers.Append | extension/src/carrier_buffers.cpp:70-104 | The frame joins the run; what was pending is handed out first exactly when the lane is unreliable, something is pending and both would exceed the budget; every other run is as its log makes it |
| NetwCarrierBuffers.CarrierBuffers.Take | extension/src/carrier_buffers.cpp:106-114 | Hands out exactly what is pending |
| NetwCarrierBuffers.CarrierBuffers.Recycle | extension/src/carrier_buffers.cpp:116-127 | Lends storage to an idle run only |
| NetwCarrierBuffers.CarrierBuffers.CloseRoute | extension/src/carrier_buffers.cpp:129-136 | The route's rows leave every pending batch of both lanes |
| NetwCarrierBuffers.CarrierBuffers.Pending | extension/src/carrier_buffers.cpp:149-153 | The number of bytes pending |
| Rewinds.RewindRestores | extension/src/lagcomp_core.cpp:458-536 | A touched key that one slot or part touches and no other ends at its value before the rewind, whatever the body writes, even when other rows that move have the same owner |
| Rewinds.RewindLeaves | extension/src/lagcomp_core.cpp:458-536 | For any slots, owners and body: a key no row touches ends as the body left it, and a touched key as the last row that touches it found it |
| Rewinds.RewoundReadsThePast | extension/src/lagcomp_core.cpp:458-512 | While the body runs every touched key reads as the past and every other as before, and each was captured just before it was written |
| Rewinds.BodySeesThePast | extension/src/lagcomp_core.cpp:458-512 | While the body runs, every key of an owner that a listed slot or a part of one touches reads as the past of the last of them to touch it, a slot's parts coming after it and before the next slot, and every other key as before |
| Rewinds.MovesBelong | extension/src/lagcomp_core.cpp:458-512 | Every move made is a listed slot's or a part of one's, and of the owner it is bound to |
| Rewinds.CountsMoves | extension/src/lagcomp_core.cpp:458-512 | As many moves are made as listed slots and parts are open, bound to a live owner and touch some key |
| Rewinds.RestoredIff | extension/src/lagcomp_core.cpp:458-536 | For any rows, slots, parts and body, a touched key is restored if and only if the owner lacks it, one slot alone touches it, or the slot that touches it just before the last has the original value as its past |
| Rewinds.SharedKeyRestoredIff | extension/src/lagcomp_core.cpp:458-536 | Told of the slots and their parts themselves: a key that several touch is restored exactly when the one just before the last has the original value as its past |
| Rewinds.LoneKeyRestored | extension/src/lagcomp_core.cpp:458-536 | A key of its owner that exactly one listed slot or part touches ends at its value before the rewind |
| Rewinds.UntouchedKeyStays | extension/src/lagcomp_core.cpp:458-536 | A key that no listed slot or part touches ends as the body left it |
| Rewinds.RepeatedSlotRestoredIff | extension/src/lagcomp_core.cpp:458-536 | When the last two slots that touch a key are the same, among whatever others, it is restored if and only if it held that slot's past already |
| Rewinds.BoundApartTouchApart | extension/src/lagcomp_core.cpp:458-512 | Distinct slots with distinct bound owners, parts included, never touch the same key of the same owner |
| Rewinds.SlotsAndMovesAgree | extension/src/lagcomp_core.cpp:478-512 | What the slots say touched a key last, and what it read, is what the moves say |
| Rewinds.RepeatedSlotKeepsThePast | extension/src/lagcomp_core.cpp:458-536 | One slot named twice leaves its owner at the past |
| Rewinds.TouchedKeys | extension/src/lagcomp_core.cpp:357-371 | The keys captured are exactly the keys written |
| Rewinds.DeclaredOnly | extension/src/lagcomp_core.cpp:373-388 | The payload written is the past cut to the declared keys |
| Rewinds.Rewind | extension/src/lagcomp_core.cpp:458-536 | The three loops compute the rewind of the model. While the body runs, every key of an owner that a listed slot or a part of one touches reads as the past of the last of them to touch it, a slot's parts coming after it and before the next slot, and every other key as before; and the count answered is of the listed slots and parts that are open, bound to a live owner and touch some key |
| Rewinds.MoveOne | extension/src/lagcomp_core.cpp:478-512 | One slot: skipped unless bound and its past touches a key, else captured, then written |
| Rewinds.RestoreAll | extension/src/lagcomp_core.cpp:525-532 | The captured values are put back in order |
| AuthProtocol.HelloReadsBack | extension/src/auth_protocol.cpp:111-153 | A hello reads back with its flags masked and its deadline clamped to 0..2^32-1, or names the foreign build |
| AuthProtocol.HelloAcceptedIff | extension/src/auth_protocol.cpp:128-153 | The hellos accepted are exactly those that start with the frame of the local build |
| AuthProtocol.HelloLayout | extension/src/auth_protocol.cpp:111-126 | A hello's 18 bytes one by one: its tag, version 6, the build low byte first, the flags and the wait cut to an unsigned word |
| AuthProtocol.ForeignHello | extension/src/auth_protocol.cpp:128-140 | A hello of 14 bytes or more of another version is refused as such, under the version and build it names |
| AuthProtocol.CutHello | extension/src/auth_protocol.cpp:128-145 | A hello cut short is refused: under 14 bytes it names nothing, under 18 its build |
| AuthProtocol.ProbeReadsBack | extension/src/auth_protocol.cpp:155-200 | A probe request or reply reads back with its flags or status masked and its payload whole |
| AuthProtocol.ProbeAcceptedIff | extension/src/auth_protocol.cpp:162-200 | The probes accepted are exactly the probe frames |
| AuthProtocol.ProbeLayout | extension/src/auth_protocol.cpp:155-185 | A probe's bytes: its tag, version 6, the flags or status, and what follows |
| AuthProtocol.ForeignProbe | extension/src/auth_protocol.cpp:162-200 | A probe of another version names it and no more; one cut short names nothing |
| AuthProtocol.AdmittedReadsBack | extension/src/auth_protocol.cpp:214-248 | An admission reads back with its roster, a confirmation with nothing |
| AuthProtocol.AnswerLayout | extension/src/auth_protocol.cpp:214-233 | An answer's header, and a refusal's code low byte first, its length and its text |
| AuthProtocol.AnswerAcceptedIff | extension/src/auth_protocol.cpp:235-265 | The answers accepted are admissions, confirmations and refusals exactly as long as they say |
| AuthProtocol.RefusedReadsBack | extension/src/auth_protocol.cpp:224-265 | A refusal of any reason reads back with its code wrapped to int32 and its reason capped |
| AuthProtocol.RefusedIsItsFrame | extension/src/auth_protocol.cpp:235-265 | A refusal that reads as well-formed text is the very frame its code and text lay out |
| AuthProtocol.TaggedReadsBack | extension/src/auth_protocol.cpp:202-212 | A game or join frame is told by its tag and carries its body whole |
| AuthProtocol.KindsAreDisjoint | extension/src/auth_protocol.cpp:89-109 | A frame is of a kind exactly when it starts with that kind's tag, so no frame is of two |
| AuthProtocol.CappedReason | extension/src/auth_protocol.cpp:267-277 | The cut that moves back over continuation bytes yields the reason or its longest prefix of whole characters within 255 bytes |
| Utf8.FittingIsLongest | extension/src/auth_protocol.cpp:267-277 | That prefix fits the cap and every longer one does not |
| Utf8.DecodesEncoding | extension/src/auth_protocol.cpp:228-263 | UTF-8 (section 3 of RFC 3629) decodes what it encodes |
| Utf8.EncodingKeepsOrder | extension/src/auth_protocol.cpp:228-263 | Characters order as their bytes do (section 1 of RFC 3629) |
| Utf8.DecodeIsStrict | extension/src/auth_protocol.cpp:258-263 | Only the encoding of a text decodes to it: no overlong form, surrogate or stray byte |
| AuthProtocol.LaidReadsBack | extension/src/auth_protocol.cpp:35-61 | A word laid out low byte first reads back cut to its size |
| AuthProtocol.AppendWord | extension/src/auth_protocol.cpp:35-45 | The shift-and-mask loop lays a word out low byte first |
| AuthProtocol.ReadWord | extension/src/auth_protocol.cpp:47-61 | The shift-and-or loop reads it back without touching a byte past it |
| AuthProtocol.Matches | extension/src/auth_protocol.cpp:23-33 | The byte loop decides whether a frame starts with the tag |
| AuthProtocol.Classify | extension/src/auth_protocol.cpp:89-109 | The first tag that matches |
| AuthProtocol.EncodeClientHello | extension/src/auth_protocol.cpp:111-126 | The hello frame, byte for byte |
| AuthProtocol.DecodeClientHello | extension/src/auth_protocol.cpp:128-153 | The hello or the reason it is refused, without reading past the buffer |
| AuthProtocol.EncodeProbeRequest | extension/src/auth_protocol.cpp:155-160 | The probe frame |
| AuthProtocol.DecodeProbeRequest | extension/src/auth_protocol.cpp:162-174 | The request's flags, or not ok |
| AuthProtocol.EncodeProbeReply | extension/src/auth_protocol.cpp:176-185 | The probe frame with its payload |
| AuthProtocol.DecodeProbeReply | extension/src/auth_protocol.cpp:187-200 | The reply's status and payload, or not ok |
| AuthProtocol.EncodeRefused | extension/src/auth_protocol.cpp:224-233 | The refusal of the wrapped code and the capped reason |
| AuthProtocol.DecodeAnswer | extension/src/auth_protocol.cpp:235-265 | The answer, or not ok, without reading past the buffer |

## Left out

- LagBooks.LagBook: a slot's image is one list of words; the flat stride into one buffer, the packing of scalars into words (`CodeRow`, scalar encoders) and the 64-bit presence masks are parameters or sets. `LagCodec.Faithful` states what the packing must promise. Values are compared by equality; what sealing makes of the declared columns and the order of a dictionary's keys are parameters.
- LagBooks.LagBook.SampleOf: the refinement is for clean calls from tick 0 on, which `LagOrder.AlwaysAnswersIff` shows to be exactly the calls it holds of; `SampleAt` is the contract for any floor and any calls.
- `newest_tick`, `recorded_at` and `byte_count` of the lag book: getters.
- LivenessCores.LivenessCore: a fresh handle is any number without a record, so the slots and generations behind handles are not modelled; nor are `rename_authors`, the getters, and 32-bit overflow of routes and epochs. Callbacks are tokens and never call back into the core. `reserve_block` is modelled as the part of `grant_lease` it is.
- LeaseProtocol.StepKeeps: peers that are not leaseholders but reserve blocks by their own counter are not part of the protocol. A hand-over is one step, at whose end the survivors that did not report are dropped; messages on their way are lost; a report carries every span of the lease, which is so up to 127 of them (`CappedReportCarriesIff`), and its checks of what a report may claim are left out.
- AckHistory.HistoryRefinesReceived: arrivals further than 32767 from the maximum are outside the serial arithmetic and are not covered.
- RoundTrips.EstimateIsBounded: the estimator is over the reals; rounding of doubles is not modelled.
- AckFlights.ToldArrivedDid: for packets and acks 32768 or more apart the wrapped numbers no longer tell which is ahead; there `AckBook.ProcessAck` states what the book does with them, and nothing is said of what arrived. Warnings are left out.
- ClockEngines.ClockEngine: over the reals; the tick rate is positive; the physics rate is a parameter of the calls that ask the engine for it; hooks do not call back into the clock. Setters are one `Configure`; `set_tick`, `set_synchronized`, manual ticks, wall-clock stamps, cadence counters, the ping timer, `display_tick` and `tick_factor` are left out.
- Base64Url.EncodedWith: signature checks, JSON and the DER bytes of a key are left out.
- SceneMemberships.SceneMembership: the listing queries by entity or watcher are left out. The library sort is an insertion sort.
- RateWindows.RateWindow: limit, span and exempt peer are fixed when the window is made.
- NetwCarrierBuffers.CarrierBuffers: batches are values, so the sharing of storage that `swap` and `recycle` are for is not captured; `peers` is left out.
- Rewinds.Rewind: an owner is a map from keys to values whose properties do not affect each other; physics bodies, teleporting, reports of writes inside the rewind and owners freed by the body are left out, as are opening, pruning and closing parts. The sample at the rewound tick is part of a row.
- AuthProtocol.DecodeAnswer: a reason that is not well-formed UTF-8 reads as no text, since what the engine's decoder substitutes is not modelled; strings hold no zero character. `bind_challenge` hashes and is left out.
- Not modelled: `comp_table.cpp` (component paths sorted, ids that are their positions), `session_core.cpp` (the session's state and role), `call_park.cpp` (calls parked until a deadline), `probe_guard.cpp` (probes admitted per second and at once), `gate_verdict_book.cpp` (counts of gate verdicts), `handle_ledger.cpp` (handles by id), `scene_loads.cpp` (scenes being loaded) and `effect_ledger.cpp` (effects to revert by a deadline).
- Engine shims, logging, profiling, physics queries and wire codecs outside the files named above.
