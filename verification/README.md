# Control protocol and QA harness, verified

Dafny models of the parts of the repository where a fast or concurrent form has to agree with a simple one, with
proofs that it does. `dafny verify dfyconfig.toml` checks everything.

What is modelled, and how:

- **Handoffs** (`notify`, `once`, `latest`, `flag`). `Once`, `Latest` and `Flag` are worlds of tasks that take one
  atomic step at a time: a lock section, an atomic store or load, `enable`, park, notify. The notification primitive has
  the semantics its users rely on: no permit is stored, and a notification reaches the waiters already registered. The
  lock sections of `Once` are methods of a class, and every run of the worlds is played on one of its objects.
- **Diagnostic stream** (`journal`, `connection`, `client`). The journal is a bounded ring beside a ghost log of
  everything ever published. A connection keeps a cursor into it; its history is cut into stretches between accepted
  Observes, and its loop is proved to follow a pure run over whatever happens to it. A client is a class over what one
  stream brings it, a sequence of such calls, and a world in which requests, answers, stale answers and notifications
  interleave with a server.
- **Inspections** (`chains`, `forests`, `forest_stacks`, `documents`, `subtrees`, `layout_chains`, `inspection`,
  `walks`, `traversal`, `rooted`, `inspect_document`, `inspection_theorems`). A document is a map from node to parent,
  children and layout parent. Layout links are arbitrary; DOM links are a consistent forest, which may hold detached
  trees. The reference is a preorder and an upward walk per node; the traversals are compared with it.
- **Condensation** (`node_lists`, `condensation_cache`, `structure`) and **surface scopes** (`reach`, `climbs`): a cache
  against the whole history of insertions, a forest against the parent links it was built from, climbs against the
  coverage of every ancestor. Node lists are arbitrary, with repeated ids and parent cycles, as long as the recursion or
  the stack of the code ends on them; what a subtree means is then stated for unique ids.
- **Guarded writer** (`encoders`, `secrets`, `guarded_store`). Encoders with their standards' decoders, the forms of a
  secret, and a file store whose disk may refuse to open, tear a write or fail to sync.
- **Run plans** (`plan`, `plan_theorems`). Credentials, identity groups and username aliases of the signed-in sessions.

Where code and documentation disagree, the code is modelled:

- `Once::send` is documented to ignore a second send. It does so only while the first value is still there; the exact
  condition on the producers and a run that delivers twice are proved.
- The identity-group rule of run plans is documented for every configured session that shares a username. Sessions that
  give way to another are not held to it; the exact condition on plan and variables, and an accepted plan that breaks
  the rule, are proved.
- `nodes_kept` of a structural condensation counts the input, which is the size of the forest exactly without cycles; a
  two-node cycle is given where it is not.
- A drain that meets a frame it cannot decode has already emptied the queue and leaves the connection usable. Its
  notifications are missing from the next drain that succeeds; conservation is proved to hold exactly when that did not
  happen with something queued, and a failing sequence of two calls is given.

64-bit wrap-around is written out for the revision of `Latest`, 32-bit saturation for inspection depths, and the end of
the journal's 64-bit sequence is an explicit refusal. All other counters are unbounded.

## Model

| member | source | states |
|---|---|---|
| `OnceSlot.Once.Fill` | crates/blitz-control-protocol/src/latest.rs:161-176 | the lock section of `fill`: stores and finalises only an empty, unfinished slot, and says whether it did |
| `OnceSlot.Once.Send` | crates/blitz-control-protocol/src/latest.rs:178-186 | the lock section of `send`: fills an empty slot, even a finished one, and always finalises |
| `OnceSlot.Once.Abandon` | crates/blitz-control-protocol/src/latest.rs:194-197 | finalises without touching the value |
| `OnceSlot.Once.Look` | crates/blitz-control-protocol/src/latest.rs:210-230 | one look of a receiver: takes a present value, else reports finality, else nothing |
| `OnceReplay.Take` | crates/blitz-control-protocol/src/latest.rs:161-230 | any step of any run can be taken by calling the object: its slot is the world's before and after |
| `OnceReplay.Replay` | crates/blitz-control-protocol/src/latest.rs:161-230 | every run can be played on one object, lock section by lock section, which ends with the run's slot |
| `OnceRuns.StepConserves` | crates/blitz-control-protocol/src/latest.rs:161-230 | every atomic step of every producer and receiver keeps accepted = delivered + in the slot, value implies finality, and never undoes finality or a delivery |
| `OnceRuns.StepWakes` | crates/blitz-control-protocol/src/latest.rs:161-230 | every atomic step keeps: a parked, unwoken receiver with something to see means a producer stands between its store and its notification |
| `OnceRuns.NoLostWakeup` | crates/blitz-control-protocol/src/latest.rs:199-230 | in every run no receiver stays parked with something to see once producers are quiet |
| `OnceRuns.LookDecides` | crates/blitz-control-protocol/src/latest.rs:210-230 | a look returns exactly when there is a value or finality, with the value if there is one; it parks only on an empty, unfinished slot and unready |
| `OnceRuns.ValueIsConserved` | crates/blitz-control-protocol/src/latest.rs:161-230 | in every run accepted values are the delivered ones followed by what is in the slot; a receiver gets nothing only after abandonment or after another took the value |
| `OnceRuns.FinalityIsForever` | crates/blitz-control-protocol/src/latest.rs:161-197 | finality never goes away between two points of a run |
| `OnceRuns.AtMostOnceExactlyWithoutLateSends` | crates/blitz-control-protocol/src/latest.rs:122-123 | at most one value passes through if and only if no `send` finds the slot emptied by a receiver |
| `OnceRuns.DisciplinedIsAtMostOnce` | crates/blitz-control-protocol/src/latest.rs:161-186 | fills alone, or one `send` with only abandonments beside it, deliver at most once in every interleaving |
| `OnceRuns.LateSenderIsHeard` | crates/blitz-control-protocol/src/latest.rs:178-186 | whenever there is a receiver, a `send` and another `send` or `fill`, some run delivers both values |
| `OnceRuns.DisciplineIsExact` | crates/blitz-control-protocol/src/latest.rs:161-230 | where somebody receives, every run delivers at most once if and only if the producers are fills and abandonments, or one `send` and abandonments |
| `OnceRuns.TwoSendsDeliverTwice` | crates/blitz-control-protocol/src/latest.rs:177-186 | a run in which the documented "a second send is ignored" fails: the second value is delivered too |
| `LatestRuns.StepFresh` | crates/blitz-control-protocol/src/latest.rs:51-116 | every step keeps each reader's value at least as new as the write its revision counts, the 64-bit wrap included |
| `LatestRuns.StepWakes` | crates/blitz-control-protocol/src/latest.rs:51-116 | every step of every writer and reader keeps sleeping readers accounted for by a writer about to notify |
| `LatestRuns.NoLostWakeup` | crates/blitz-control-protocol/src/latest.rs:99-116 | in every run no reader sleeps past a moved revision once writers are quiet |
| `LatestRuns.NeverOlderThanItsRevision` | crates/blitz-control-protocol/src/latest.rs:99-116 | `changed_since` never pairs revision r with a value older than the r-th write, however slot writes and bumps interleave |
| `LatestRuns.LastHandedTheNewest` | crates/blitz-control-protocol/src/latest.rs:89-116 | once every started write is bumped, a reader whose last return came with the current revision was then handed the newest value, wherever it is by now, unless 2^64 writes came since |
| `LatestRuns.SleepersHaveTheNewest` | crates/blitz-control-protocol/src/latest.rs:89-116 | when all writers are done, a reader asleep on the revision it was last handed holds the newest value, unless 2^64 writes came since |
| `LatestRuns.CurrentMeansNewest` | crates/blitz-control-protocol/src/latest.rs:89-116 | the case of a reader that has just returned: with the current revision it was handed what is in the slot |
| `LatestRuns.LoadDecides` | crates/blitz-control-protocol/src/latest.rs:98-116 | a load goes on to the slot exactly when the revision is not the one the call was made with |
| `LatestRuns.ReturnsOnlyNews` | crates/blitz-control-protocol/src/latest.rs:89-116 | in every run whatever a call made with `seen` returns carries a revision other than `seen` |
| `LatestRuns.EverySetIsOneWrite` | crates/blitz-control-protocol/src/latest.rs:51-75 | in every run the values written are those of the writers that have stored, one each and unchanged; only `set_now` gives up |
| `FlagRuns.StepInv` | crates/blitz-control-protocol/src/latest.rs:264-289 | every step keeps sleepers accounted for and a raised flag raised |
| `FlagRuns.RaisedMeansWoken` | crates/blitz-control-protocol/src/latest.rs:264-289 | in every run the flag is up exactly when somebody has raised it, a waiter resolves only then, and none sleeps under a raised flag once raisers are quiet |
| `FlagRuns.LoadDecides` | crates/blitz-control-protocol/src/latest.rs:277-289 | a look resolves the wait exactly when the flag is up; it parks only when it is not and the waiter is unready |
| `Journal.DiagnosticJournal.Publish` | crates/blitz-control-protocol/src/journal.rs:45-62 | appends to the log the ring stands for; the ring stays the newest `capacity` entries with consecutive numbers |
| `Journal.DiagnosticJournal.ReadAfter` | crates/blitz-control-protocol/src/journal.rs:68-83 | answers from the ring exactly what the unbounded log owes a reader: next entry, whole lost range, or nothing |
| `Journal.ReadFollowsOn` | crates/blitz-control-protocol/src/journal.rs:14-20 | what is read starts right after what was seen, ends inside the log, and is true of it |
| `Journal.CatchesUp` | crates/blitz-control-protocol/src/journal.rs:68-83 | a reader left alone is up to date after at most capacity + 1 reads, from anywhere |
| `JournalRuns.StepAccounts` | crates/blitz-control-protocol/src/journal.rs:45-97 | every publish, read, park, wake or dropped read keeps a reader's items covering exactly its stretch of the log |
| `JournalRuns.NothingIsSilentlyLost` | crates/blitz-control-protocol/src/journal.rs:45-97 | in every interleaving the items a reader got cover start+1..seen without gap or repeat, and each event is the log entry of its number |
| `JournalRuns.EveryPublishIsOneEntry` | crates/blitz-control-protocol/src/journal.rs:45-66 | in every run the log is what was published: one entry for each publisher that has published, with its payload; only the end of the sequence turns one away |
| `JournalRuns.NoLostWakeup` | crates/blitz-control-protocol/src/journal.rs:85-97 | in every run no reader of `next_after` sleeps over something to read once publishers are quiet |
| `JournalRuns.QuietReaderFollows` | crates/blitz-control-protocol/src/journal.rs:68-97 | while nobody publishes, a reader's position moves by exactly its looks, whatever parks, wakes or drops it in between |
| `JournalRuns.QuietReaderCatchesUp` | crates/blitz-control-protocol/src/journal.rs:68-97 | over any stretch of a run without publishes a reader stands at the end of the log after capacity + 1 looks, or after one that found nothing |
| `Connections.AccountedNext` | crates/blitz-control-protocol/src/server.rs:383-440 | taking one journal item and sending, filtering or naming it as lost keeps the whole stretch accounted for |
| `Connections.ExactlyOneItem` | crates/blitz-control-protocol/src/server.rs:383-440 | every sequence number of a stretch falls into exactly one item |
| `Connections.Connection.DeliverNext` | crates/blitz-control-protocol/src/server.rs:413-440 | moves the cursor to the item; filters by target and stream; an event that does not fit a frame goes out as an overflow of its own number; a failed send closes |
| `Connections.Connection.Answer` | crates/blitz-control-protocol/src/server.rs:471-564 | an acknowledged Observe starts a new stretch at the baseline taken before the bridge was asked, or at a valid `after_sequence`; a refused one never reaches the bridge; anything else leaves cursor and settings alone |
| `Connections.Connection.Handle` | crates/blitz-control-protocol/src/server.rs:364-616 | the loop over any script of publishes, requests, journal wins, failed sends and closures leaves exactly the cursor, settings, stretches and notices of the pure run |
| `Connections.RunIsAccounted` | crates/blitz-control-protocol/src/server.rs:374-440 | in every run of every connection each stretch between two accepted Observes covers its numbers once and in order, and what was sent for it is exactly what its settings ask for |
| `Connections.HistoryStays` | crates/blitz-control-protocol/src/server.rs:500-506 | no run rewrites a finished stretch or shortens the log |
| `Connections.ObserveStartsAStretch` | crates/blitz-control-protocol/src/server.rs:471-564 | an acknowledged Observe with sound options starts an empty stretch at `after_sequence`, or at the end of the log before the bridge was asked; anything else leaves settings, cursor and stretches alone; unsound options never reach the bridge |
| `Connections.NothingSaidMeanwhileIsMissed` | crates/blitz-control-protocol/src/server.rs:471-564 | in every run, whatever is published while the bridge answers an Observe lies above the baseline of the stretch it starts, and falls into exactly one of its items once it has come that far |
| `Connections.StretchStays` | crates/blitz-control-protocol/src/server.rs:500-506 | a stretch keeps its settings and its start whatever happens afterwards |
| `Connections.NothingWantedIsSilent` | crates/blitz-control-protocol/src/server.rs:409-440 | every entry of a stretch that is on an observed stream and from the target meant is named by exactly one notice |
| `Connections.NoticesAreTrue` | crates/blitz-control-protocol/src/server.rs:409-440 | an event frame is a wanted entry that fits, under its own number; an overflow names entries the ring has lost, or one wanted entry too large to send |
| `Connections.EveryRunShowsWhatIsWanted` | crates/blitz-control-protocol/src/server.rs:374-440 | both hold of every stretch of every run |
| `Connections.NothingUnasked` | crates/blitz-control-protocol/src/server.rs:380-382 | in every run a connection that observes nothing reads nothing and sends no notice |
| `Connections.ClosesExactly` | crates/blitz-control-protocol/src/server.rs:431-440 | a turn ends the connection exactly when the peer is gone or something that is to go out cannot be sent |
| `Connections.QuietRunFollows` | crates/blitz-control-protocol/src/server.rs:383-391 | without publishes and accepted Observes the cursor moves exactly as that many reads of the journal |
| `Connections.CatchesUpWhenQuiet` | crates/blitz-control-protocol/src/server.rs:374-440 | after any run, once publishes and Observes are quiet and sends work, capacity + 1 deliveries bring an observing connection to the end of the log, its stretch covering everything |
| `Clients.Client.NextId` | crates/blitz-control-protocol/src/client.rs:595-598 | ids count up by one |
| `Clients.Client.QueueNotification` | crates/blitz-control-protocol/src/client.rs:467-476 | keeps the newest 256 notifications passed over and counts the dropped ones |
| `Clients.Client.Exchange` | crates/blitz-control-protocol/src/client.rs:605-651 | result, new state and consumed arrivals are those of the exchange: what is passed over is queued, the first arrival to stop it decides, timeout and disconnect become terminal |
| `Clients.ExchangeSucceedsExactly` | crates/blitz-control-protocol/src/client.rs:605-651 | an exchange succeeds if and only if nothing failed before, the request is well formed and sent, and a frame with its id comes before anything but other frames; that frame is what it returns |
| `Clients.ConsumesThroughTheStop` | crates/blitz-control-protocol/src/client.rs:622-651 | a call takes everything up to and including what stops it off the stream, and no more |
| `Clients.Client.WaitForPaint` | crates/blitz-control-protocol/src/client.rs:729-766 | takes the first queued paint, else reads until one; running out of time is an answer, and passed-over frames are queued without the paint itself |
| `Clients.PaintIsFoundExactly` | crates/blitz-control-protocol/src/client.rs:729-766 | a paint is found if and only if nothing failed before and one is queued or comes before anything but other frames |
| `Clients.Client.Drain` | crates/blitz-control-protocol/src/client.rs:795-824 | result, new state and consumed arrivals are those of the drain: the queue is emptied first, and handed over with the live frames only when the reading ends with the deadline |
| `Clients.DrainSucceedsExactly` | crates/blitz-control-protocol/src/client.rs:795-824 | a drain succeeds if and only if nothing failed before and nothing but frames comes before the deadline |
| `Clients.ExchangeIsLostExactly` | crates/blitz-control-protocol/src/client.rs:563-651 | an exchange fails for good exactly when the send fails, the stream ends or breaks first, or its time runs out, and the client remembers which; a bad request and a garbled frame leave it usable; after a failure it changes nothing |
| `Clients.PaintIsLostExactly` | crates/blitz-control-protocol/src/client.rs:729-766 | a paint wait fails for good exactly when nothing is queued and the stream ends or breaks first; running out of time is an answer |
| `Clients.DrainIsLostExactly` | crates/blitz-control-protocol/src/client.rs:794-824 | a drain fails for good exactly when the stream ends or breaks before its time is up |
| `ClientCalls.LostStaysLost` | crates/blitz-control-protocol/src/client.rs:563-593 | over any calls, after one that timed out or lost the connection every later one is refused with that failure and changes nothing |
| `ClientCalls.EventsAfterACall` | crates/blitz-control-protocol/src/client.rs:640-651 | what each call leaves in the event queue: the newest 256 of what was there and came by, or the queue without the paint that was found |
| `ClientCalls.QueuedPaintIsUsedUp` | crates/blitz-control-protocol/src/client.rs:731-738 | a queued paint goes with the wait that finds it, and nothing else does |
| `ClientCalls.NoPaintIsFoundTwice` | crates/blitz-control-protocol/src/client.rs:729-766 | over any calls, waits that found a paint and paints still queued are together no more than the paints that came by |
| `ClientCalls.BuffersNext` | crates/blitz-control-protocol/src/client.rs:467-476 | queueing keeps queue and counter equal to the newest 256 and the rest |
| `ClientCalls.RunBuffers` | crates/blitz-control-protocol/src/client.rs:605-824 | over any sequence of calls the queue stands for the newest 256 of what was passed over since it was last emptied, and what was owed before has spilled |
| `ClientCalls.ComesBackExactlyUnlessSpilled` | crates/blitz-control-protocol/src/client.rs:795-824 | over any sequence of exchanges, paint waits and drains, a drain that succeeds hands over the newest min(m, 256) of the m notifications passed over since the last one that did, after a notice counting exactly the others, if and only if no drain in between failed with notifications queued |
| `ClientCalls.GarbledDrainLosesOne` | crates/blitz-control-protocol/src/client.rs:797 | one queued notification and a drain that meets a garbled frame: the connection stays usable and the next drain succeeds without it |
| `ClientRuns.RunInv` | crates/blitz-control-protocol/src/client.rs:605-651 | in every run ids in flight are fresh and rising, and each numbered frame in flight is the one answer to its number |
| `ClientRuns.ExchangesAreCalls` | crates/blitz-control-protocol/src/client.rs:605-651 | in every run, from beginning to end of an exchange, whatever the server does meanwhile: client state and success are those of the client's own call on what arrived for it |
| `ClientRuns.AnswersItsOwnRequest` | crates/blitz-control-protocol/src/client.rs:605-651 | in every run, stale answers and notifications included, a successful exchange returns the answer to that very request |
| `ClientRuns.NoFrameAnswersTwice` | crates/blitz-control-protocol/src/client.rs:636-642 | two successes have different ids, and the id of a finished exchange never arrives again |
| `ClientRuns.TerminalIsForever` | crates/blitz-control-protocol/src/client.rs:563-593 | after a timeout or a disconnect, met by an exchange, a drain or a paint wait, the failure stays and no exchange succeeds any more |
| `LayoutChains.LayoutChainIsValid` | crates/blitz-control-protocol/src/document.rs:1222-1240 | accepts exactly the nodes whose layout chain ends within the limit, cycles and dangling links included |
| `LayoutChains.EndsWithinTheNodeCount` | crates/blitz-control-protocol/src/document.rs:1228-1229 | with a limit of at least the node count, ending within the limit is the same as ending at all |
| `LayoutChains.MarkDecides` | crates/blitz-control-protocol/src/document.rs:1796-1800 | meeting any mark decides the climb rightly: a provisional mark means the chain is a loop |
| `LayoutChains.Climb` | crates/blitz-control-protocol/src/document.rs:1790-1811 | one climb decides its start rightly and marks exactly the nodes it pushed |
| `LayoutChains.SettleChain` | crates/blitz-control-protocol/src/document.rs:1813-1821 | after one candidate no provisional mark survives, every mark is right, and each pushed node is newly settled |
| `LayoutChains.LayoutChainValidities` | crates/blitz-control-protocol/src/document.rs:1775-1830 | the memoised map says yes for exactly the candidates the bounded walk accepts, and pushes no node twice over all candidates |
| `Walks.SemanticParent` | crates/blitz-control-protocol/src/document.rs:1161-1178 | the nearest element above, absent for the inspection's own root |
| `Walks.NodeIsVisible` | crates/blitz-control-protocol/src/document.rs:1180-1195 | visible exactly when the node and all its ancestors are |
| `Walks.DomChainIsAttached` | crates/blitz-control-protocol/src/document.rs:1197-1220 | finds the document root exactly when it is within the limit, for any links |
| `Walks.AttachedWithinTheNodeCount` | crates/blitz-control-protocol/src/document.rs:1203-1220 | the node count is limit enough to decide attachment |
| `Inspection.NearestElementIsNearest` | crates/blitz-control-protocol/src/document.rs:1169-1177 | the semantic parent is an element with no element in between; absent only when there is none above |
| `Inspection.VisibleMeansAllTheWayUp` | crates/blitz-control-protocol/src/document.rs:1180-1195 | inherited visibility means every node on the chain shows |
| `Traversal.PruningIsSafe` | crates/blitz-control-protocol/src/document.rs:2007-2009 | dropping a too deep element drops nothing that should have been offered |
| `Traversal.PushChildren` | crates/blitz-control-protocol/src/document.rs:2022-2031 | pushing children in reverse leaves the stack owing them in document order, with facts that fit each child |
| `Traversal.Turn` | crates/blitz-control-protocol/src/document.rs:2001-2031 | one pass of the loop moves exactly one node from what is owed to what is offered |
| `Traversal.AttachedSemanticCandidates` | crates/blitz-control-protocol/src/document.rs:1995-2035 | the one-pass traversal returns the full inspection: preorder, with parents and visibility as the upward walks find them |
| `Rooted.SemanticSubtreeIds` | crates/blitz-control-protocol/src/document.rs:1834-1860 | the rooted traversal lists the subtree in preorder, elements and text, inside the depth limit |
| `InspectDocument.AttachedTogether` | crates/blitz-control-protocol/src/document.rs:1422-1433 | a subtree is attached as a whole or not at all |
| `InspectDocument.RootedCandidates` | crates/blitz-control-protocol/src/document.rs:1422-1433 | the rooted branch: attached listed nodes with walked parents and visibility |
| `InspectDocument.InspectDocument` | crates/blitz-control-protocol/src/document.rs:1404-1443 | unknown roots are refused; otherwise whole or rooted candidates whose layout chain ends |
| `InspectionTheorems.InspectionIsExact` | crates/blitz-control-protocol/src/document.rs:1995-2035 | a full inspection holds exactly the attached elements and text inside the depth limit, once each, with exactly the parent and visibility that walking up gives |
| `InspectionTheorems.RootedInspectionIsASlice` | crates/blitz-control-protocol/src/document.rs:1422-1436 | a rooted inspection without depth limit is one contiguous slice of the full one, holding exactly the nodes under the root, same order and facts, except the root's own parent |
| `InspectionTheorems.BoundedInspectionIsASlice` | crates/blitz-control-protocol/src/document.rs:1422-1436 | under an element the same holds with a depth limit, against a full inspection whose limit is larger by the number of elements above the root |
| `InspectionTheorems.RootedInspectionIsExact` | crates/blitz-control-protocol/src/document.rs:1422-1436 | at any depth limit and for any root a rooted inspection holds exactly the attached elements and text under the root within the limit, each once, with walked facts; nothing for a detached root |
| `InspectionTheorems.ReportIsExact` | crates/blitz-control-protocol/src/document.rs:1421-1446 | what is reported, whole or rooted, are exactly those whose layout chain ends |
| `Forests.PreIsTheSubtree` | crates/blitz-control-protocol/src/document.rs:1834-1860 | the reference preorder holds exactly what hangs under a node, each once |
| `Forests.PreSlice` | crates/blitz-control-protocol/src/document.rs:1832-1833 | the preorder of a descendant is one contiguous piece of its ancestor's |
| `Chains.TopsBound` | crates/blitz-control-protocol/src/document.rs:1228-1229 | a chain that ends is shorter than the number of nodes |
| `CondensationCaches.CondensationCache.Insert` | crates/blitz-control-protocol/src/condense.rs:543-566 | stores the page, keeps the listing by last insertion, and evicts the oldest other key exactly when a new key meets a full cache |
| `CondensationCaches.CondensationCache.Position` | crates/blitz-control-protocol/src/condense.rs:550 | finds where a key stands in the order |
| `CondensationCaches.AfterIsSince` | crates/blitz-control-protocol/src/condense.rs:545-566 | what stands behind a key in the listing is exactly what was inserted since |
| `CondensationCaches.OrderAfterInsert` | crates/blitz-control-protocol/src/condense.rs:550-562 | remove, push and evict leave the newest `capacity` distinct keys of the whole history |
| `CondensationCaches.HoldsTheMostRecent` | crates/blitz-control-protocol/src/condense.rs:522-566 | after any insertions a key is held, with its last page, if and only if fewer than `capacity` other keys came since |
| `Structures.Structure` | crates/blitz-control-protocol/src/condense.rs:415-461 | on every list whose recursion ends, repeated ids or not: fills child and root lists in input order and builds the forest; the kept-name count is that forest's |
| `Structures.UniqueIdsReturn` | crates/blitz-control-protocol/src/condense.rs:430-450 | with unique ids the recursion ends whatever the parent links, cycles included |
| `Structures.BuildsTheSubtree` | crates/blitz-control-protocol/src/condense.rs:430-450 | `build` ends, lists the subtree in preorder, and mirrors each node with its own children |
| `Structures.ForestIsExact` | crates/blitz-control-protocol/src/condense.rs:415-455 | for any parent links, cycles and unknown parents included, the forest holds exactly the nodes whose chain ends, once, under their own parent, in input order |
| `Structures.EachUnderItsParent` | crates/blitz-control-protocol/src/condense.rs:415-455 | each listed node is a root exactly when its parent is absent or not listed, and a child of exactly its own parent when that is in the forest |
| `Structures.KeptCountsAreRight` | crates/blitz-control-protocol/src/condense.rs:456-466 | `nodes_kept` is the forest's size if and only if there is no cycle; then the forest is a permutation of the input and `bytes_kept` its total name length |
| `Structures.CycleIsMiscounted` | crates/blitz-control-protocol/src/condense.rs:456-461 | two nodes that are each other's parent: `nodes_kept` is two and the forest is empty |
| `Reach.GroupByParent` | crates/ps-qa/src/reach.rs:411-416 | groups ids by parent in input order, listed parent or not |
| `Reach.SubtreeOf` | crates/ps-qa/src/reach.rs:417-427 | on every list, wherever the subtree ends, the stack returns the whole of it, each node before what hangs below it |
| `Reach.OneTurn` | crates/ps-qa/src/reach.rs:420-425 | popping a node and pushing its children leaves exactly the rest of the subtree owed |
| `Reach.SubtreeIsWhatHangsBelow` | crates/ps-qa/src/reach.rs:417-427 | with unique ids a subtree that ends is exactly the nodes that climb to its root, once each |
| `Reach.EndingClimbsAreFinite` | crates/ps-qa/src/reach.rs:437-446 | with unique ids, on a climb that ends every ancestor's subtree ends |
| `Reach.FiniteClimbsAreShort` | crates/ps-qa/src/reach.rs:462-464 | a climb through subtrees that end is never longer than the node list, so the loop bound cuts none short |
| `Climbs.NoLateMain` | crates/ps-qa/src/reach.rs:438-446 | a `main` not met within as many steps as there are nodes is never met, parent cycles included |
| `Reach.AncestorHolds` | crates/ps-qa/src/reach.rs:462-486 | below an ancestor whose subtree ends, it holds every lower ancestor's subtree in one piece, on any list |
| `Reach.CoverageGrows` | crates/ps-qa/src/reach.rs:462-486 | button counts never shrink on the way up |
| `Reach.FirstAncestorIsTheParent` | crates/ps-qa/src/reach.rs:434-441 | a climb goes from a node to the parent it names |
| `Reach.LastSiblingFirst` | crates/ps-qa/src/reach.rs:413-425 | a subtree comes with its root first and the child listed last next |
| `Climbs.FullCoverageIsEverything` | crates/ps-qa/src/reach.rs:400-403 | with unique ids an ancestor covers the on-screen total exactly when every on-screen button hangs below it |
| `Climbs.TotalCountsTheShown` | crates/ps-qa/src/reach.rs:394-397 | the total is the number of listed nodes that are buttons and on screen |
| `Climbs.PaneUnderMain` | crates/ps-qa/src/reach.rs:437-446 | on every list finds the child right under the nearest `main`, or proves there is no `main` above |
| `Climbs.FullestAncestor` | crates/ps-qa/src/reach.rs:462-489 | the lowest ancestor of greatest coverage short of the whole screen, or nothing |
| `Climbs.OnSurfaceSubtree` | crates/ps-qa/src/reach.rs:362-489 | on every list on which it comes back: all ids without a marker, none without an on-screen match, else the marker's pane |
| `Climbs.ForestsReturn` | crates/ps-qa/src/reach.rs:417-427 | with unique ids and a climb that ends, all the subtrees these climbs walk through end |
| `Climbs.PaneIsUnique` | crates/ps-qa/src/reach.rs:362-489 | the rule leaves exactly one pane for a control |
| `Climbs.PaneHoldsItsMarker` | crates/ps-qa/src/reach.rs:356-361 | a pane that is not empty holds the control it was found by, and with unique ids nothing twice |
| `Climbs.InventorySurfaceSubtree` | crates/ps-qa/src/reach.rs:497-540 | an authored root counts exactly when one node matches and no other, with its subtree; otherwise the error says whether none or several did; without one the marker's subtree |
| `Climbs.TooLargeStaysTooLarge` | crates/ps-qa/src/reach.rs:690-697 | past a box too large or too high, nothing above is plausible |
| `Climbs.ButtonsAre` | crates/ps-qa/src/reach.rs:680-689 | with unique ids the controls a dialog is measured by are the listed nodes with the button role, in whatever case |
| `Climbs.SameButForCase` | crates/ps-qa/src/reach.rs:682-688 | roles are compared up to the case of ASCII letters and nothing else |
| `Climbs.EnclosingDialog` | crates/ps-qa/src/reach.rs:653-701 | the highest ancestor within eight levels holding at most twelve buttons, else the dismiss control alone |
| `Base64.Encode` | crates/blitz-control-protocol/src/guarded_writer.rs:396-417 | chunk by chunk, writes the text of the value, either alphabet, padded or not |
| `Base64.DecodesBack` | crates/blitz-control-protocol/src/guarded_writer.rs:396-417 | every encoding decodes to the value (sections 4 and 5 of RFC 4648) |
| `Base64.OnlyTheEncodingDecodes` | crates/blitz-control-protocol/src/guarded_writer.rs:396-417 | no other text decodes to that value when pad bits are checked (section 3.5 of RFC 4648) |
| `Base64.EncodedLength` | crates/blitz-control-protocol/src/guarded_writer.rs:397 | padded length is 4*ceil(n/3); unpadded length drops the filler |
| `Base64.LettersOfTheAlphabet` | crates/blitz-control-protocol/src/guarded_writer.rs:385-386 | each sextet is written as the letter at its place in the printed alphabet |
| `Percent.Encode` | crates/blitz-control-protocol/src/guarded_writer.rs:354-383 | byte by byte, writes the encoded value in each flavour and hex case |
| `Percent.DecodesBack` | crates/blitz-control-protocol/src/guarded_writer.rs:354-383 | all four flavours and both hex cases decode to the value, `+` read as space for forms (section 2.1 of RFC 3986) |
| `Percent.OnlySafeBytes` | crates/blitz-control-protocol/src/guarded_writer.rs:362-380 | encoded text has only plain bytes, percent signs, hex digits and, for forms, plus signs |
| `Percent.PlainIsAlphanumericOrPunctuation` | crates/blitz-control-protocol/src/guarded_writer.rs:362-370 | letters, digits and exactly the punctuation of the flavour stay as they are |
| `Percent.ByteIsSpelled` | crates/blitz-control-protocol/src/guarded_writer.rs:354-380 | any other byte is a percent sign and two hex digits in the case asked for, except the space of a form |
| `JsonEscapes.Escape` | crates/blitz-control-protocol/src/guarded_writer.rs:419-443 | character by character, writes the escaped value |
| `JsonEscapes.DecodesBack` | crates/blitz-control-protocol/src/guarded_writer.rs:419-451 | escapes read back as the value, control characters and surrogate pairs included (section 7 of RFC 8259) |
| `JsonEscapes.PairBack` | crates/blitz-control-protocol/src/guarded_writer.rs:434-439 | the surrogate pair of a character beyond the basic plane reads back as that character |
| `JsonEscapes.SlashesDecodeBack` | crates/blitz-control-protocol/src/guarded_writer.rs:325 | the form with escaped slashes reads back as the value too |
| `JsonEscapes.EscapedIsAscii` | crates/blitz-control-protocol/src/guarded_writer.rs:431-439 | escaped text is printable ASCII |
| `JsonEscapes.CharacterIsSpelled` | crates/blitz-control-protocol/src/guarded_writer.rs:419-451 | seven characters have a short escape, other printable ASCII stays, the rest takes one or two four-digit escapes in the case asked for |
| `JsonEscapes.EverySlashIsEscaped` | crates/blitz-control-protocol/src/guarded_writer.rs:325 | in the slashed form every slash follows a backslash and nothing else is added |
| `Secrets.RefuseIfSecret` | crates/blitz-control-protocol/src/guarded_writer.rs:239-255 | refuses if and only if some form of some known secret is in the bytes or the path, naming the first such secret |
| `Secrets.PieceIsClean` | crates/blitz-control-protocol/src/guarded_writer.rs:257-262 | a piece of clean bytes is clean |
| `Secrets.NoPieceReadsAsASecret` | crates/blitz-control-protocol/src/guarded_writer.rs:312-342 | no piece of bytes free of a secret is the secret, base64-decodes to it, or is a percent encoding of it |
| `Secrets.NoPieceIsAJsonEscape` | crates/blitz-control-protocol/src/guarded_writer.rs:317-327 | no piece of bytes free of a secret is any JSON form of it: escaped in either hex case, quoted or not, slashes escaped, or as the serialiser writes it |
| `Secrets.FreeOfExactly` | crates/blitz-control-protocol/src/guarded_writer.rs:257-262 | bytes pass exactly when no piece of them is one of the spellings looked for |
| `GuardedStores.LearnsEverySecret` | crates/blitz-control-protocol/src/guarded_writer.rs:139-178 | afterwards exactly the earlier secrets and the values shown of at least eight characters, or eight bytes when they are no text, are known |
| `GuardedStores.GuardedWriter.RegisterSecret` | crates/blitz-control-protocol/src/guarded_writer.rs:28-33 | a value is known afterwards exactly when it was before or is text of at least eight characters, or no text and at least eight bytes; nothing else changes |
| `GuardedStores.GuardedWriter.LockKnownSecrets` | crates/blitz-control-protocol/src/guarded_writer.rs:139-165 | learns the environment's secrets in order, touching no file |
| `GuardedStores.GuardedWriter.WriteFileLocked` | crates/blitz-control-protocol/src/guarded_writer.rs:68-82 | refuses before the destination is opened, else lands as far as the disk lets it |
| `GuardedStores.GuardedWriter.WriteFile` | crates/blitz-control-protocol/src/guarded_writer.rs:63-66 | keeps every file guarded and moves the store as specified |
| `GuardedStores.GuardedWriter.AppendFile` | crates/blitz-control-protocol/src/guarded_writer.rs:85-109 | checks the addition and then the whole final contents, so nothing straddles the boundary |
| `GuardedStores.GuardedWriter.CopyFile` | crates/blitz-control-protocol/src/guarded_writer.rs:112-117 | checks the source path, then writes its contents under the destination's rules |
| `GuardedStores.GuardedWriter.RenameFile` | crates/blitz-control-protocol/src/guarded_writer.rs:120-128 | checks both paths and the contents, then moves all or nothing |
| `GuardedStores.StepStaysGuarded` | crates/blitz-control-protocol/src/guarded_writer.rs:62-128 | every call on every disk, torn writes included, keeps each file free of the secrets known when it was put in place |
| `GuardedStores.RunStaysGuarded` | crates/blitz-control-protocol/src/guarded_writer.rs:62-128 | over any run from an empty store no file holds, in contents or path, a form of a secret known when it was last put in place |
| `GuardedStores.RefusalChangesNothing` | crates/blitz-control-protocol/src/guarded_writer.rs:239-255 | a refused call leaves every file as it was; no call forgets a secret |
| `GuardedStores.SecretsAreNeverForgotten` | crates/blitz-control-protocol/src/guarded_writer.rs:25-27 | over any run every secret once known stays known |
| `GuardedStores.SuccessIsClean` | crates/blitz-control-protocol/src/guarded_writer.rs:62-128 | a successful call puts the right contents at its target, free of everything known by then; only a rename takes a file away, and no other file changes |
| `GuardedStores.FailureIsABeginning` | crates/blitz-control-protocol/src/guarded_writer.rs:68-109 | a call the disk fails leaves its target as it was or holding a beginning of what success would have put there; an append never loses what was there |
| `GuardedStores.OnlySecretsAreRefused` | crates/blitz-control-protocol/src/guarded_writer.rs:239-255 | a refusal means a secret was there: the addition alone is never the only reason |
| `GuardedStores.OutcomesExactly` | crates/blitz-control-protocol/src/guarded_writer.rs:62-128 | every outcome exactly: refused when a path checked first, what the caller brings or what the target would hold has a secret; done when not refused and the disk plays along; a destination that does not open is left alone |
| `GuardedStores.RegisteredIsRefusedForGood` | crates/blitz-control-protocol/src/guarded_writer.rs:28-33 | after a value worth keeping is registered and any further calls, whatever gives it away in the contents to be put or the target's path is refused |
| `GuardedStores.SecretsKnownInTimeNeverReachDisk` | crates/blitz-control-protocol/src/guarded_writer.rs:1-5 | for secrets known before the first write, no piece of any file or of its path after any run gives one away: raw, base64, percent encoded or as JSON |
| `Plans.ReadSessions` | crates/ps-qa/src/plan.rs:408-452 | succeeds exactly when every session's bindings and variables are in order, and resolves each session's credentials; otherwise the error is that of the first session that is not |
| `PlanTheorems.CredentialsExactly` | crates/ps-qa/src/plan.rs:408-440 | what bindings and variables give a session, errors included: both variables, or neither for an optional session, and otherwise an error naming the missing ones |
| `Plans.NeighbourIsEnough` | crates/ps-qa/src/plan.rs:462-476 | a session that agrees with the last of its group agrees with the whole group |
| `Plans.IndexAccounts` | crates/ps-qa/src/plan.rs:455-478 | comparing each configured session with one predecessor succeeds if and only if every group uses one account; lists the holders of each username in order |
| `Plans.CheckAlias` | crates/ps-qa/src/plan.rs:479-498 | accepts a shared username exactly when somebody runs with it, and several only under one declared group; otherwise it says which of the two is amiss |
| `Plans.SkipAliases` | crates/ps-qa/src/plan.rs:479-506 | in whatever order usernames come up, succeeds if and only if all are allowed, and marks exactly the sessions that give way; an error is that of a username not allowed |
| `Plans.SkipUnconfigured` | crates/ps-qa/src/plan.rs:508-512 | sessions without credentials are skipped for that unless already skipped |
| `Plans.Resolve` | crates/ps-qa/src/plan.rs:408-512 | the plan is accepted if and only if it is readable, groups agree and aliases are allowed; the outcome of every session is decided; errors come in that order |
| `PlanTheorems.SharersDeclareOneGroup` | crates/ps-qa/src/plan.rs:479-492 | two sessions that run with one username declare one group and have equal credentials |
| `PlanTheorems.EveryAccountRuns` | crates/ps-qa/src/plan.rs:493-506 | every configured username keeps a session that runs |
| `PlanTheorems.AGroupIsOneAccount` | crates/ps-qa/src/plan.rs:462-476 | all configured sessions of a group have equal credentials |
| `PlanTheorems.AliasAllowedExactly` | crates/ps-qa/src/plan.rs:478-500 | a shared username is allowed exactly when some session must run with it and all that must share one declared group |
| `PlanTheorems.AcceptableExactly` | crates/ps-qa/src/plan.rs:408-512 | accepted exactly when readable, every group is one account and every username two sessions hold is shared properly |
| `PlanTheorems.WhoRunsExactly` | crates/ps-qa/src/plan.rs:501-512 | a session is skipped as unconfigured exactly without credentials, and for sharing exactly when it may give way and another session holds its username |
| `PlanTheorems.DocumentedRuleExactly` | crates/ps-qa/src/plan.rs:86-89 | the documented rule holds of an accepted plan if and only if, by plan and variables alone, every session marked to give way names the group of the unmarked sessions with its username |
| `PlanTheorems.DocumentedRuleCanFail` | crates/ps-qa/src/plan.rs:86-89 | an accepted plan in which two configured sessions share a username but no group |

## Left out

- The retry loops of `recv`, `changed_since`, `raised` and `next_after` are step machines (enable, look, park, resume, call again) and not methods with loops, because another task may step between any two of their lines.
- Memory orderings: loads and stores of the atomics are single sequentially consistent steps; the internals of the notification primitive and of the locks are not modelled.
- LatestRuns.LastHandedTheNewest: promises nothing to a reader that slept through a whole round of the 64-bit revision, because the counter wraps.
- Wall-clock deadlines: a timeout is one of the things that can arrive next.
- Journal.DiagnosticJournal.Publish: does not model the panic and the poisoned lock at sequence 2^64 - 1; the publish is refused there instead.
- Connections fed by `Latest` instead of a journal, the encoding of frames, the initialise and tool-list answers, and the best-effort farewell before a broken connection closes.
- Clients.Client.NextId: does not model the overflow of the signed 64-bit request counter.
- ClientRuns.RunInv: does not separate a drain from a paint wait between exchanges; either takes some frames out of the stream and leaves the queues in any state, or loses the connection.
- Plans.ReadSessions: does not model that credentials are registered as secrets as they are read.
- Clearing stale paints before arming paint events, and capturing the target context of an answer.
- Everything an inspection reports beyond id, parent and visibility: roles, names, labels, bounds, text exposure.
- LayoutChains.LayoutChainValidities: agrees with the bounded walk only for limits of at least the node count, the limit its caller passes; below it the memoised form looks one node further.
- Structures.Structure: promises nothing on a list on which the recursion of the code never ends, as with 5 once as a root and once under 7, and 7 under 5; `text_bytes`, previews and keywords are not modelled.
- Selector matching is an arbitrary predicate, and whether a node is on screen is a flag of the node.
- Climbs.OnSurfaceSubtree: promises nothing when the code would walk through a subtree without end, which keeps its stack busy for ever.
- Climbs.InventorySurfaceSubtree: the same.
- Climbs.EnclosingDialog: the same.
- Reveal chains, expanders, dismiss ordering, coverage sums and the application profile of the QA harness.
- Secrets.NoPieceReadsAsASecret: covers the texts the encoders write; a decoder that accepts more spellings, such as mixed hex cases, reads other texts the guard does not look for.
- UTF-8 reading and the inside of a JSON string as the serialiser writes it are parameters of the guard.
- Which environment variables count as secrets, and the redaction of refusal messages; the environment shows the guard any list of names and values before each call.
- Directories, links, path canonicalisation and file modes: a path is its bytes, and creating parents never fails on its own.
- Plan loading and validation, host and page bindings, assertion values; an environment value is unreadable, blank or text.
- Plans.SkipAliases: leaves open which of several errors is reported, because the code visits a hash map in no fixed order.
