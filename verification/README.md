# Sprout relay: a verified model

A sprout relay exchanges content-addressed nodes (identities, communities and replies) with other
relays over line-oriented connections. This project models that program and proves what it is for:
stores stay closed under any interleaving, ingestion and synchronization succeed against a peer that
runs the same handlers, an announced node floods to every relay that wants it and the flood stops,
what is printed on the wire is what is read, and replies reach the requests they answer.

To verify the whole project: `dafny verify dfyconfig.toml`.

## How it is organised

| Files | Subject |
|---|---|
| `Wrappers`, `Sets` | optional values; sizes of sets |
| `Forest`, `Sorting` | nodes, ancestry, descendants; what a library sort promises |
| `Ingestion`, `SharedStore`, `HonestPeer` | ingestion as programs of atomic store accesses; any number of them on one store, fed with arbitrary answers or with those of a peer running the handlers |
| `LeafRequests` | which answers a request for leaves may get, and when they are leaves |
| `Network`, `Coverage`, `LeafFlood`, `Termination`, `Convergence`, `Provenance` | a graph of relays, announcements, ingestions and losses as steps; what a flood reaches and what it does not |
| `Worker`, `Session` | the handlers, ingestion and bootstrap with their real loops, as classes over shared stores |
| `Format`, `Base64Url`, `Wire`, `Schemas` | formatted printing and scanning, node payloads, the ten verbs; that ids and nodes can be written as assumed |
| `Connection`, `Correlation`, `TwoPeers`, `Blocking`, `Writers` | the reader loop, one side of a connection with many callers, two sides, when a reader blocks, concurrent senders |
| `Refinement` | methods of workers and connections as sequences of moves of the transition systems |
| `ExpiringSet` | the set of recently written files |

Two levels describe ingestion on purpose. In `Workers` the methods of the source are methods with
loops; whatever other goroutines do to a store between two accesses of ours is `Store.Others`, which
callers know only by its contract (nodes are added, the store stays closed, and all its nodes are
well-formed). In `Ingestion` the same procedures are sequences of atomic instructions that can be
interleaved: `SharedStore` proves that every interleaving keeps stores closed whatever peers answer,
except to the author queries of community joins, where it says exactly which answers do no harm,
and `Network` proves the whole contract, well-formedness included, among relays that answer with the
handlers.

## Assumptions

- Ids are collision-free hashes: an id is a constructor applied to the node it identifies.
- Deep validation succeeds exactly when the author and, for a reply, the parent and the community are
  stored. It does not look at anything else.
- A well-formed reply is one deeper than its parent, belongs to its parent's community, and has an
  identity as its author; communities and identities have no parent. A community's author is an
  identity. Closure under arbitrary answers (`SharedStore`) does not assume any of this.
- Adding a node inserts it and notifies every subscriber of the store except the adder. Stores only
  grow and their operations do not fail.
- The text of an id is not empty, has no white space and parses back; marshalling a node gives at
  least one byte and unmarshals back (`Wire.Lawful`, which `Schemas.LawfulExists` shows can be met).

## Where the code and its documentation differ

- The comment on bootstrapping (worker.go:333-335) says that communities are validated. They are added
  without validation (worker.go:351-355), and the answer to the query for an author is not compared
  with the id asked for (worker.go:454-461). Against answers of the handlers the store stays closed
  all the same. Against arbitrary answers every interleaving keeps it closed exactly under the
  condition of `SharedStore.JoinClosure`; `SharedStore.JoinMayBreakClosure` names answers that fail it.
- The request for leaves (sprout.go:284) is answered with descendants, leaves or not (worker.go:183).
  `LeafRequests.InnerNodeAnswered` is an input on which the promise fails, and
  `LeafRequests.LeavesPromiseExact` says exactly when every possible answer keeps it.
- A session is called a set (session.go:9-10). It counts subscriptions, because its keys are pointers;
  `SessionState.SetRefinementExact` says when the difference shows.

## Model

| member | source | states |
|---|---|---|
| Forest.ClosedHoldsAncestry | worker.go:234-242 | A store in which every node has its direct dependencies holds the entire ancestor chain of every node, each ancestor valid. |
| Forest.AncestorsByDepth | worker.go:402-409 | In a well-formed chain position equals depth, each element is the parent of the next, and the root is the community of all. |
| Forest.LineageIsChainSuffix | worker.go:159-173 | The walk up to `levels` parents yields exactly the part of the whole chain next to the node, cut at the smaller of `levels` and the generations known without a gap; nothing for negative levels. |
| Forest.DescendantsExact | worker.go:183 | In a closed store the descendants of a node are exactly the stored nodes that have it for an ancestor, whoever wrote them. |
| Sorting.DistinctKeysSortOneWay | worker.go:406-408 | When keys are distinct, an unstable sort has one possible outcome. |
| Sorting.Sort | worker.go:197-199 | The result is an ordered permutation; nothing about elements with equal keys. |
| Ingestion.ExecKeepsGuard | worker.go:243-275 | Whatever a peer answers, each step of an ingestion or synchronization keeps every later insertion guarded by a validation of the same node, and inserts only nodes whose dependencies are stored. |
| SharedStore.ConcurrentClosure | worker.go:243-275 | In every interleaving of any number of ingestions, synchronizations and community joins, with failures anywhere, every stored node has its author, community and whole ancestor chain (with authors) stored, and nothing is lost. All answers are arbitrary, except that those to the author queries of joins meet the condition of JoinClosure. |
| SharedStore.ChainedAreFree | worker.go:396-421 | That exception never concerns an ingestion or a synchronization. |
| SharedStore.JoinClosure | worker.go:351-358 | From a closed store, every interleaving of ingestions, synchronizations and joins keeps closure if and only if each answer that may arrive to a join's author query is an error, or not exactly one node, or the author, or a node that cannot be stored without the author or at all, or is for an author stored from the start. |
| SharedStore.JoinBreaks | worker.go:454-461 | For every other answer, an interleaving after which the community is stored without its author. |
| SharedStore.ComparingKeepsClosure | worker.go:454-457 | If an answer were accepted only when it is the author asked for, no interleaving would break closure. |
| SharedStore.JoinMayBreakClosure | worker.go:454-461 | Two concrete answers that break closure starting from an empty store: another identity, and a community of another identity that an ingestion brings in the meantime. |
| HonestPeer.AncestryInOrder | worker.go:253-269 | In a root-first ancestry, and in it followed by the node, all dependencies other than authors precede their dependents. |
| HonestPeer.DepthSortRestoresOrder | worker.go:402-420 | Sorting any permutation of a node's complete ancestry by depth gives root-first order, so with the node appended dependencies precede dependents. |
| HonestPeer.HonestStep | worker.go:430-465 | Fed by a peer with a closed store that answers with the handlers, no step of any run aborts, each insertion is valid at that moment and known to the peer, the rest of the run stays safe, and all it promised to store is stored or still promised. |
| HonestPeer.FoundExact | worker.go:136-148 | The answer to a query has every known node asked for, of any kind, in the place given by how many known ids precede it, and as many nodes as there are known ids. |
| HonestPeer.ValidNeedsNoPeer | worker.go:243-248 | An ingestion of a node that validates already makes no request. |
| HonestPeer.AgreeingSyncIsSilent | worker.go:396-401 | What is left of a synchronization whose selected leaves are all stored adds nothing and makes no request. |
| HonestPeer.AnswersStay | worker.go:402-405 | A peer's answer about a known node's ancestry or a known author is the same whenever it is computed, however its store grows, so a reply may be consumed late; for leaves the answer may stem from any earlier store of the peer. |
| LeafRequests.LeavesExact | worker.go:378-379 | In a closed store the leaves below a node are exactly the stored nodes that have it for an ancestor and are no stored node's ancestor. |
| LeafRequests.LeavesPromiseExact | sprout.go:284-288 | Every answer a request for leaves may get consists of leaves if and only if each descendant that has a child is crowded out by at least as many newer descendants as were asked for. |
| LeafRequests.InnerNodeAnswered | worker.go:181-204 | The promise fails in every store with a community, a reply and a reply to that reply, when two leaves are asked for. |
| LeafRequests.PromiseFails | worker.go:181-204 | A concrete closed store in which it does. |
| Network.RunStep | worker.go:316-320 | The same inside a network: the run stays good, its store stays closed and within the universe. |
| Network.QueuedExact | worker.go:274 | An insertion by a run queues the node once for every other link of the relay and never for the link of its own run, a publication once for every link, and no other move queues anything. |
| Network.MoveKeepsInv | worker.go:277-326 | Every move of a network of relays (forwarding, delivery, ingestion step, publication, loss, failure) keeps all stores closed, all runs safe and all notices about stored nodes. |
| Coverage.MoveKeepsCovered | worker.go:82-104 | Per link: if one end holds a node that both ends want, the other holds it, has it promised by a run, or a notice of it is queued or in flight. |
| Coverage.StartsCovered | worker.go:286-296 | The invariant holds at the start of a flood: for nodes no relay holds and for nodes held at both ends of each subscribed link or at neither. |
| Coverage.FloodCoverage | worker.go:277-326 | In every lossless run that starts with a node new, level or on its way and ends quiet, any relay that held the node at any point has passed it to every relay that a path of subscribed links connects to it. |
| LeafFlood.LeafBelow | worker.go:378-391 | In a sound store every descendant of a root is a leaf below it or an ancestor of one. |
| LeafFlood.AnnouncedLeavesBringTree | worker.go:378-394 | From any closed stores: when a worker announces its leaves below a root to a peer with which the community is shared, and the run is lossless and ends quiet, the peer ends up with everything the worker had below the root. |
| Termination.MoveDescends | worker.go:286-296 | Every move lowers the lexicographic measure (missing relay/node pairs, pending repeats, notices, remaining work), with absence test and insertion as separate steps. |
| Termination.FloodTerminates | worker.go:82-104 | No schedule keeps a finite network moving forever. |
| Convergence.GoodStart | worker.go:339-370 | The network theorems apply from any closed stores with any ingestions, synchronizations and community joins under way. |
| Convergence.NothingRejected | worker.go:263-272 | Among relays running the handlers no validation ever fails and no invalid node is about to be added, in any run with any losses. |
| Convergence.Progress | worker.go:314-325 | A network that is not quiet can always make a lossless step: there is no deadlock. |
| Convergence.FloodConverges | worker.go:277-326 | Every schedule that moves while it can falls quiet, and then a node that was new, level or on its way at the start is held by all or none of the relays that subscribed links connect. |
| Provenance.FloodReaches | worker.go:82-104 | In terms of links and sessions alone: by the time a lossless run is quiet, whoever held a node has passed it along every path of links if it is an identity or community, and along every path of links with both ends subscribed to its community if it is a reply. |
| Provenance.PublicationReaches | worker.go:82-104 | Any valid node may be published where it is missing, and every busy schedule then brings it to the end of every such path. |
| Provenance.OnlyOpenPathsCarry | worker.go:298-309 | The converse: in any run of publications, announcements and ingestions from a quiet network, with any losses, a relay that holds a node new at the start is at the end of such a path from a relay where it was published. |
| Provenance.LossBreaksCoverage | sprout.go:186-188 | A run in which one lost announcement keeps a node from the end of such a path for good: the assumption that nothing is lost is needed. |
| Provenance.FailureBreaksCoverage | worker.go:316-319 | Likewise a run in which an ingestion fails. |
| Workers.SortedWalkIsLineage | worker.go:174-177 | The depth sort of a walk up the tree equals its reversal, because depth strictly decreases along it. |
| Workers.Worker.OnQuery | worker.go:136-148 | The known nodes among those asked for, in the order asked. |
| Workers.Worker.OnAncestry | worker.go:150-179 | An error for an unknown node; otherwise exactly the known parent chain, root first, cut as above. |
| Workers.Worker.OnLeavesOf | worker.go:181-204 | A crash exactly for negative quantities; otherwise the newest `quantity` descendants, oldest first, no omitted one newer than a selected one; only leaves when every possible answer has only leaves. |
| Workers.Worker.OnSubscribe | worker.go:206-218 | Adds one to the count of the community and changes no other. |
| Workers.Worker.OnUnsubscribe | worker.go:220-232 | Takes one from the count of the community unless it is zero and changes no other. |
| Workers.Worker.HandleNewNode | worker.go:82-104 | New identities and communities are announced always, new replies exactly when the session counts their community. |
| Workers.Worker.OnAnnounce | worker.go:277-326 | Ingestion is started, in order, for exactly the announced nodes that are neither expired nor stored and are identities, communities, or replies whose community the session counts. |
| Workers.Worker.EnsureAuthorAvailable | worker.go:430-465 | On success the author is stored; against a peer that has it only a request can fail; nothing but the author is added, and only if missing at the start; an author stored at the start is not asked for. |
| Workers.Worker.IngestNode | worker.go:243-275 | Under any interference: never a failed validation; on success the node, its ancestors and all their authors are stored; nothing else is added, and of what was stored only the node itself is added again; with requests answered and the node known to the peer it succeeds, and a node that validates at the start needs no request. |
| Workers.Worker.FillIn | worker.go:253-269 | The loop over a fetched ancestry stores all of it, adds nothing stored before, and fails only with a request. |
| Workers.Worker.SynchronizeFullTree | worker.go:372-424 | On success our leaves have been announced once, before anything was added, the newest `maxNodes` descendants of a peer store no older than the call were selected, and all of them with ancestors and authors are stored; only requests fail; if the selected nodes were stored, nothing is added. |
| Workers.Worker.SynchronizeLeaf | worker.go:396-421 | One turn of that loop stores the leaf with its kin or reports a failed request; a leaf stored at the start is left alone. |
| Workers.Worker.SecureChain | worker.go:410-420 | Every node of a sorted ancestry passes validation in turn and is added, stored before or not. |
| Workers.Worker.AnnounceLocalLeaves | worker.go:378-394 | One announcement is made, of exactly the childless descendants stored at one moment of the call. |
| Workers.Worker.BootstrapLocalStore | worker.go:339-370 | The store stays closed although communities are not validated; every community reported joined is stored, subscribed at both ends and synchronized; with requests answered all communities the peer had are joined if no more than asked for; every listed community whose author was stored is stored, whatever happened to the others. |
| Workers.Worker.JoinCommunity | worker.go:351-368 | One turn of that loop. |
| Workers.Worker.EnterCommunity | worker.go:351-363 | The community is added before the peer is asked to subscribe, and our session counts it once more exactly when the peer has confirmed; no other count changes. |
| Workers.KinExact | worker.go:234-242 | What is meant by the kin of a node: itself, its ancestors, and the authors of all of these. |
| Workers.SyncCompleteness | worker.go:372-424 | What a successful synchronization means: every descendant the peer had is stored when there are at most `max`; otherwise at least `max` of them with their ancestors, and nothing lacking is newer than anything selected. |
| SessionState.Session.Subscribe | session.go:22-27 | A fresh pointer adds one to the count of its community and changes no other. |
| SessionState.Session.IsSubscribed | session.go:29-39 | True exactly when the count is positive. |
| SessionState.Session.Unsubscribe | session.go:41-51 | Takes one from the count unless it is zero and changes no other. |
| SessionState.Replay | session.go:22-51 | After any history of subscribes with fresh pointers, unsubscribes and queries, each count is the number of outstanding subscriptions, and the queries were answered by it. |
| SessionState.SetRefinementExact | session.go:9-14 | The session answers the queries of a history like a plain set if and only if no query finds a community whose last unsubscribe, with no subscribe since, met more than one subscription. |
| SessionState.DoublingMayShow | session.go:41-51 | After two subscribes and one unsubscribe a query is answered yes where a set answers no. |
| ExpiringSets.ExpiringSet.Purge | cmd/relay/expiring_set.go:35-46 | Exactly the elements whose expiration is before the time sampled are removed. |
| ExpiringSets.ExpiringSet.Add | cmd/relay/expiring_set.go:28-33 | The purged map with the element dated by a second sample of the clock. |
| ExpiringSets.ExpiringSet.Has | cmd/relay/expiring_set.go:48-55 | Membership in the purged map. |
| ExpiringSets.Replay | cmd/relay/expiring_set.go:28-55 | Whatever calls are made, the set holds what their steps leave, an addition being dated when it is made and not when it purges, and questions are answered accordingly. |
| ExpiringSets.PresenceExact | cmd/relay/expiring_set.go:28-55 | Whatever the clock does and however the locked steps of concurrent calls interleave, an element is present if and only if the expiration set by its latest addition is not before the time of any purge since. |
| ExpiringSets.LazyPurgeExact | cmd/relay/expiring_set.go:48-55 | Asking tells whether the latest addition has expired if and only if it has, or no purge since was dated after its expiration. |
| ExpiringSets.LazyPurgeInvisible | cmd/relay/expiring_set.go:28-55 | Over any history of calls with a clock that does not go back, an element is present exactly when its latest addition has not expired at the time of asking. |
| ExpiringSets.BackwardClockShowsPurge | cmd/relay/expiring_set.go:35-46 | A concrete history in which a clock set back makes an earlier purge visible. |
| Format.ScanPrintedNumber | sprout.go:458-466 | A printed 64-bit number scans back, whatever follows that is not a digit. |
| Format.NumbersSpelled | sprout.go:458-466 | Numbers are printed in decimal, sign first. |
| Format.DecimalPlain | sprout.go:458-466 | Without leading zeros. |
| Format.RoundTrip | sprout.go:38-49 | For every format in which each argument is followed by something that ends it: scanning what was printed, with any input behind it, yields the arguments and consumes exactly the printed characters. |
| Base64Url.EncodedRoundTrip | sprout.go:299-305 | For byte strings of every length the text decodes to the same bytes, has the unpadded length, and is one word unless empty. |
| Base64Url.AlphabetSpelled | sprout.go:299-305 | The characters for 0 to 63 are those of RFC 4648 section 5, written out. |
| Base64Url.SextetsSpellBytes | sprout.go:299-305 | As a number in base 64, the text is the bytes as a number in base 256, shifted by the zero bits that fill the last character. |
| Base64Url.DecodeDefined | sprout.go:735-739 | Text decodes exactly when, line breaks aside, its characters are of the alphabet and no single one is left over. |
| Wire.MessageText | sprout.go:25-49 | The text of each of the ten messages, verb, fields and separators written out. |
| Wire.LineTexts | sprout.go:299-305 | A node line is the id, a space and the payload; an id line is the id. |
| Wire.VerbsExact | sprout.go:522-682 | The ten words and no others are verbs. |
| Wire.NodeMatchesId | sprout.go:692-711 | Whatever a node line yields is the node its payload decodes to and hashes to the id in front of it. |
| Wire.ReadPrintedNode | sprout.go:685-714 | A printed node line yields the same node and consumes exactly that line. |
| Wire.ReadPrintedNodes | sprout.go:307-315 | Counted node lists read back in order. |
| Wire.ReadPrintedIds | sprout.go:241-249 | Counted id lists read back in order. |
| Wire.MessageRoundTrip | sprout.go:513-683 | Each message of the ten verbs reads back as itself, and reading consumes exactly its own characters, whatever follows. |
| Wire.StreamRoundTrip | sprout.go:38-49 | Any sequence of messages, printed one after the other, reads back as the same messages in order. |
| Schemas.LawfulExists | sprout.go:299-305 | There are id texts and marshalled forms with the properties assumed of them. |
| Connections.Conn.GetNextMessageId | sprout.go:123-129 | Numbers are handed out in sequence. |
| Connections.Conn.WriteMessageAsync | sprout.go:115-121 | The channel is registered whether or not the write succeeds; a failed write leaves it behind. |
| Connections.Conn.Cancel | sprout.go:147-154 | Removes the registration of that id only. |
| Connections.Conn.SendToWaitingChannel | sprout.go:484-498 | A reply is delivered and its registration removed exactly when its id is registered; otherwise it is unsolicited and nothing changes. |
| Connections.Conn.ReadNodeIds | sprout.go:716-733 | Refines the specification of counted id lists; overruns exactly for negative counts. |
| Connections.Conn.ReadNodeLines | sprout.go:685-714 | Refines the specification of counted node lists; overruns exactly for negative counts. |
| Connections.Conn.ReadMessage | sprout.go:513-683 | Refines the specification of reading: a message that parses is consumed completely even when it is unsolicited, has no handler or its handler fails. |
| Connections.Conn.Run | worker.go:51-79 | Given any sequence of messages, with unknown words among them, the loop takes those before the first request without handler or with a failing one: requests dispatched in order, of the replies exactly the awaited ones delivered, unsolicited ones skipped. |
| Connections.RequestsExact | sprout.go:522-682 | Dispatched are the messages other than responses and statuses, each as often as it came. |
| Connections.AwaitedExact | sprout.go:484-498 | Delivered are exactly the first replies to ids that are waited for, each id once. |
| Connections.ReadShrinks | worker.go:62-71 | Each read after which the loop goes on consumes input, unknown verbs included. |
| Correlation.CorrelationSafety | sprout.go:484-498 | Whatever arrives and whenever callers give up or cancel: ids are never reused, each channel is sent to at most once, only with a reply carrying its own id, and closed at most once, after the send. |
| Correlation.TablesAgree | sprout.go:159-454 | For every request, the kind of reply that the worker's handler sends is the kind that the sending function waits for: a response for list, query, ancestry and leaves_of, a status otherwise. |
| TwoPeers.ReplyDiscipline | worker.go:106-232 | Between two workers the replies of one side are exactly those due to the requests it has taken, in wire order, one each, of the kind each handler sends, up to the one it is handling. |
| TwoPeers.ExpectedKind | sprout.go:172-238 | A caller only ever receives the kind of reply it expects. |
| TwoPeers.UnsolicitedOnlyWhenWithdrawn | sprout.go:484-489 | Between two workers a reply is unsolicited only if its request was given up or cancelled. |
| TwoPeers.CountIsLargestNet | session.go:22-51 | How often a session counts a community is the largest surplus of subscriptions over unsubscriptions in any final part of the requests taken. |
| TwoPeers.SubscribePrecedesAnnounce | worker.go:359-394 | When a peer comes to the announcement made for a joined community, it has taken a subscription of it before; its session contains the community if some final part of the requests taken has more subscriptions than unsubscriptions of it, in particular if none of the latter followed some subscription, and only then unless it has subscribed itself. |
| Blocking.BlockedForever | sprout.go:490-496 | A reader about to send to a caller that has given up, been cancelled or failed to write never reads again, in any run. |
| Blocking.StuckExactly | sprout.go:490-496 | In every run a reader about to send cannot complete the send if and only if its caller is gone in one of these ways. |
| Blocking.ReaderMayBlock | sprout.go:186-188 | A run of two workers in which this happens. |
| Blocking.LateReplyIgnored | sprout.go:485-488 | In every run a reply read after its caller has given up and cancelled is unsolicited, and the reader goes on. |
| Blocking.ReplyMayBeLate | sprout.go:186-188 | A run of two workers in which this happens, which leaves no registration. |
| Blocking.LeakStays | sprout.go:115-121 | At any time after a failed write, in every run, the registration is still there, or its id was cancelled, or a reply with its id has come and blocks the reader for good. |
| Refinement.PassesIsWanted | worker.go:94-99 | The worker's decision to announce is the network's condition for forwarding. |
| Refinement.AnnouncementIsNotices | worker.go:277-326 | Handling an announcement starts exactly the ingestions that the network starts when its nodes are delivered one by one and the expired ones among them lost. |
| Refinement.Send | sprout.go:115-121 | Sending a request is a caller drawing a number, registering, and writing or failing to. |
| Refinement.Cancel | sprout.go:152-154 | Cancelling is the corresponding move. |
| Refinement.HandleSubscription | worker.go:206-232 | Handling a subscription or unsubscription changes the counts of the session as the reader's move does. |
| Refinement.JoinOwn | worker.go:363 | So does subscribing locally once the peer has confirmed. |
| Refinement.Deliver | sprout.go:484-498 | Handing a reply over is the reader taking it, removing the channel, sending and closing, or finding it unsolicited. |
| Writers.MoveKeepsInv | sprout.go:123-145 | At every point the stream is a concatenation of complete messages followed by a prefix of the one whose sender holds the lock, and numbers drawn are distinct. |
| Writers.DistinctOnTheWire | sprout.go:115-145 | In every interleaving each sender writes its own message, and no two requests carry the same id, if each request carries the number drawn for it. |
| Writers.NumbersWithoutGaps | sprout.go:123-129 | In every run the numbers drawn are 0, 1, 2 and so on without a gap. |
| Writers.WholeMessageWrites | sprout.go:108-145 | In every interleaving of concurrent senders the finished stream reads back as all their messages, each exactly once. |

## Left out

- Connections.Conn.GetNextMessageId: does not model 64-bit wrap-around of message numbers, because the counter never gets there; ids are unbounded until they are printed, where `Wire.InRange` bounds them.
- Workers.Worker.OnListCommunities: stands for the store's listing of recent nodes, which is not part of this model; which communities are listed when there are too many is left open.
- Workers.Worker.HandleNewNode: the goroutine and the request it makes are moves of `Network`, not part of the method; `Refinement.PassesIsWanted` relates the two.
- Connections.Conn.Run: what is registered and which handlers fail is fixed while the loop reads; callers that register, cancel and give up meanwhile are the subject of `Correlation` and `TwoPeers`.
- Workers.Worker.OnAnnounce: has no node of an unknown type and does not send the status; returns the nodes to ingest; the goroutines that ingest them are runs of `Network`, related to it by `Refinement.AnnouncementIsNotices`.
- A handler in `Workers` reads its store at one moment. In `Correlation` and `TwoPeers` stores are not modelled.
- Subscriptions are fixed while a network of relays runs; an unsubscribe, expiry and a timeout appear there as lost notices and failed runs.
- An announcement of several nodes is several notices in `Network`, delivered in any order.
- Version negotiation and the meaning of status codes: replies are told apart by kind only, and a status other than ok counts as a failed request.
- What a broken message leaves unread: the connection is closed after it.
- Shutdown through the Done channel, which may end the reader loop after any message.
- Liveness of the reader: the code does not guarantee it, as `Blocking` shows.
- Text that is not valid UTF-8, and the width of a node type: it is scanned here as a 64-bit number.
- The moment at which a worker subscribes to its store (worker.go:60): it is subscribed from the start.
- Printing after parsing: scanning skips extra spaces and the decoder ignores stray trailing bits, so only parsing after printing is an identity.
- Wire order need not follow id order; `Writers` lets senders draw numbers and write in different orders and claims nothing about it.
- The forest library (signatures, hashing, marshalling, storage), the purger of expired nodes, and removal from stores.
- TLS, dialing, listening, the supervisor, file watching, logging, metrics, signals and real time.
