# chat-store: a verified model

chat-store keeps three SQLite tables: a keypackage history per device, one v0 device-list bundle per account and
one v1 append-only log per account. Submissions arrive over HTTP or over logos-delivery, are decoded and verified,
and are then applied by a store whose writers share one lock. This project models that store and the pipeline in
front of it, and proves what holds of every run and of every interleaving.

## How it is built

| file | what it holds |
|---|---|
| `Basics.dfy` | bytes, fixed-size keys and signatures, the `u64`/`i64` casts written out |
| `Hex.dfy`, `Base64.dfy` | the two text codecs, sections 8 and 4 of RFC 4648 |
| `Header.dfy` | the `domain, version, lamport` header of a v0 account payload |
| `Retention.dfy` | days to seconds to milliseconds to cutoff, with every wrap |
| `Tables.dfy` | the tables, one atomic `Event` per mutation, `Next`/`Answer`, serial histories `Run` |
| `KeyPackages.dfy`, `Schedule.dfy` | laws of the two deletes; whole histories of inserts and prunes |
| `Accounts.dfy`, `Logs.dfy` | whole histories of the v0 and v1 account tables |
| `Projection.dfy`, `Reachable.dfy` | keys do not interfere; what every reachable row satisfies |
| `Pipeline.dfy` | both wires, verification, refusals, HTTP statuses, runs of the whole service |
| `Fetching.dfy` | the three GETs and their round trips with the publishes |
| `Delivery.dfy` | topics, decoders and the queue of delivered bundles; what draining it leaves in the tables |
| `Ticks.dfy` | the prune loop's ticks; what any number of them leaves in the tables |
| `Locking.dfy` | the write lock as single steps of interleaved threads: refinement to `Run`, what each call commits, order, progress |
| `Interleavings.dfy` | the results on serial histories, carried over to every interleaving of the service's calls |
| `Server.dfy` | the store as an object, the publish calls, the ingest loop, the prune loop |
| `Benchmark.dfy` | the load test's work partition and key seeds |

The main results, each for all inputs:

- every interleaving of the writers' steps with readers that take no lock is a serial history in lock order, which
  also respects real time, with the same tables and the same replies; each read sees a whole number of commits;
- the clock is sampled under the lock, so a clock that does not go back stamps that history in order;
- nothing commits between the two deletes of a prune, no call takes more than five steps, and while any call is
  unfinished some call can take its next step;
- when prunes run cannot be told from the keypackage table after the last one, nor from any insert's answer, in any
  interleaving and for every cap that keeps a row at all;
- the keypackage history read by "newest first" is a single register per device, with expiry;
- a v0 row is the earliest submission of maximal lamport since the row was last deleted;
- v1 logs form a strict prefix chain, refusals are permanent, and the final log decides every answer after the fact;
- what is proved of v0 rows and v1 logs on serial histories holds of what readers see and callers are told under any
  concurrency: winners, refusals, forks, convergence;
- every row any reader can see verifies under its own key, and no key's submissions affect another key's rows;
- the two wires are interchangeable submission by submission;
- draining a queue of deliveries stores every keypackage that verifies and every sound account bundle that is not
  outdone, and nothing else; any number of prune ticks leaves exactly the rows within the operator's two settings;
- what is published is fetched again character by character, and the text codecs and the header are pinned digit by
  digit and byte by byte.

Ed25519 verification, key validity, the account-log decoder and the protobuf decoders are arbitrary functions (`Rules`
and `Wire`): the results hold for all of them. The account-log crate's comparison is modelled by its documented rule
(the repository's README.md:221-226 and README.md:243-251, and src/store.rs:187-190). Clock readings are inputs.

## Where the code and its documentation part

The model follows the code. README.md below is the repository's own.

- The store promises that a replayed older bundle cannot downgrade the device list (src/store.rs:119-125). It keeps no
  lamport once a prune has deleted the row, so a lower lamport is then accepted: `DowngradeAfterPrune` gives the run for
  any two sound bundles of an account, `RefusedIff` says exactly when a submission is refused.
- `--retention-days` is promised as the window to keep (README.md:76). From 213,503,982,335 days on, the millisecond
  count no longer fits 64 bits and only its remainder is used: `OneDayTooMany` gives the value, `CutoffExactIff` the
  exact condition.
- `--max-per-identity` is promised as the number of bundles kept (README.md:75). It is cast to `i64`, so from 2^63 on it
  empties the table, like zero does: `CapEmptiesIff`, and `CapCountIff` says exactly when the promised number is kept.
  Under such a cap, and under no other, an insert's answer can show that a prune ran: `AnswersHidePrunesIff`.
- `POST /v0/keypackage` is documented to answer 204 or 400 (README.md:152-155). A second bundle for one device in the same
  millisecond meets the primary key and is answered 500: `KeyPackagePublish`, `DuplicateIffSameMillisecond`.
- A key is accepted in any casing when publishing, but `GET` looks the given text up as it is: after an accepted
  publish the very text published is found exactly when it is in lower case (`FetchFindsIffLowerCase`).

## Model

| member | source | states |
|---|---|---|
| Hex.DecodeIffCasing | src/handlers.rs:37 | a text decodes to given bytes exactly when its lower-casing is their encoding |
| Hex.DecodeByDigits | src/handlers.rs:37 | a text decodes to given bytes exactly when it is, byte by byte, the high and then the low hex digit in either case |
| Hex.EncodeByDigits | src/bundle.rs:71-73 | byte i is spelt at 2i and 2i+1 by its high and its low half, in the lower-case alphabet |
| Hex.EncodeIsLower | src/bundle.rs:68-73 | row keys are two lower-case hex digits a byte |
| Hex.EncodeInjective | src/bundle.rs:68-73 | distinct keys have distinct row keys |
| Base64.DecodeIffEncoded | src/handlers.rs:38-43 | strict base 64 decoding is the exact inverse of encoding, on every text |
| Base64.EncodeByGroups | src/handlers/keypackage.rs:71-72 | every three bytes are four symbols of six bits, most significant first, the last group padded |
| Base64.SymbolOfAlphabet | src/handlers.rs:38-43 | the symbols are the standard alphabet's, in its order |
| Header.LamportIffLayout | src/store.rs:301-314 | a lamport is read exactly from payloads laid out as domain, any version byte, its 8 little-endian bytes, any suffix |
| Header.LamportByBytes | src/store.rs:301-314 | a lamport is read exactly from payloads that open with the domain text and a NUL, as bytes 31 to 38, least significant first |
| Header.PlaceValue | src/store.rs:313 | of eight bytes, byte i counts 256 to the i |
| Header.LamportOfComposed | examples/benchmark.rs:310-316 | every `u64` written into the header is read back |
| Header.ComposeInjective | src/store.rs:303-308 | the layout determines version, lamport and suffix |
| Retention.CutoffExactIff | src/store.rs:254 | the cutoff is the intended window's exactly when the days fit the limit or the clock is within the wrapped window |
| Retention.MillisOfDays | src/main.rs:92 | the unchecked multiplications and the cast amount to one reduction modulo 2^64 |
| Retention.OneDayTooMany | src/main.rs:92 | one day past the limit the window is 34,448,384 milliseconds |
| Retention.CutoffMonotone | src/store.rs:271 | for a fixed window the cutoff never moves back and never passes the clock |
| KeyPackages.CapKeepsNewest | src/store.rs:276-289 | the rank delete keeps, for each device, the one set of newest rows of size min(cap, n) |
| KeyPackages.PruneMember | src/store.rs:271-292 | a row survives a prune exactly when it is inside the window and fewer than cap rows of its device are above it |
| KeyPackages.DeletesCommute | src/store.rs:272-292 | the age delete and the rank delete commute |
| KeyPackages.PrunesCompose | src/store.rs:265-294 | two prunes with nothing between are one with the later cutoff and the smaller cap |
| KeyPackages.LatestUnderDeletes | src/store.rs:103-114 | either delete leaves the newest row as it is or leaves none, never an older one |
| Schedule.CapEmptiesIff | src/store.rs:290 | the rank delete empties a nonempty table exactly for a cap of 0 or of at least 2^63 |
| Schedule.CapCountIff | src/store.rs:276-290 | a device keeps min(cap, n) rows exactly when the cap is below 2^63 or it had none |
| Schedule.PruneScheduleUnobservable | src/store.rs:265-294 | a history ending in a prune leaves the table as the history with only that prune, if no earlier one reached further; so do all insert answers while the cap keeps a row |
| Schedule.WithoutPrunesExact | src/store.rs:265-294 | the history compared with is every event but the keypackage deletes, in order |
| Schedule.FixedSettingsUnobservable | src/main.rs:94-105 | with the service's one window and one cap the table, for any schedule and any cap, and every insert's answer are those with only the last prune |
| Schedule.InsertAnswersIgnorePrunes | src/store.rs:84-98 | prunes of any window and any cap that keeps a row, at any time, leave each insert's answer as it is without them |
| Schedule.AnswersHidePrunesIff | src/store.rs:290 | a setting's prunes never show in an insert's answer exactly when its cap is at least 1 and below 2^63 |
| Schedule.EmptyingCapShows | src/store.rs:276-292 | under any other cap a prune lets a second insert of one millisecond through |
| Schedule.LatestIsRegister | src/store.rs:84-114 | `latest` is the last accepted insert of the device until a cutoff passes it |
| Schedule.DuplicateIffSameMillisecond | migrations/0001_init.sql:2-8 | an insert is refused exactly when the device's last accepted one has the same millisecond and is still there |
| Accounts.OnlyPrunesDelete | src/store.rs:252-260 | a v0 row disappears exactly at an account prune whose cutoff is past its time |
| Accounts.CurrentWindow | src/store.rs:252-260 | every history has a window since the row's last deletion |
| Accounts.StoredIsWinner | src/store.rs:131-173 | the row is the earliest submission of maximal lamport in the window, stamped with that submission's time |
| Accounts.RefusedIff | src/store.rs:151-156 | a submission is refused exactly when one of at least its lamport was made in the window |
| Accounts.OrderIrrelevant | src/store.rs:131-173 | with distinct lamports, order and repetition of the window's submissions do not matter |
| Accounts.RetentionClock | src/store.rs:119-126 | a row outlives every prune not past its time and falls to the first that is, whatever replays come between |
| Logs.PrefixChain | src/store.rs:195-237 | the row is never deleted and each later stored log is the same row or a strict extension |
| Logs.StoredWasSubmitted | src/store.rs:223-235 | a stored log is byte for byte, with its time, one of the submissions |
| Logs.SplitOfRecord | src/store.rs:232 | what is stored splits back into the accepted signature and payload |
| Logs.AnswerIsComparison | src/store.rs:207-222 | with verified submissions the answer is the comparison with the stored payload, nothing else |
| Logs.RefusalsPermanent | src/bundle.rs:152-164 | forked stays forked, stale stays stale, stored or identical can only become identical or stale |
| Logs.FinalLogDecides | src/store.rs:207-236 | a submission was called a fork exactly when it is not a prefix of the final log, itself a submission |
| Logs.FirstAcceptedStays | src/store.rs:207-211 | the first submission is accepted and every later stored log extends it |
| Logs.LongestWins | src/store.rs:207-236 | when all submissions are prefixes of one history the longest is stored in the end |
| Logs.Converges | src/bundle.rs:134-139 | the same submissions in any order, repeated or not, end in the same log |
| Projection.KeysIndependent | src/store.rs:276-289 | one key's rows and answers are those of the history restricted to that key and the prunes |
| Projection.RestrictExact | src/store.rs:276-289 | the restricted history is the key's own submissions and every prune, in order |
| Reachable.GenuineRun | src/bundle.rs:76-88 | in every reachable state every row verifies under its own key, has its lamport, splits as a signed log |
| Reachable.DefensiveBranchesDead | src/store.rs:212-217 | the "no longer verifies" and unparseable-lamport branches and the unexpected outcomes are never taken |
| Reachable.CanonicalKeys | src/bundle.rs:68-73 | in a genuine state every key of every table is 64 lower-case hex characters |
| Reachable.UpperCaseFindsNothing | src/handlers/keypackage.rs:62-74 | in a genuine state a spelling with an upper-case letter is in no table |
| Pipeline.AdmitsOnlyVerified | src/bundle.rs:90-132 | nothing reaches the store that has not been verified under the key it is stored under |
| Pipeline.RefusalChangesNothing | src/handlers.rs:73-91 | any status but 204 leaves all tables unchanged |
| Pipeline.AccountPublish | src/handlers/account/v0.rs:67-73 | 204 exactly for a sound bundle above any stored lamport, 409 exactly when only the lamport fails, else 400 |
| Pipeline.KeyPackagePublish | src/handlers/keypackage.rs:54-60 | 204 exactly for a bundle that verifies and whose row id is free, 500 exactly when it verifies and the row id is taken, else 400 |
| Pipeline.FetchFindsIffLowerCase | src/handlers/keypackage.rs:62-74 | after an accepted publish the text published finds a row exactly when it is in lower case, for both bundle tables |
| Pipeline.DowngradeAfterPrune | src/store.rs:119-125 | for any two sound bundles of an account without a row: the lower lamport is stale after the higher, and is stored once a prune past the row's time has run |
| Pipeline.DowngradePossible | src/store.rs:252-260 | header-only payloads of any two lamports, signed, give such a run from the empty store |
| Pipeline.LogPublish | src/handlers/account/v1.rs:34-43 | 400 when not authentic, 204 exactly when the stored payload is a prefix, else 409, never 500 |
| Pipeline.LogReply | src/bundle.rs:152-164 | stale exactly for an authentic strict prefix of the stored payload, forked exactly when neither is a prefix of the other, accepted exactly when the stored one is a prefix |
| Pipeline.ParseAddrIff | src/handlers/account/v1.rs:67-71 | an address is exactly the lower-case hex of a valid key, and names that key |
| Pipeline.LogRefusal | src/bundle.rs:145-150 | bad address, bad signature and malformed log, each exactly when it is the first fault |
| Pipeline.RefusalNamesFirstFault | src/handlers.rs:32-45 | an invalid bundle is refused for the first check it fails: three texts, two lengths, key, signature, lamport |
| Pipeline.DecodeIffSpells | src/handlers.rs:32-45 | a JSON body carries given fields exactly when it spells them |
| Pipeline.BothWiresCarry | src/delivery.rs:81-123 | every bundle travels on both wires, the key in any casing |
| Pipeline.WireIndependence | src/bundle.rs:4-8 | moving any submissions of a run to the other wire changes no table |
| Pipeline.EitherWire | src/bundle.rs:4-8 | at any place of any run a JSON body and the raw fields it spells leave the same tables |
| Pipeline.ServiceStep | src/main.rs:94-105 | an arrival is served, or deletes exactly the rows past its cutoff or its cap, on the tables the earlier ones left |
| Pipeline.ServiceRuns | src/bundle.rs:90-165 | every run of the service is a history of verified events with honest lamports, ending in a genuine state |
| Fetching.AccountRoundTrip | src/handlers/account/v0.rs:79-96 | an accepted v0 publish is fetched text for text under the lower-case key, with its time |
| Fetching.KeyPackageRoundTrip | src/handlers/keypackage.rs:62-74 | an accepted keypackage is fetched text for text unless a newer row is there; then the fetch is as before |
| Fetching.LogRoundTrip | src/handlers/account/v1.rs:49-65 | after an accepted log publish the address returns that payload, and the very body unless that payload was on file |
| Fetching.FetchedVerifies | src/bundle.rs:76-80 | what a GET returns decodes to a payload and a signature that verify under the key asked for |
| Locking.WriteIsAtomic | src/store.rs:127-130 | under the lock, deciding on the row read earlier is deciding on the tables as they are |
| Locking.RefinesSerial | src/store.rs:84-294 | whatever the interleaving, tables and replies are those of a serial history |
| Locking.CommitsOnce | src/store.rs:84-294 | every commit is its call's own: at most one a call, at most two for a keypackage prune, the age delete first |
| Locking.PrunesCommitPairs | src/store.rs:265-294 | an answered keypackage prune has committed both its deletes, side by side and at one clock reading |
| Locking.AtMostFiveSteps | src/store.rs:131-173 | a call takes at most five steps in any interleaving |
| Locking.SomeStepEnabled | src/store.rs:137-140 | while a call is unfinished some call can take its next step |
| Locking.LedgerInLockOrder | src/store.rs:84-294 | the serial history is in the order in which the lock was taken |
| Locking.AcquiresOnce | src/store.rs:137-140 | a call takes the lock at most once |
| Locking.RealTimeOrder | src/store.rs:84-294 | a call finished before another starts precedes it in the serial history |
| Locking.HistoryClocked | src/store.rs:85-86 | sampling under the lock puts the serial history's times in order |
| Locking.StampsAreOwn | src/store.rs:85-86 | every commit carries the time its own call read |
| Locking.SamplesOnce | src/store.rs:85-86 | a call reads the clock at most once, after it has the lock |
| Locking.ReadsCommitted | src/store.rs:103-114 | two reads in real-time order see two prefixes of the serial history, in order |
| Interleavings.EarlierPrunesInvisible | src/main.rs:94-105 | in any interleaving, once a prune is answered and nothing else touched the keypackages since, the table is that one prune of all the inserts, and every insert's reply is as without prunes |
| Interleavings.InsertRepliesIgnorePrunes | src/store.rs:84-98 | in any interleaving each insert's reply is the answer in the serial history with every prune taken out |
| Interleavings.LatestReadsRegister | src/store.rs:103-114 | under any concurrency `latest` is the register of the commits so far |
| Interleavings.HistoryAdmitted | src/bundle.rs:90-165 | when all calls come from the pipeline or the prune loop, every commit is verified, with an honest lamport |
| Interleavings.ReadersSeeGenuineRows | src/bundle.rs:76-88 | at every instant every visible row verifies under its own key |
| Interleavings.ReplyPlace | src/store.rs:84-294 | an answered call has a place in the serial history where the atomic store gives its reply |
| Interleavings.AnsweredCommits | src/store.rs:84-294 | call by call, the action an answered call has committed, at the time it read |
| Interleavings.AccountPruneTakesEffect | src/store.rs:252-260 | in any interleaving an answered account prune deleted exactly the rows older than its cutoff |
| Interleavings.AccountReadIsWinner | src/store.rs:131-185 | the v0 row any reader sees is the earliest of maximal lamport committed since the row's last deletion |
| Interleavings.UpsertReplyExact | src/store.rs:151-172 | a v0 publish was called stale exactly when one of at least its lamport was committed in its window before it |
| Interleavings.LogReadsOrdered | src/store.rs:241-249 | two reads of one account's log are prefix-ordered, under any concurrency |
| Interleavings.LogReplyDecided | src/store.rs:207-222 | a v1 publish was called a fork exactly when its log is not a prefix of the one now stored |
| Interleavings.LogsConverge | src/store.rs:195-237 | executions that commit the same logs of one history, in any order, end in the same log |
| Server.Store.Insert | src/store.rs:84-98 | refused exactly when the row id is taken, else that row is added; as the atomic event |
| Server.Store.FetchLatest | src/store.rs:103-114 | a row of the device than which no other is newer, or none exactly when there are none; from a valid store it verifies |
| Server.Store.UpsertAccount | src/store.rs:131-173 | stale exactly when the stored row has a lamport at least as high, else the row is replaced; as the atomic event |
| Server.Store.GetAccount | src/store.rs:176-185 | the stored row, or none; from a valid store it verifies and has a lamport |
| Server.Store.PutAccountLog | src/store.rs:195-237 | the append-only swap as the atomic event, its row spelt out; any other verdict changes nothing; no log of a valid store shrinks or forks |
| Server.Store.GetAccountLog | src/store.rs:241-249 | the stored artifact under the address, or none; from a valid store it splits and verifies |
| Server.Store.PruneAccounts | src/store.rs:252-260 | exactly the rows older than the cutoff go, the rest stay as they are; keeps the store valid |
| Server.Store.PruneKeyPackages | src/store.rs:265-294 | exactly the rows within the window with fewer than cap newer ones stay; as the two atomic events at one clock reading |
| Server.ApplyKeyPackage | src/bundle.rs:91-103 | verify then insert, as the pipeline serves it; keeps the store valid |
| Server.ApplyAccount | src/bundle.rs:106-132 | verify, read the lamport, swap, as the pipeline serves it; keeps the store valid and never fails internally |
| Server.ApplyAccountLog | src/bundle.rs:140-165 | verify and decode, swap; on a valid store stale for a strict prefix, forked when incomparable, never an internal error, and no log shrinks |
| Server.SubmitKeyPackage | src/handlers/keypackage.rs:54-60 | the JSON publish, decoding included; keeps the store valid |
| Server.SubmitAccount | src/handlers/account/v0.rs:67-73 | the JSON publish, decoding included; answers 204, 400 or 409 and keeps a valid store valid |
| Server.SubmitAccountLog | src/handlers/account/v1.rs:34-43 | the raw-bytes publish; on a valid store 204, 400 or 409, with stale and forked told apart exactly, and no log shrinks |
| Server.Ingest | src/delivery.rs:89-100 | one delivered bundle goes through the same pipeline as a POST; keeps the store valid |
| Server.IngestAll | src/delivery.rs:70-75 | no row is lost, each keypackage that verifies has its row, each sound account bundle is stored or outdone, each new row is one of them |
| Delivery.Drained | src/delivery.rs:81-123 | the same of any state and any queue, as the service's run of the deliveries |
| Delivery.DeliveriesExact | src/delivery.rs:70-75 | the arrivals are the readable items of the queue, each by its own decoder, once, in order, with its own clock reading |
| Delivery.DispatchIff | src/delivery.rs:48-56 | a message is taken as a keypackage or as an account bundle exactly on that one topic and with a payload |
| Delivery.TopicDecidesTable | src/delivery.rs:48-56 | a topic reaches one table only, and none reaches the account logs |
| Server.PruneLoop | src/main.rs:94-105 | after any number of ticks exactly the rows within the days asked for at every tick, of the keypackages the newest cap a device; keeps the store valid |
| Ticks.WindowsKept | src/main.rs:91-92 | the same of any state, as the history of the ticks' prunes |
| Ticks.TicksOnAccounts | src/store.rs:252-260 | for any settings a v0 row outlives the ticks exactly when it outlives each |
| Ticks.TicksArePrune | src/store.rs:265-294 | any number of ticks is one keypackage prune at the latest of their cutoffs |
| Ticks.WindowKeptExactly | src/store.rs:255 | up to the limit on days both age deletes keep exactly the rows inside the window asked for |
| Benchmark.WorkPartitioned | examples/benchmark.rs:395-399 | loads sum to the operation count, differ by at most one and never grow along the workers |
| Benchmark.SequenceExact | examples/benchmark.rs:99 | within the limits shift and or are exact and nothing wraps |
| Benchmark.SeedsDistinct | examples/benchmark.rs:144-172 | all device and account seeds are pairwise distinct |
| Benchmark.SeedsCollideBeyond | examples/benchmark.rs:99 | with unchecked arithmetic, worker 2^31 repeats worker 0's device seeds |
| Benchmark.FillSeed | examples/benchmark.rs:331-338 | the first 8 bytes read as the number, least significant first; byte i after them is 37(i-8)+11 modulo 256 |
| Benchmark.SeedBytesInjective | examples/benchmark.rs:331-338 | distinct numbers fill distinct seeds |

## Left out

- Ed25519, key validity, the account-log entry format and the protobuf decoders: foreign code, kept as arbitrary functions.
- SQLite itself (files, WAL, busy timeout, migrations, the connection pool): tables are maps under their key constraints.
- Storage failures inside the `Server` methods: they are modelled in `Locking`, where a call can be dropped before any commit.
- Logging, error message texts, routing and the JSON syntax: plumbing; an invalid submission's message is one of the `Reason` constructors.
- The delivery node, its subscriptions and threads: the model starts from the messages it hands over.
- The prune loop's timer and the process's start-up and shutdown: `PruneLoop` takes the ticks as given, and any finite number of them.
- The benchmark's HTTP flow, process handling and timing, and the smoke tests: I/O only.
