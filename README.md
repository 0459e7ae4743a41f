# dev_server cluster core, modelled in Dafny

This project models the cluster-coordination core of `dev_server`:

- **Leader election, management variant** (`cluster/management/LeaderElection`). A participant volunteers by creating an ephemeral sequential child `c_…` under `/election`. Each pass of the election lists and sorts the children again. The participant leads when its own name is the smallest child. Otherwise it watches the child just before it. When that child is already gone, it lists again. A deletion event starts a new election. The result is reported through the `OnElectionCallback`.
- **Leader election, stand-alone variant** (`server/LeaderElection`). The same protocol, except that the children are listed and sorted once. `process` only reacts to connection events, waking the thread blocked in `run`.
- **Service registry** (`cluster/management/ServiceRegistry`). A worker registers its address as an ephemeral sequential child `n_…` of `/service_registry`. The coordinator keeps a cached list of the addresses of the registered workers and refreshes it on every change of the children.
- **Worker HTTP surface** (`cluster/server/WebServer`). `POST /task` multiplies the comma-separated integers of the body. `GET /status` answers that the worker is alive. Other methods close the exchange.

Layout, one module per file:

- `common.dfy`: `Option`, `Result` and the exceptions that matter.
- `java_strings.dfy`: `String.compareTo` order, `replace`, `equalsIgnoreCase` and `split` with limit 0.
- `java_collections.dfy`: `Collections.sort` as the unique sorted permutation, the JDK's `Collections.binarySearch`, and removal.
- `big_integer.dfy`: `new BigInteger(String)` and `toString()`.
- `coordination.dfy`: one namespace node of the coordination service as a `Store` class (sequential names, create, delete) and the watcher events.
- `election.dfy`: the ranking decision, both re-election loops as functions of what the service answers in each pass, and what the ranking guarantees for a set of participants.
- `management_election.dfy`, `server_election.dfy`, `service_registry.dfy`, `web_server.dfy`: the four classes. Each is a Dafny `class` whose methods update the fields the Java methods update. Each loop is a `method` proved against a specification function.

What the coordination service answers is a parameter:

- In the elections, `rounds[i]` is pass `i`: the children listed, and the names still present when `exists` is asked. `Lost` stands for a `KeeperException` or `InterruptedException`.
- In the registry, `Refresh` says whether listing fails, and which children other sessions delete before `exists` or before `getData`.
- Running out of answers while a loop is still retrying is the outcome `Unfinished`: the Java call has not returned yet.

## Model

| member | source | states |
|---|---|---|
| Election.NameFromCreatedPath | src/main/java/org/ocean/cluster/management/LeaderElection.java:20-24 | the recorded name is the created sequential child `c_` + ten-digit counter, with `/election/` removed |
| Election.Decide | src/main/java/org/ocean/cluster/management/LeaderElection.java:33-41 | on a sorted listing: leader iff the first child is the own name; `IndexOutOfBoundsException` iff the own name is not listed; a follower's predecessor is the child immediately below it when names are distinct |
| Election.DecidePass | src/main/java/org/ocean/cluster/management/LeaderElection.java:33-41 | `get(0)`, `equals` and `get(binarySearch - 1)`, step by step, decide exactly as `Decide` |
| Election.DecideLeader | src/main/java/org/ocean/cluster/management/LeaderElection.java:31-34 | after sorting, a participant leads iff no listed child sorts before it |
| Election.DecideFollower | src/main/java/org/ocean/cluster/management/LeaderElection.java:40-41 | among distinct children, a participant follows `p` iff it is listed and `p` is its immediate predecessor |
| Election.ExactlyOneLeader | src/main/java/org/ocean/cluster/management/LeaderElection.java:31-37 | among distinct listed participants exactly one passes the leader test, and it is listed |
| Election.FollowerWatchesSmaller | src/main/java/org/ocean/cluster/management/LeaderElection.java:38-43 | every listed participant that is not least follows its immediate predecessor |
| Election.FollowersWatchDistinct | src/main/java/org/ocean/cluster/management/LeaderElection.java:40-43 | no two participants watch the same predecessor, so the watches form a chain |
| Election.DeletionKeepsOtherWatches | src/main/java/org/ocean/cluster/management/LeaderElection.java:40-43 | removing a participant other than a follower and its predecessor leaves that follower's decision unchanged |
| Election.LeaderDeletionPromotesSuccessor | src/main/java/org/ocean/cluster/management/LeaderElection.java:31-37 | when the leader's child disappears, the participant that watched it passes the leader test |
| Election.ThreeRanked | src/main/java/org/ocean/cluster/management/LeaderElection.java:31-43 | three increasing names: first leads, second watches first, third watches second; after the first leaves, second leads and third still watches it |
| Election.ThreeParticipants | src/main/java/org/ocean/cluster/management/LeaderElection.java:20-43 | three participants created with increasing sequence numbers rank in volunteering order: first leads, each later one watches the one before, and the second leads once the first leaves |
| Election.CandidatesOrdered | src/main/java/org/ocean/cluster/management/LeaderElection.java:20-25 | names from increasing sequence numbers compare increasing under `String.compareTo` |
| Election.RetryStep | src/main/java/org/ocean/cluster/management/LeaderElection.java:41-45 | a pass whose predecessor is already gone hands over to the next pass |
| Election.RunAfterRetries | src/main/java/org/ocean/cluster/management/LeaderElection.java:30-45 | after any number of passes that found their predecessor gone, the loop's outcome is that of the next pass |
| Election.ProbesAfterRetries | src/main/java/org/ocean/cluster/management/LeaderElection.java:43 | meanwhile `exists` was asked exactly once about each of those passes' predecessors, in order |
| Election.RunElected | src/main/java/org/ocean/cluster/management/LeaderElection.java:30-37 | the loop ends as leader iff some pass finds the own name smallest and every earlier pass found its predecessor gone |
| Election.RunWatching | src/main/java/org/ocean/cluster/management/LeaderElection.java:40-46 | when the loop ends watching `p`, some pass chose `p` as predecessor in its sorted listing and found it present; when that listing has no repeats, `p` is the own name's immediate predecessor there |
| Election.Run | src/main/java/org/ocean/cluster/management/LeaderElection.java:27-48 | the re-listing loop fails only with a coordination failure or `IndexOutOfBoundsException` |
| Election.RunUnfinished | src/main/java/org/ocean/cluster/management/LeaderElection.java:30-45 | the loop is still running when the answers run out iff every remaining pass found its predecessor gone |
| Election.Unnamed | src/main/java/org/ocean/cluster/management/LeaderElection.java:31-40 | without a recorded name the call never ends well: it fails or has not returned, and it fails with `IndexOutOfBoundsException` iff the first listing is empty |
| Election.UnnamedPass | src/main/java/org/ocean/cluster/management/LeaderElection.java:31-40 | the first pass with a `null` name, step by step, ends as `Unnamed` says |
| Election.ServerRun | src/main/java/org/ocean/server/LeaderElection.java:36-58 | the single-listing loop fails only with a coordination failure or `IndexOutOfBoundsException`, and when it ends watching a name, that name is the predecessor the first listing decided |
| Election.Spin | src/main/java/org/ocean/server/LeaderElection.java:42-54 | the retry loop ends watching only the one predecessor it was given, and fails only with a coordination failure |
| Election.SpinForever | src/main/java/org/ocean/server/LeaderElection.java:42-54 | with the predecessor absent in every pass, the stand-alone loop never returns and asks `exists` about that same name every pass |
| Election.StaleSnapshotSpins | src/main/java/org/ocean/server/LeaderElection.java:37-54 | once the predecessor from the single listing is gone, the stand-alone election never returns, whatever later listings would show |
| Election.VariantsDiverge | src/main/java/org/ocean/server/LeaderElection.java:37-54 | on the same answers, the stand-alone loop spins while the management loop watches the new predecessor |
| Coordination.SequentialNamesOrdered | src/main/java/org/ocean/cluster/management/LeaderElection.java:22-23 | sequential names with one prefix sort in creation order |
| Coordination.PadOrdered | src/main/java/org/ocean/cluster/management/LeaderElection.java:22-23 | ten-digit zero-padded counters compare under `String.compareTo` as the numbers do |
| Coordination.CounterFitsWidth | src/main/java/org/ocean/cluster/management/LeaderElection.java:22-23 | every value of the 32-bit counter below its wrap-around fits ten padded digits |
| Coordination.Store.CreateSequential | src/main/java/org/ocean/cluster/management/LeaderElection.java:22-23 | `create` appends the next sequential child with its payload and returns its full path; a missing namespace or a taken name raises and changes nothing |
| Coordination.Store.CreateNamespace | src/main/java/org/ocean/cluster/management/ServiceRegistry.java:63 | creates the namespace node, refusing with `NodeExists` when it is there |
| Coordination.Store.Delete | src/main/java/org/ocean/cluster/management/ServiceRegistry.java:51 | removes exactly the named child and advances the sequence counter, or raises `NoNode` and changes nothing |
| JavaCollections.Sort | src/main/java/org/ocean/cluster/management/LeaderElection.java:32 | `Collections.sort` yields a sorted list with the same elements, each as often |
| JavaCollections.SortedUnique | src/main/java/org/ocean/cluster/management/LeaderElection.java:32 | two sorted lists with the same elements, each as often, are equal, so the sort is determined by the listing |
| JavaCollections.SortKeepsDistinct | src/main/java/org/ocean/cluster/management/LeaderElection.java:32 | sorting distinct names keeps them distinct |
| JavaCollections.BinarySearch | src/main/java/org/ocean/cluster/management/LeaderElection.java:40 | `binarySearch` returns an index holding the key, or `-(insertion point) - 1` when the key is absent |
| JavaCollections.BinarySearchFindsIndex | src/main/java/org/ocean/cluster/management/LeaderElection.java:40 | in a sorted list without repeats the search returns the key's own index |
| JavaStrings.LessIrreflexive | src/main/java/org/ocean/cluster/management/LeaderElection.java:32 | `compareTo` order: no name sorts before itself |
| JavaStrings.LessAsymmetric | src/main/java/org/ocean/cluster/management/LeaderElection.java:32 | `compareTo` order: two names never sort before each other |
| JavaStrings.LessTransitive | src/main/java/org/ocean/cluster/management/LeaderElection.java:32 | `compareTo` order is transitive |
| JavaStrings.LessTotal | src/main/java/org/ocean/cluster/management/LeaderElection.java:32 | `compareTo` order is total: of two different names, one sorts before the other |
| JavaStrings.StripPrefix | src/main/java/org/ocean/cluster/management/LeaderElection.java:24 | `replace("/election/", "")` on a created path leaves exactly the child name |
| JavaStrings.ReplaceAllAbsent | src/main/java/org/ocean/cluster/management/LeaderElection.java:24 | `replace` leaves a string without the target's first character unchanged |
| ManagementElection.CallbacksFor | src/main/java/org/ocean/cluster/management/LeaderElection.java:36-46 | `onElectedToBeLeader` iff elected, `onWorker` iff watching, no callback when the call fails or has not returned |
| ManagementElection.Escaping | src/main/java/org/ocean/cluster/management/LeaderElection.java:50-60 | an exception escapes `process` iff it is neither a `KeeperException` nor an `InterruptedException` |
| ManagementElection.ElectionPasses | src/main/java/org/ocean/cluster/management/LeaderElection.java:30-45 | the re-listing loop ends as `Run` says and asks `exists` about exactly the names `Probes` lists |
| ManagementElection.LeaderElection.constructor | src/main/java/org/ocean/cluster/management/LeaderElection.java:15-18 | no name recorded, no watch and no callback yet |
| ManagementElection.LeaderElection.VolunteerForLeadership | src/main/java/org/ocean/cluster/management/LeaderElection.java:20-25 | creates one sequential child and records its bare name; a failed `create` propagates and records nothing |
| ManagementElection.LeaderElection.ReElectLeader | src/main/java/org/ocean/cluster/management/LeaderElection.java:27-48 | outcome as `Run`, or as `Unnamed` without a name; the watches armed are the names asked about; the one callback matches the outcome |
| ManagementElection.LeaderElection.Process | src/main/java/org/ocean/cluster/management/LeaderElection.java:50-60 | only `NodeDeleted` re-runs the election; coordination failures are swallowed, index and null errors escape; other events change nothing |
| ServerElection.React | src/main/java/org/ocean/server/LeaderElection.java:74-87 | reports iff a connection event in state `SyncConnected`; wakes the run loop iff any other connection state; ignores node events |
| ServerElection.NodeEventsIgnored | src/main/java/org/ocean/server/LeaderElection.java:76-86 | no node event, not even the predecessor's deletion, starts a new election |
| ServerElection.SpinPasses | src/main/java/org/ocean/server/LeaderElection.java:37-54 | the single-listing loop ends as `ServerRun` says and asks `exists` about exactly the names `ServerProbes` lists |
| ServerElection.LeaderElection.VolunteerForLeadership | src/main/java/org/ocean/server/LeaderElection.java:28-34 | creates one sequential child and records its bare name; a failed `create` propagates and records nothing |
| ServerElection.LeaderElection.ReElectLeader | src/main/java/org/ocean/server/LeaderElection.java:36-58 | outcome as `ServerRun`, or as `Unnamed` without a name; the watches armed are the names asked about |
| ServerElection.LeaderElection.Process | src/main/java/org/ocean/server/LeaderElection.java:74-87 | the reaction is `React(event)`; `notifyAll` wakes the run loop once per non-connected state event and at no other time |
| ServiceRegistry.CollectUpTo | src/main/java/org/ocean/cluster/management/ServiceRegistry.java:75-84 | the loop fails only with `NoNode` and never yields more addresses than children seen |
| ServiceRegistry.RefreshOutcome | src/main/java/org/ocean/cluster/management/ServiceRegistry.java:72-87 | a failed listing raises; a successful refresh has at most one address per child |
| ServiceRegistry.SurvivorsUpTo | src/main/java/org/ocean/cluster/management/ServiceRegistry.java:77-80 | only children that `exists` reports present survive, at most one per child |
| ServiceRegistry.KeptSurvives | src/main/java/org/ocean/cluster/management/ServiceRegistry.java:77-80 | every child that `exists` reports present is among the survivors |
| ServiceRegistry.CollectIsReadOfSurvivors | src/main/java/org/ocean/cluster/management/ServiceRegistry.java:75-84 | the refresh fails iff a surviving child vanished before `getData`; otherwise it yields the survivors' payloads in listing order |
| ServiceRegistry.QuietRefreshReadsAll | src/main/java/org/ocean/cluster/management/ServiceRegistry.java:75-84 | without interference, the refresh yields every listed child's payload, in listing order |
| ServiceRegistry.VanishedChildFailsRefresh | src/main/java/org/ocean/cluster/management/ServiceRegistry.java:81 | one child deleted between `exists` and `getData` fails the whole refresh |
| ServiceRegistry.ServiceRegistry.constructor | src/main/java/org/ocean/cluster/management/ServiceRegistry.java:60-70 | the namespace exists afterwards; it is created only when absent, and its children and sequence counter are untouched |
| ServiceRegistry.ServiceRegistry.RegistryToCluster | src/main/java/org/ocean/cluster/management/ServiceRegistry.java:21-29 | a registered worker changes nothing; otherwise one child holding the metadata is appended, the namespace still exists and the path is recorded; a failed `create` records nothing |
| ServiceRegistry.ServiceRegistry.UnregisterFromCluster | src/main/java/org/ocean/cluster/management/ServiceRegistry.java:48-58 | deletes the recorded child iff there is one and it still exists, advancing the sequence counter; the recorded path is kept |
| ServiceRegistry.ServiceRegistry.UpdateAddresses | src/main/java/org/ocean/cluster/management/ServiceRegistry.java:72-87 | on success the cache becomes the collected addresses; on any exception it is unchanged; a watch is armed iff the listing succeeds |
| ServiceRegistry.ServiceRegistry.RegisterForUpdates | src/main/java/org/ocean/cluster/management/ServiceRegistry.java:31-39 | a refresh whose exceptions are swallowed: new cache on success, old cache otherwise |
| ServiceRegistry.ServiceRegistry.GetAllServiceAddresses | src/main/java/org/ocean/cluster/management/ServiceRegistry.java:41-46 | a populated cache is returned without touching anything; an empty one is refreshed, and its exception propagates |
| ServiceRegistry.ServiceRegistry.Process | src/main/java/org/ocean/cluster/management/ServiceRegistry.java:89-98 | any event refreshes the cache, swallowing exceptions, and re-arms the watch when the listing succeeds |
| ServiceRegistry.RegisterThenDiscover | src/main/java/org/ocean/cluster/management/ServiceRegistry.java:21-46 | a worker that registers with a fresh registry is exactly what the first undisturbed `getAllServiceAddresses` returns |
| JavaStrings.SplitIsPieces | src/main/java/org/ocean/cluster/server/WebServer.java:83 | `split(",")` yields the pieces between commas, less the empty ones at the end, and no token holds a comma |
| JavaStrings.SplitTrailingSeparator | src/main/java/org/ocean/cluster/server/WebServer.java:83 | a trailing comma on a non-empty body does not change the tokens |
| JavaStrings.Split | src/main/java/org/ocean/cluster/server/WebServer.java:83 | a body without a comma is the one token; otherwise the last token is never empty |
| JavaStrings.EqualsIgnoreCaseLower | src/main/java/org/ocean/cluster/server/WebServer.java:54 | `equalsIgnoreCase` holds iff both strings have the same lower-case form |
| BigInteger.Parse | src/main/java/org/ocean/cluster/server/WebServer.java:86 | `new BigInteger` succeeds iff the token is an optional sign and one or more ASCII decimal digits |
| BigInteger.ParseToString | src/main/java/org/ocean/cluster/server/WebServer.java:89 | parsing the printed product gives the product back |
| BigInteger.ToStringParse | src/main/java/org/ocean/cluster/server/WebServer.java:89 | printing a parsed canonical literal gives the literal back |
| BigInteger.ToString | src/main/java/org/ocean/cluster/server/WebServer.java:89 | the printed value is never empty and starts with a minus sign iff it is negative |
| WebServer.ProductUpTo | src/main/java/org/ocean/cluster/server/WebServer.java:84-88 | the product loop fails only with `NumberFormatException` |
| WebServer.Response | src/main/java/org/ocean/cluster/server/WebServer.java:81-90 | `calculateResponse` raises nothing but `NumberFormatException` |
| WebServer.CalculateResponse | src/main/java/org/ocean/cluster/server/WebServer.java:81-90 | the loop returns what `Response` specifies for the body |
| WebServer.NumberFormatSticks | src/main/java/org/ocean/cluster/server/WebServer.java:85-87 | once a token fails to parse, the whole computation fails |
| WebServer.ProductIsMultiply | src/main/java/org/ocean/cluster/server/WebServer.java:84-88 | the loop yields the product of the tokens iff every token is an integer, and fails otherwise |
| WebServer.ResponseIsProduct | src/main/java/org/ocean/cluster/server/WebServer.java:81-90 | the reply is `"Result of the multiplication is " + product + "\n"` iff every token is an integer |
| WebServer.ProductOfPermutation | src/main/java/org/ocean/cluster/server/WebServer.java:84-88 | the product does not depend on the order of the factors |
| WebServer.ReorderedBodySameResponse | src/main/java/org/ocean/cluster/server/WebServer.java:83-89 | bodies whose tokens are permutations of each other get the same response |
| WebServer.ZeroTokenGivesZero | src/main/java/org/ocean/cluster/server/WebServer.java:84-89 | a zero among valid tokens makes the reply the one for 0 |
| WebServer.ReplyCarriesProduct | src/main/java/org/ocean/cluster/server/WebServer.java:89 | the reply is the prefix, the product's decimal text and a newline, and that text parses back to the product |
| WebServer.Example | src/main/java/org/ocean/cluster/server/WebServer.java:83-89 | body `2,3,4` gets `Result of the multiplication is 24\n` |
| WebServer.EmptyBodyFails | src/main/java/org/ocean/cluster/server/WebServer.java:83-86 | an empty body is one empty token and fails |
| WebServer.TrailingCommaIgnored | src/main/java/org/ocean/cluster/server/WebServer.java:83 | a trailing comma on a non-empty body gives the same response |
| WebServer.OnlyCommasGiveOne | src/main/java/org/ocean/cluster/server/WebServer.java:83-89 | a body of commas only has no tokens, so the product is 1 |
| WebServer.LeadingCommaFails | src/main/java/org/ocean/cluster/server/WebServer.java:83-86 | a leading comma before a number gives an empty token and fails |
| WebServer.DoubledCommaFails | src/main/java/org/ocean/cluster/server/WebServer.java:83-86 | a doubled comma before a final number gives an empty token and fails |
| WebServer.Exchange.SendResponse | src/main/java/org/ocean/cluster/server/WebServer.java:101-107 | the first send delivers status 200, the headers set so far and the body, then closes; a second send raises an `IOException` and changes nothing |
| WebServer.Exchange.Close | src/main/java/org/ocean/cluster/server/WebServer.java:54-56 | `close()` leaves the exchange closed |
| WebServer.Exchange.ReadBody | src/main/java/org/ocean/cluster/server/WebServer.java:71 | `readAllBytes` returns the request body, or raises an `IOException` once the exchange's streams are closed |
| WebServer.Exchange.PutResponseHeader | src/main/java/org/ocean/cluster/server/WebServer.java:74-77 | `put` sets that one response header and leaves the others as they were |
| WebServer.HeaderFlag | src/main/java/org/ocean/cluster/server/WebServer.java:60-68 | the flag is true iff the header is present and its first value equals `true` ignoring case; the only failure is `IndexOutOfBoundsException` for a header without values |
| WebServer.TaskHandled | src/main/java/org/ocean/cluster/server/WebServer.java:53-79 | as written the handler delivers at most one response; whatever it delivers it closes; when nothing escapes, the exchange is closed |
| WebServer.HandleTaskRequest | src/main/java/org/ocean/cluster/server/WebServer.java:53-79 | delivers, closes and raises exactly as `TaskHandled` says; after the dummy response the body read fails |
| WebServer.HandleStatusCheckRequest | src/main/java/org/ocean/cluster/server/WebServer.java:92-99 | delivers, closes and raises exactly as `StatusHandled` says |
| WebServer.WrongMethodCloses | src/main/java/org/ocean/cluster/server/WebServer.java:54-57 | a non-POST `/task` or non-GET `/status` request closes with nothing delivered; a GET `/status` delivers `Server is alive` |
| WebServer.TaskRepliesWithProduct | src/main/java/org/ocean/cluster/server/WebServer.java:59-78 | a POST without `X-Test` delivers exactly the product reply, with the timing header iff `X-Debug: true`, or nothing when a token is not an integer |
| WebServer.TestHeaderDeliversDummyThenFails | src/main/java/org/ocean/cluster/server/WebServer.java:60-71 | with `X-Test: true` only the dummy response is delivered, and reading the body from the stream that response closed raises an `IOException`, whatever the body |
| WebServer.TestHeaderCounterexample | src/main/java/org/ocean/cluster/server/WebServer.java:60-63 | `X-Test: true` with body `2,3` delivers `123\n`, then fails with an `IOException` at `readAllBytes` |
| WebServer.CorrectedTaskHandled | src/main/java/org/ocean/cluster/server/WebServer.java:60-63 | a POST with `X-Test: true` gets the dummy response, is closed and raises nothing; every other request is handled as written |
| WebServer.CorrectedHandleTaskRequest | src/main/java/org/ocean/cluster/server/WebServer.java:53-79 | the handler that returns after the dummy response delivers, closes and raises as `CorrectedTaskHandled` says |
| WebServer.CorrectedDeliversAtMostOnce | src/main/java/org/ocean/cluster/server/WebServer.java:60-78 | both handlers deliver at most one response per request |

## Left out

- Output to the console, stack traces and log messages are not modelled.
- Connecting, the session and its timeout, `run`, `close`, `main` and starting the HTTP server are not modelled. `wait`/`notifyAll` is a counter of wake-ups.
- Threads are not modelled. A watcher callback racing with a running election, and the `synchronized` registry methods, are out of scope.
- The election loops see the coordination service only through the per-pass answers in `rounds`. The `Store` object is used for creating, deleting and listing in the registry and when volunteering.
- ServiceRegistry.ServiceRegistry.UpdateAddresses: deletions by other sessions during a refresh are given as sets and are not applied to the `Store`.
- Coordination.Store.CreateSequential: fails only with `NoNode` or `NodeExists`. A `create` that raises a connection-loss or session-expired `KeeperException`, or an `InterruptedException`, is not an outcome of the model.
- ManagementElection.LeaderElection.VolunteerForLeadership: never fails through a lost connection or an interrupt, because `create` cannot. In the source that exception propagates and records no name, as the modelled failures do.
- ServerElection.LeaderElection.VolunteerForLeadership: never fails through a lost connection or an interrupt, for the same reason.
- ServiceRegistry.ServiceRegistry.RegistryToCluster: never fails through a lost connection or an interrupt, for the same reason. In the source that exception propagates and leaves the worker unregistered.
- ServiceRegistry.CollectUpTo: after a successful listing, `exists` and `getData` fail only with `NoNode`, for a child deleted by another session. A connection loss or an interrupt in the middle of the loop is not an answer a `Refresh` can give.
- ServiceRegistry.ServiceRegistry.UpdateAddresses: for the same reason, a refresh whose `exists` or `getData` loses the connection is not modelled. In the source it would propagate and leave the cache unchanged, as `NoNode` does.
- ServiceRegistry.ServiceRegistry.UnregisterFromCluster: `exists` and `delete` never fail in the model. In the source their failures are swallowed, so nothing would change either way.
- ServiceRegistry.ServiceRegistry.constructor: a failing `exists` or `create` is not modelled. Both are swallowed in the source and leave the namespace as it was.
- The service's sequence counter is a signed 32-bit `int` that wraps to negative numbers after 2147483647, and `%010d` then writes a minus sign. The model's counter is unbounded and never wraps. `CandidatesOrdered` and `ThreeParticipants` therefore require the counters to stay below 2^31 (`COUNTER_LIMIT`).
- Coordination.Store: a listing of children has no promised order in the service. The model lists children in creation order; every caller sorts the listing before use, so nothing depends on that choice.
- `String.compareTo` compares UTF-16 code units, and Dafny compares characters. The two agree on the basic multilingual plane, and supplementary characters are not modelled.
- BigInteger.Parse: accepts only the ASCII digits `0`-`9`. `new BigInteger(String)` reads digits with `Character.digit`, which also accepts other Unicode decimal digits (such as Arabic-Indic digits). A body with such digits is a `NumberFormatException` in the model and a number in the source.
- Text is modelled without charsets: `getBytes` and `new String(bytes)` are the identity, and only ASCII letters are case-folded.
- HTTP header names are matched exactly as written. The HTTP library's case-insensitive key normalisation is not modelled.
- The `X-Debug` elapsed time is a parameter, because it comes from the clock.
- What the HTTP server does with an exception that escapes a handler is not modelled.
- `Collections.sort` is modelled as its result, the unique sorted permutation, not as the JDK's merge sort.

## Findings

| source | as written | input that shows it | evidently intended | confidence | as-written member | corrected member |
|---|---|---|---|---|---|---|
| src/main/java/org/ocean/cluster/server/WebServer.java:60-63 | after sending the dummy `123\n` for `X-Test: true` the handler does not return. It goes on to `readAllBytes()` at line 71, but sending the fixed-length response closed the request body stream too, so the read raises an `IOException` and the exception escapes the handler. | `POST /task`, header `X-Test: true`, body `2,3` | answer with the dummy response and stop | medium, not executed | WebServer.TestHeaderCounterexample | WebServer.CorrectedHandleTaskRequest |
| src/main/java/org/ocean/server/LeaderElection.java:37-54 | the children are listed once. When the predecessor is gone before `exists`, every later pass asks about the same vanished name, and the call never returns. | a listing `[p, me]` where `p` is deleted before `exists` is asked | list the children again in every pass, as the management variant does | high, not executed | Election.StaleSnapshotSpins | ManagementElection.ElectionPasses |
