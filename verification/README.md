# Verified model of the metadata agent

The metadata agent collects metadata about monitored resources from several threads into one store,
cuts the store's contents into requests for an ingestion API, purges what the server has been told
is deleted, and answers local queries about the health of its parts. Around that sit a JSON
serialiser and parser, a base64url codec, RFC 3339 time stamps, template substitution, a prefix
dispatcher and a cancellable timer. This project models those parts in Dafny and proves what they
do for every input and in every interleaving.

Code that changes state step by step is modelled by classes and loops (`MetadataStore`,
`HealthChecker`, `ServiceCaches`, `KubernetesReader`, `JSONBuilder`, `SendMetadata`,
`PollForMetadata`, `Encode`, `Decode`, `Substitute`, `Dispatch`, `WatchMaster`), each proved against a specification function or
predicate; what the program promises is then proved about that specification. Threads are step
machines: every region under one lock is one step, and a run is any interleaving.

| module | source | subject |
|---|---|---|
| `Ordering`, `Sequences` | the order of `std::map` keys | strict total orders, the sorted sequence of a finite set |
| `Json`, `JsonGrammar`, `JsonParser` | `src/json.cc` | serialiser events, which events write a value, the builder's context stack, chunked streams |
| `Base64`, `Base64Blocks` | `src/base64.cc` | the codec with 32-bit wrap-around against bit strings and 24-bit blocks |
| `Store`, `HealthChecker`, `Updater` | `src/store.cc`, `src/health_checker.cc`, `src/updater.cc` | the store over all histories; health; polling |
| `Packing`, `ReportCycle` | `src/reporter.cc` | greedy batching; snapshot, send, purge against updaters |
| `ServiceCache`, `ClusterPublish`, `ClusterFreshness` | `src/kubernetes.cc` | the service and endpoints caches, their join, and when the published join is current |
| `OwnerWalk`, `WatchRetry` | `src/kubernetes.cc` | the memoised controller walk; the retry loop |
| `Rfc3339`, `Rfc3339Grammar` | `src/time.cc` | calendar, printing, parsing, the accepted forms, the rounding argument |
| `Timer` | `src/time.h`, `src/updater.cc`, `src/reporter.cc` | cancellation of periodic loops |
| `Format`, `Dispatch` | `src/format.cc`, `src/api_server.cc` | template substitution; prefix dispatch |

## Where the code falls short of what one would expect

Each of these is kept as the code has it, with a run or an input that shows it and the exact
condition under which the expected property holds.

- The size a request is measured by leaves out the commas between entries. For entries of at least m
  bytes the byte limit is kept for all inputs exactly when the count limit is one or two such entries
  do not fit together (`Packing.ByteLimitKeptIff`, with `Packing.CommaTooMany` for the failing input);
  the true bound is the limit plus one byte per comma (`Packing.RequestBounds`).
- A count limit of zero makes the first request an empty one. No request is ever empty exactly when
  the count limit is not zero or no entry can fit (`Packing.NeverEmptyIff`).
- A purge erases every deleted entry, also one that changed after the snapshot. The server was told of
  an erased deletion exactly when the entry is the one in the snapshot and is not individually too
  large (`ReportCycle.ErasedWasReportedIff`, `ReportCycle.UnreportedDeletion`).
- The joined cluster value is published in a separate step from the join, so a slow publisher can
  leave a stale value in place for good (`ClusterPublish.QuiescentMayBeStale`). A schedule of the
  threads leaves the current join in the store, whatever the events say, exactly when no cache update
  follows the join that was published last, or it has no service event at all
  (`ClusterFreshness.AlwaysCurrentIff`).
- The key of the owner cache leaves out the name, so the cache can answer where a query fails
  (`OwnerWalk.CacheAnswersForWrongName`, `OwnerWalk.OnlyTheCacheSucceeds`). The memoised walk is the
  walk that asks the cache at every hop; it agrees with the direct walk exactly when that does not fail
  at a cached reference or the walk from the cached owner fails in the same way
  (`OwnerWalk.CachedAgreesIff`).
- The reporter ignores the result of its initial wait, so a cancellation during that wait is lost.
  Cancellation is prompt in all runs exactly for loops without an initial wait
  (`Timer.PromptIffNoInitialWait`).
- The comment in the dispatcher speaks of the longest match, but the loop goes on after a match. No
  request reaches two handlers exactly when no registered prefix of that method is a prefix of
  another (`Dispatch.AtMostOneIffPrefixFree`).
- An unknown template parameter is reported at the end of the placeholder replaced before it, or at the
  start of the template; that is the position of its own brace exactly when no text lies in between
  (`Format.UnknownIsReportedAt`, with `Format.ReportedTooEarly` for the inputs that show it).
- A comment in `FromString` promises truncation to nine digits. In exact arithmetic that holds unless
  the tenth digit is a nine and the eleventh at least a five (`Rfc3339.NanosWithoutError`); otherwise
  the result is one nanosecond more, possibly in the next second (`Rfc3339.CarriesIntoNextSecond`).

## Model

| member | source | states |
|---|---|---|
| `Ordering.InOrderIncreasing` | src/api_server.cc:42-44 | iterating a map visits its keys strictly upwards, for any strict total order |
| `Ordering.IncreasingUnique` | src/api_server.cc:42-44 | two strictly increasing sequences over the same elements are equal, so that iteration order is determined |
| `Ordering.LexLessIff` | src/api_server.cc:42-44 | lexicographic order is decided at the first difference, or by length if there is none |
| `Ordering.PairLessIff` | src/api_server.cc:42-46 | pairs of strings compare by the first and then by the second, each at the first difference |
| `Store.ResourceLessIff` | src/resource.h:40-43 | resources compare by type, and for equal types by their labels in order of name, at the first difference |
| `Store.LabelPairsSorted` | src/resource.h:40-43 | the labels compared are exactly those of the resource, by increasing name |
| `Store.ResourceLessStrictTotal` | src/resource.h:40-43 | comparing type and then labels is a strict total order |
| `Store.ResourcesInOrderIncreasing` | src/store.cc:85-89 | a walk over the metadata map visits its resources strictly upwards in that order |
| `Json.RunConcat` | src/json.cc:536-556 | feeding two event sequences one after the other is feeding their concatenation, refusals included |
| `JsonGrammar.BuildsValue` | src/json.cc:109-225 | in any context stack, the events of any value of any nesting add exactly that value to the innermost context and restore the stack, where an object context must have a field name pending |
| `Json.FirstWinsKeepsFirst` | src/json.cc:263-270 | the names kept are all those offered, each with the value of its first occurrence |
| `JsonGrammar.DuplicateNamesKeepFirst` | src/json.cc:263-270 | an object text with repeated names is built as the object of the first values |
| `JsonGrammar.RunWritten` | src/json.cc:344-415 | in any context, any event list that writes a value by the grammar of JSON texts, with numbers as integers or as doubles and with repeated names, adds that value |
| `JsonGrammar.RunWrittenAll` | src/json.cc:244-251 | in an array context such lists append their values in order |
| `JsonGrammar.RunWrittenPairs` | src/json.cc:253-274 | in an object context such field lists leave the first value of each name |
| `JsonGrammar.DeliversWritten` | src/json.cc:276-285 | at depth zero such values reach the callback in order |
| `JsonGrammar.FieldIsStored` | src/json.cc:263-270 | a value after a name becomes that field unless the name is taken, and the name is used up |
| `JsonGrammar.NameIsReplaced` | src/json.cc:256-262 | a second name in a row replaces the first |
| `JsonGrammar.NamelessIsDropped` | src/json.cc:263-267 | a value in an object without a name is dropped |
| `JsonGrammar.NumberEventIs` | src/json.cc:125-141 | a number is written as an integer exactly if it is a whole number of the 64-bit range other than negative zero |
| `JsonGrammar.SerialisedInOrder` | src/json.cc:216-225 | an object is written field by field, each once, by increasing name |
| `JsonGrammar.EventsWrite` | src/json.cc:109-225 | the serialisation of any value writes that value by the same grammar |
| `JsonParser.StepShape` | src/json.cc:294-338 | one event is refused exactly when it is a key or a closing bracket that does not match the innermost container; otherwise the stack changes as the brackets do and the callback gets a value exactly at depth zero |
| `JsonParser.RefusesExactlyMismatch` | src/json.cc:383-415 | for any event sequence: refused exactly when some key or close does not match; depth is opens minus closes; one delivery per value ended at depth zero |
| `JsonParser.AcceptsNextIff` | src/json.cc:306-338 | after any accepted events a key or a closing brace is accepted exactly if the last opening event without its closing one is that of an object, a closing bracket exactly if it is that of an array, and everything else always |
| `JsonParser.FindOpened` | src/json.cc:298-326 | the open containers are those of the opening events that no closing event has matched, in order |
| `JsonParser.DeliveredOnlyGrows` | src/json.cc:276-285 | what reached the callback stays as it is |
| `JsonParser.ChunksDoNotMatter` | src/json.cc:536-556 | parsing in chunks is parsing the whole, however it is cut |
| `JsonParser.BuildsTopLevel` | src/json.cc:466-476 | the serialisation of a list of values is delivered as those values, in order, behind what was there |
| `JsonParser.StreamRoundTrip` | src/json.cc:536-556 | a serialised stream of values, cut anywhere, reaches the callback unchanged and leaves no open context |
| `JsonParser.JSONBuilder.constructor` | src/json.cc:290-291 | a builder starts with no open context and nothing delivered |
| `JsonParser.JSONBuilder.AddValue` | src/json.cc:294-296 | a value goes to the innermost context: appended to an array, stored under the pending name unless that name is taken, dropped without a name, delivered at depth zero |
| `JsonParser.JSONBuilder.PushArray` | src/json.cc:298-300 | opens an empty array context on top of the stack |
| `JsonParser.JSONBuilder.PushObject` | src/json.cc:302-304 | opens an empty object context on top of the stack |
| `JsonParser.JSONBuilder.PopArray` | src/json.cc:306-315 | hands out the elements and closes the context exactly in an array; otherwise nothing changes |
| `JsonParser.JSONBuilder.PopObject` | src/json.cc:317-326 | hands out the fields and closes the context exactly in an object; otherwise nothing changes |
| `JsonParser.JSONBuilder.NewField` | src/json.cc:329-338 | sets or replaces the pending name exactly in an object; otherwise nothing changes |
| `JsonParser.JSONBuilder.Handle` | src/json.cc:344-415 | a callback does the step of the specification, and says no exactly when there is none |
| `JsonParser.JSONBuilder.Feed` | src/json.cc:536-556 | events are taken up to the first refused one, and the state is that of the events taken |
| `JsonParser.AllFromStream` | src/json.cc:466-476 | the parser returns the values that the whole stream writes by the grammar, and fails exactly when its events are not well nested or leave a container open |
| `Base64.EncodingUnique` | src/base64.cc:49-66 | the relation that defines the encoding, over bit strings, has one result per input |
| `Base64.DecodingUnique` | src/base64.cc:69-86 | the relation that defines the decoding has one result per input |
| `Base64.Encode` | src/base64.cc:49-66 | with 32-bit wrap-around: the result is the unpadded base64url text of sections 4 and 5 of RFC 4648, of length ceil(4n/3), its bits those of the input followed by zeros |
| `Base64Blocks.AlphabetIs` | src/base64.cc:24-27 | the characters are those of Table 2 of RFC 4648, in its order |
| `Base64Blocks.EncodingIsByBlocks` | src/base64.cc:49-66 | character 4k+p of an encoding is sextet p of the 24-bit number of octets 3k to 3k+2, with zeros for missing ones, as section 4 of RFC 4648 defines it |
| `Base64.OnlyLiveBitsMatter` | src/base64.cc:52-55 | two buffers that agree on their live bits agree on every later live bit and on every character written |
| `Base64.TakeOctetBits` | src/base64.cc:52-52 | shifting in an octet appends its eight bits to the live ones despite the wrap-around |
| `Base64.NextValBits` | src/base64.cc:78-78 | the decoder's signed accumulator likewise gains six bits |
| `Base64.DecodeTable` | src/base64.cc:72-73 | the table holds the position of each alphabet character and -1 elsewhere |
| `Base64.Decode` | src/base64.cc:69-86 | the result holds the whole octets of the bits of the alphabet characters up to the first other character |
| `Base64.DecodeOfEncode` | src/base64.cc:49-86 | decoding an encoding followed by nothing or by anything that starts outside the alphabet gives back the input |
| `Base64.EncodeOfDecode` | src/base64.cc:49-86 | encoding the decoding of an alphabet text gives that text exactly when it is canonical in the sense of section 3.5 of RFC 4648 |
| `Store.AliasIsFirstOffer` | src/store.cc:37-48 | over every history an alias is bound exactly if it was ever offered, to the resource of its first offer |
| `Store.AliasesNeverChange` | src/store.cc:31-48 | a bound alias keeps its resource through all later operations, so a looked-up reference stays valid |
| `Store.LastCollectedIsMaximum` | src/store.cc:72-77 | the time recorded for a type exists exactly if something was stored for it, and is the largest collection time of all that was, in any order and also after purges |
| `Store.EntryIsLastStored` | src/store.cc:50-122 | an entry is present exactly if it was stored, not overwritten, and not purged as deleted; last writer wins whatever its time |
| `Store.EntriesBoundedByLastCollected` | src/store.cc:50-78 | no stored entry is newer than the time of its type, and none is an ignored one |
| `Store.MetadataStore.constructor` | src/store.cc:29-29 | a new store is the state of the empty history |
| `Store.MetadataStore.LookupResource` | src/store.cc:31-35 | fails exactly for an alias that was never offered in the store's history, and otherwise gives the resource of the first offer |
| `Store.MetadataStore.UpdateResource` | src/store.cc:37-48 | the whole new state is that of the operation in the specification, which the history gains |
| `Store.MetadataStore.UpdateMetadata` | src/store.cc:50-78 | likewise, ignored entries included |
| `Store.MetadataStore.GetMetadataMap` | src/store.cc:80-91 | the copying loop returns the current entries and changes nothing |
| `Store.MetadataStore.GetLastCollectionTimes` | src/store.cc:93-96 | exactly the types for which something was ever stored, each with the largest collection time of all that was |
| `Store.MetadataStore.PurgeDeletedEntries` | src/store.cc:98-122 | the erasing walk removes the deleted entries and nothing else |
| `HealthChecker.HealthChecker.constructor` | src/health_checker.cc:28-30 | nothing is reported yet |
| `HealthChecker.HealthChecker.SetUnhealthy` | src/health_checker.cc:32-35 | adds the component and keeps all others |
| `HealthChecker.HealthChecker.UnhealthyComponents` | src/health_checker.cc:37-52 | the reported components and exactly the types for which something was stored in the store's history, all of it collected more than the configured seconds ago |
| `HealthChecker.StaleMeansAllOld` | src/health_checker.cc:41-50 | over every history, comparing the recorded time with the cutoff finds exactly the types for which something was stored and everything stored was older |
| `HealthChecker.ReportedIsReports` | src/health_checker.cc:32-35 | the set holds exactly the components ever reported |
| `HealthChecker.UnhealthyForever` | src/health_checker.cc:32-52 | a reported component stays unhealthy whatever happens later |
| `HealthChecker.FreshDataHeals` | src/health_checker.cc:37-52 | a type that was not reported is healthy once one stored entry is recent enough |
| `Updater.ApplyAllContinues` | src/updater.cc:96-103 | polling continues the history of the store, so everything shown of histories holds of it |
| `Updater.StoreResults` | src/updater.cc:99-102 | each result is stored in order, its aliases and then its entry |
| `Updater.PollForMetadata` | src/updater.cc:96-107 | the loop stores every round whole, goes on exactly after the waits that ran their full time, and ends at the first that did not |
| `Updater.PolledIsStored` | src/updater.cc:96-103 | whatever the store held, it then holds the last result of each resource that is not an ignored one |
| `Updater.PolledAliasesAreBound` | src/updater.cc:96-103 | every alias of every result can be looked up afterwards |
| `Packing.JoinedLength` | src/reporter.cc:103-115 | the text of the entries is one byte per comma longer than the sizes the code adds up |
| `Packing.BodySpells` | src/reporter.cc:103-115 | a body holds the text of each entry at its place, in order, with one comma between neighbours and the brackets around |
| `Packing.SurvivorsFit` | src/reporter.cc:184-189 | the entries kept are exactly those that fit a request of their own |
| `Packing.BatchesConserve` | src/reporter.cc:170-202 | the batches laid end to end are the survivors in order; none is empty, each meets the code's limits |
| `Packing.BatchesOptimal` | src/reporter.cc:165-202 | no order-preserving split of the survivors within the code's limits has fewer parts |
| `Packing.DropFront` | src/reporter.cc:165-202 | any split yields one with as many parts for any suffix of the entries |
| `Packing.BatchesSnoc` | src/reporter.cc:190-197 | one more entry extends the last batch if it fits there and otherwise starts a new one |
| `Packing.SendMetadata` | src/reporter.cc:138-203 | the loop sends exactly the requests of the specification; on a refusal the accepted ones are a proper prefix, and the refused one is the next |
| `Packing.RequestsConserve` | src/reporter.cc:170-202 | all requests laid end to end are the survivors in order |
| `Packing.AcceptedConserves` | src/reporter.cc:170-202 | what was accepted, end to end, is a prefix of the survivors, and all of them when nothing was refused |
| `Packing.RequestBounds` | src/reporter.cc:160-202 | count limit, non-emptiness, and the exact body length with its true bound |
| `Packing.RequestsOptimal` | src/reporter.cc:165-202 | what is sent is no more requests than any such split, but for the one empty request of a count limit of zero |
| `Packing.ByteLimitKeptIff` | src/reporter.cc:163-197 | for entries of at least m bytes, every body is within the byte limit exactly when the count limit is one or the limit is below the empty body and two such entries |
| `Packing.CommaTooMany` | src/reporter.cc:190-197 | for all other limits, two entries of at least m bytes whose request is one byte over |
| `Packing.NeverEmptyIff` | src/reporter.cc:190-202 | no request is ever empty exactly when the count limit is not zero or no entry of m bytes fits |
| `ReportCycle.ItemsAreEntries` | src/reporter.cc:170-181 | the entries to send are exactly those of the snapshot |
| `ReportCycle.AcceptedReports` | src/reporter.cc:170-202 | what was accepted are entries of the snapshot that fit a request of their own, each once, strictly upwards in the order of resources and with none left out before the last; all of them if nothing was refused |
| `ReportCycle.CyclesReport` | src/reporter.cc:74-89 | in every interleaving that holds of every cycle, and all entries that fit were accepted in a cycle that purged |
| `ReportCycle.CycleCanComplete` | src/reporter.cc:74-89 | from any idle state a cycle takes the store as it is, can have every request accepted in turn, and only then goes on to the purge, if that is configured |
| `ReportCycle.ErasedIsWhatVanishes` | src/store.cc:98-122 | a purge takes exactly the deleted entries out of the store, and records exactly those as erased |
| `ReportCycle.RunKeepsInvariant` | src/reporter.cc:62-89 | in every interleaving: what was accepted is a prefix of the cycle's requests, a purge happens only after all of them, and only deleted entries are erased |
| `ReportCycle.ErasedWasReportedIff` | src/reporter.cc:74-89 | an erased entry was in an accepted request exactly when it is the snapshot's and not individually too large |
| `ReportCycle.UnreportedDeletion` | src/reporter.cc:74-89 | a deletion stored between snapshot and purge is erased without ever being sent |
| `ReportCycle.ReportOnce` | src/reporter.cc:74-89 | one undisturbed cycle: every entry of the store that fits is sent once, upwards, and then the purge if configured; on a refusal those before some point, and an untouched store |
| `ServiceCache.ServiceIsLastEvent` | src/kubernetes.cc:1041-1059 | a service is cached exactly if its last event was not a deletion, with that event's content |
| `ServiceCache.PodsAreLastEvent` | src/kubernetes.cc:1061-1113 | likewise the pods of its last endpoints event, independently of service events |
| `ServiceCache.ServiceListOfHistory` | src/kubernetes.cc:449-481 | the list holds exactly the live services in key order, each spelled out with its content and one resource per pod target of its last endpoints event, or none |
| `ServiceCache.ServiceCaches.constructor` | src/kubernetes.cc:449-481 | both caches start empty |
| `ServiceCache.ServiceCaches.UpdateServiceToMetadataCache` | src/kubernetes.cc:1041-1059 | the new caches are those of the event in the specification |
| `ServiceCache.ServiceCaches.UpdateServiceToPodsCache` | src/kubernetes.cc:1061-1113 | likewise, with the pod names the nested loops collect |
| `ServiceCache.ServiceCaches.GetServiceList` | src/kubernetes.cc:449-481 | the join of the two caches, which stay as they are |
| `ServiceCache.CollectPodNames` | src/kubernetes.cc:1072-1103 | the loops with their skips collect, in order of subset and address, the names at exactly the positions whose target has the kind Pod and a name |
| `ServiceCache.CollectPodResources` | src/kubernetes.cc:462-471 | one resource per pod name, in order, with its four labels |
| `ServiceCache.FindPods` | src/kubernetes.cc:1072-1103 | flattening visits exactly the positions of pod targets, upwards |
| `ClusterPublish.ClusterEntryIs` | src/kubernetes.cc:487-511 | resource, labels, fields and flags of the cluster's entry |
| `ClusterPublish.RunKeepsInvariant` | src/kubernetes.cc:1236-1281 | what every interleaving of the update, join and publish steps keeps, with other users of the store |
| `ClusterPublish.StoredIsSomePrefix` | src/kubernetes.cc:1236-1281 | the stored cluster value is always the join after some prefix of the update order that includes its publisher's own update |
| `ClusterPublish.QuiescentIsCurrent` | src/kubernetes.cc:1236-1281 | with all threads at rest it is the current join if the last to join was the last to publish, in terms of the threads; the exact condition is in `ClusterFreshness` |
| `ClusterFreshness.RunSameShape` | src/kubernetes.cc:1236-1281 | which steps can happen, and which update each join and publication saw, does not depend on what the events say |
| `ClusterFreshness.PublishedSaw` | src/kubernetes.cc:1236-1281 | the stored publication saw exactly the updates before the join that it published |
| `ClusterFreshness.FindPublishedJoin` | src/kubernetes.cc:1236-1281 | every publication has such a join, by the same thread and with none of its steps in between |
| `ClusterFreshness.JoinsTellApart` | src/kubernetes.cc:449-481 | with a service anywhere in the history, suitable contents of any later event change the join |
| `ClusterFreshness.AlwaysCurrentIff` | src/kubernetes.cc:1236-1281 | the stored value is the current join for all contents of the events exactly when no cache update follows the join published last, or no event is about a service |
| `ClusterPublish.QuiescentMayBeStale` | src/kubernetes.cc:1236-1281 | a run of two threads that comes to rest on the older join |
| `OwnerWalk.KindNameIsFirst` | src/kubernetes.cc:925-934 | a kind has the name that the list gives it first, names with a slash aside |
| `OwnerWalk.FetchOwnerIff` | src/kubernetes.cc:968-987 | an owner is fetched exactly if the object at the path of its version, that name, its namespace and its name has its uid |
| `OwnerWalk.FirstControllerIs` | src/kubernetes.cc:1019-1034 | the controller is the first reference whose controller field is there and true, if any |
| `OwnerWalk.EncodeRefInjective` | src/kubernetes.cc:960-963 | a key determines version, kind and uid when kind and uid hold no slash |
| `OwnerWalk.CachedIsObject` | src/kubernetes.cc:965-991 | a cached object carries the uid of its key and is an object of the server |
| `OwnerWalk.CachedIsFetched` | src/kubernetes.cc:965-991 | with unique uids it is what a query returns exactly when that succeeds |
| `OwnerWalk.CacheAnswersForWrongName` | src/kubernetes.cc:960-991 | a server and two references with one key, of which only one can be fetched |
| `OwnerWalk.OneHop` | src/kubernetes.cc:1038-1038 | an owner from the cache or the server goes down in rank, and the walk can go on from it |
| `OwnerWalk.CachedAbove` | src/kubernetes.cc:988-989 | what a walk has cached on its way does not change how it goes on |
| `OwnerWalk.FailsBelow` | src/kubernetes.cc:994-1039 | the direct walk fails exactly when it meets a reference that cannot be fetched, which lies below its start, and with that failure |
| `OwnerWalk.FollowsDirect` | src/kubernetes.cc:994-1039 | the walk through a cache is the direct walk unless that fails at a cached reference, and then the walk through the cache from the cached owner |
| `OwnerWalk.CachedAgreesIff` | src/kubernetes.cc:994-1039 | when exactly the two walks answer the same, and when exactly only the one through the cache succeeds |
| `OwnerWalk.OnlyTheCacheSucceeds` | src/kubernetes.cc:994-1039 | a server, a cache and an object for which it does |
| `OwnerWalk.KubernetesReader.constructor` | src/kubernetes.cc:905-992 | both tables start empty |
| `OwnerWalk.KubernetesReader.KindPath` | src/kubernetes.cc:905-947 | from any valid memo table: the path of the version and the first name of the kind without a slash in the server's list, and a failure exactly if there is none |
| `OwnerWalk.KubernetesReader.GetOwner` | src/kubernetes.cc:949-992 | for any reference the cached object, or the answer of the query; only successes are cached and counted as fetched |
| `OwnerWalk.KubernetesReader.FindTopLevelController` | src/kubernetes.cc:994-1039 | terminates from any valid cache with exactly the answer of the walk that asks the initial cache at every hop; the cache only grows and no key is fetched twice |
| `OwnerWalk.FindControllerRef` | src/kubernetes.cc:1005-1034 | the loop finds the first reference whose controller field is there and true, and none exactly without such a reference |
| `WatchRetry.BackoffNondecreasing` | src/kubernetes.cc:847-847 | later failures of a streak wait at least as long, and never over 30 seconds |
| `WatchRetry.StreakSleepClosedForm` | src/kubernetes.cc:847-851 | a streak of n failures sleeps 3(1.5^n - 1) seconds for n up to 8, and 30 more for each further one |
| `WatchRetry.SleepsPerRefusal` | src/kubernetes.cc:839-852 | the loop sleeps once per refused attempt and not otherwise |
| `WatchRetry.SleepAfterRefusal` | src/kubernetes.cc:847-851 | the k-th refusal of a run is followed by min(1.5^k, 30) seconds |
| `WatchRetry.WatchMaster` | src/kubernetes.cc:782-854 | throws exactly at the first streak over the limit or the first JSON exception, makes at most the configured attempts, returns only when they are used up, and sleeps as specified |
| `WatchRetry.ThrowsAtOneTooMany` | src/kubernetes.cc:841-846 | a loop that throws because of failures does so at a streak of exactly one more than the limit |
| `WatchRetry.StreakIsRun` | src/kubernetes.cc:783-841 | the failure counter is the length of the run of failures before it, bounded by a success or the start |
| `WatchRetry.StreakTotals` | src/kubernetes.cc:847-851 | within any sequence of attempts a streak adds its closed form to the time slept before |
| `WatchRetry.WatchThread` | src/kubernetes.cc:1181-1198 | a watch thread ends exactly when its loop does, in whichever way, and then its component, and no other, is reported |
| `Rfc3339.MonthLengthIs` | src/time.cc:54-54 | the lengths of the twelve months and the rule for leap years |
| `Rfc3339.YearsAddUp` | src/time.cc:95-95 | the closed form for years grows by the length of each year, by the Gregorian rule |
| `Rfc3339.NextDayIsNext` | src/time.cc:95-95 | `mktime` gives the next date the next day number |
| `Rfc3339.DayOfDateOfDay` | src/time.cc:54-54 | counting days from the epoch gives valid dates whose day number is the count |
| `Rfc3339.DateOfDayOfDate` | src/time.cc:54-54 | every valid date from 1970 on is reached by counting its day number |
| `Rfc3339.SecondsOfGmTime` | src/time.cc:36-43 | `mktime` in UTC undoes `gmtime` for every second from the epoch on, with all fields in range |
| `Rfc3339.OffsetIsEast` | src/time.cc:36-45 | the offset constant is the standard offset, whenever the program was started |
| `Rfc3339.AcceptedIff` | src/time.cc:66-90 | a string is accepted exactly when the date and time parse, the seconds have two digits, and an optional point with at least one digit, the letter Z and the end follow |
| `Rfc3339Grammar.FieldIff` | src/time.cc:68-68 | a numeric field is read exactly where spaces and then digits stand, as many as its width and its range allow |
| `Rfc3339Grammar.StrptimeIff` | src/time.cc:68-68 | the date and time parse exactly where such fields stand with their separators, and to their values |
| `Rfc3339Grammar.ScanIff` | src/time.cc:66-90 | a string is accepted exactly in that form with two-digit seconds and the tail |
| `Rfc3339Grammar.FromStringByForm` | src/time.cc:66-100 | a string of any other form yields the epoch, and one of this form the time it denotes |
| `Rfc3339.TailUnique` | src/time.cc:73-84 | such a tail ends in one place only |
| `Rfc3339.SecondsTwice` | src/time.cc:86-92 | the whole seconds read a second time as a floating-point number are the seconds already parsed |
| `Rfc3339.RoundingError` | src/time.cc:86-92 | three rounded operations on doubles are off by at most a thousandth at the tenth digit |
| `Rfc3339.NanosOfFraction` | src/time.cc:91-92 | in doubles the nanoseconds of any fraction are its truncation or one more: the truncation for at most ten digits or a tenth digit below nine, one more from 96 on |
| `Rfc3339.NanosWithoutError` | src/time.cc:91-92 | without rounding errors they are floor(round(f * 10^10) / 10), the truncation exactly unless the tenth digit is a nine and the eleventh at least a five |
| `Rfc3339.FromStringDenotes` | src/time.cc:66-100 | every accepted string denotes its fields in UTC and its fraction in that sense, on any host |
| `Rfc3339.CarriesIntoNextSecond` | src/time.cc:91-99 | ten nines and a six name the next second |
| `Rfc3339.ScanOfDateTime` | src/time.cc:66-90 | every string of the form in section 5.6 of RFC 3339 with the letter Z is accepted with the fields and digits it shows |
| `Rfc3339.DateTimeDenotes` | src/time.cc:66-100 | and denotes them |
| `Rfc3339.ToStringIsDateTime` | src/time.cc:49-64 | every printed time has that form, with the calendar's fields and nine digits |
| `Rfc3339.RoundTrip` | src/time.cc:49-100 | parsing a printed time gives back that time, for every 64-bit time from the epoch on, every standard offset and every rounding of doubles |
| `Timer.RunKeepsInvariant` | src/time.h:87-122 | in every interleaving a cancellation in force keeps the mutex unlocked until it ends the loop |
| `Timer.CancelStops` | src/updater.cc:87-107 | after a cancellation not taken by an initial wait at most one more round begins, and a waiting loop can only stop |
| `Timer.UpdaterGoesOn` | src/updater.cc:96-103 | left alone an updater can work round after round, exactly one period apart |
| `Timer.StopsOnlyIfCancelled` | src/time.h:94-115 | a loop that nobody cancels does not stop |
| `Timer.RoundsAreAPeriodApart` | src/time.h:94-115 | in every run at least the period passes on the clock between the end of a round and the beginning of the next |
| `Timer.InitialWaitIsKept` | src/reporter.cc:62-71 | the first round of the reporter begins no earlier than its initial wait after the start, unless a cancellation ended that wait |
| `Timer.UpdaterCancelStops` | src/updater.cc:87-107 | for an updater that holds of every cancellation |
| `Timer.LostCancelGoesOn` | src/reporter.cc:62-89 | a cancellation during the reporter's initial wait can be followed by any number of rounds |
| `Timer.PromptIffNoInitialWait` | src/reporter.cc:62-89 | cancellation is prompt in all runs exactly for loops without an initial wait |
| `Format.FindFirst` | src/format.cc:46-51 | the search finds the first delimiter from its start, or there is none |
| `Format.Substitute` | src/format.cc:36-67 | the loop computes the specification from position zero |
| `Format.SkipText` | src/format.cc:49-49 | text in which no placeholder starts passes through, and makes a difference only to the position of an unknown name right after it |
| `Format.ReplacePlaceholder` | src/format.cc:50-63 | a placeholder becomes its value, which is not scanned again, or is unknown |
| `Format.SubstituteOfPrint` | src/format.cc:45-66 | for every list of brace-safe tokens, substituting the printed template gives the concatenated literals and values, or fails at the first unknown name |
| `Format.SubstituteExplained` | src/format.cc:45-66 | every template reads as brace-safe tokens up to a placeholder, followed by plain text, by a placeholder that is never closed, or by an unknown one, and the outcome is the one that goes with it |
| `Format.ExplanationDecides` | src/format.cc:45-66 | conversely such a reading determines the outcome, positions included |
| `Format.UnknownIsReportedAt` | src/format.cc:55-63 | an unknown name is reported at the end of a replaced placeholder or at the start; that is its own brace exactly when a placeholder starts there |
| `Format.ReportedTooEarly` | src/format.cc:55-63 | after any text an unknown first placeholder is still reported at position zero |
| `Dispatch.PrefixOrderIsLength` | src/api_server.cc:42-44 | among prefixes of one string the shorter is the lexicographically smaller |
| `Dispatch.MatchingOrder` | src/api_server.cc:42-54 | of two matching handlers the greater key has the longer prefix |
| `Dispatch.Dispatch` | src/api_server.cc:44-62 | exactly the handlers whose method and prefix match are called, once each, by strictly decreasing prefix length |
| `Dispatch.AtMostOneIffPrefixFree` | src/api_server.cc:44-62 | no request for a method calls two handlers exactly when no registered prefix for it is a prefix of another |

## Left out

- HTTP clients and servers, sockets and resolvers (`src/http`, `src/asio`): network code; what the server answers is a parameter.
- Lexing, escaping and number formatting of JSON text: done by an external library; values meet it as events, and numbers and strings are opaque leaves.
- JsonGrammar.BuildsValue: a number is a 64-bit integer or a double; the source stores a `long double` and narrows it to `double` when it serialises, which would round others.
- JsonParser.AllFromStream: at the end of the input a container left open is refused; what the library says of an input without any value is not modelled.
- Type errors in JSON documents (`json::Exception`): the documents the caches and the owner walk read have the fields they need, or lack the optional ones.
- Signing, credentials and environment queries (`src/oauth2.cc`, `src/environment.cc`): foreign calls.
- Configuration, command line, logging, signals, thread creation and joining: no property beyond input and output; configured values are parameters.
- `src/docker.cc`, `src/instance.cc` and the field copying of the `Get*Metadata` functions: would only add easy members. The text of an entry is a given function of resource and metadata.
- `util::Retry` and token expiry: would only add easy members.
- Widths of `int` counters and sizes in the reporter and the watch loop: they are unbounded here. The codec's 32-bit arithmetic is modelled exactly.
- Base64.Decode: requires characters below 128, because the source indexes its table with a possibly negative `char`; the shift of a negative accumulator is taken to wrap in two's complement.
- Packing.ByteLimitKeptIff: the least length of an entry's text is a parameter; the texts themselves are arbitrary strings.
- OwnerWalk.KubernetesReader.FindTopLevelController: assumes a server that does not change during the walk, an owner graph without cycles, and no slash in the kinds and uids that were cached or are walked. The comparison with the direct walk also assumes unique uids. A partly malformed kind list is not modelled.
- OwnerWalk.KubernetesReader.GetOwner: an unknown kind is one of its failures; in the source that exception is outside the function's exception specification and ends the program.
- Updater.PollForMetadata: the interplay of the waits with cancellation is modelled separately, in `Timer`.
- WatchRetry.WatchMaster: powers and sleeping times are real numbers. A JSON exception is one of the ways in which an attempt can end; the watcher in the source catches those of its callbacks.
- Timer.CancelStops: the timer is a step machine and not an object, because its loop, the clock and the cancelling thread interleave; a try on an unlocked mutex succeeds, the clock does not go back, and a cancellation happens only while the mutex is locked, since unlocking an unlocked mutex is undefined.
- ReportCycle.RunKeepsInvariant: one reporter, as in the program; a refused request ends its cycle.
- Rfc3339.FromStringDenotes: the standard offset is constant (no daylight saving time, no leap seconds), and years whose nanoseconds overflow 64 bits are computed without the overflow. `strptime` is modelled for the one format in use, in the C locale.
- Rfc3339.RoundTrip: times before the epoch are outside the domain of the fraction's printing.
- `Expiration` in `src/time.h`: would only add easy members.
