# Verified models of opsi's ordering, synchronization and control algorithms

opsi installs software on many clients from a central server. This project states in Dafny what its
central algorithms do, and proves it for all inputs.

**Ordering products** is the main part. `OPSI/SharedAlgorithm.py` decides in which order products are
set up on the clients:

* `ActionRequests` - an action requested for a product may require actions of other products. The
  recursion that adds these is given as a function on the state of a client; its effect is bounded
  from above (what may change, and why) and, in `RequestClosure` and `ClientClosure`, from below (no
  dependency is passed over); `RequestReasons` reads off the dependencies why an action is requested,
  and `RequestSafety` and `ClientSafety` say beforehand when nothing is left unmet. The code is proved
  to compute it, in `DependentActions` for all clients.
* `PriorityPush` - algorithm 1 first lifts every product to the priority of whatever it has to come
  before, pass by pass, until nothing moves. A pass is one simultaneous step, the limit is the maximum
  over everything reachable, and it comes within as many passes as there are products.
* `OrderRequirements`, `OrderBuilding` - a topological sort written with two insertion-sorted index
  maps, flags set in place and one element per call. It is proved against `ReadyOrder`, a sort of the
  bare set of pairs, which in turn is tied to cycles and walks (`Digraphs`) and to laws that determine
  the order (`OrderLaws`).
* `ClassSorting`, `SequenceProperties`, `ClassLaws` - algorithm 2 sorts each priority class by itself.
* `ClassCycles`, `ProductSequence` - both together: an installation order comes out exactly when the
  requirements have no cycle, and the error names exactly the products concerned.
* `EntriesByClient`, `ClientSequence`, `ClientLaws`, `ActionSequence` - from dependencies to numbered
  actions on each client.

The other modules are about smaller pieces: `Transfer`, `DirectoryPlan`, `DirectoryRun` and
`DirectorySync` (copying under a changing buffer size, resuming, mirroring a depot
directory; `OPSI/Util/Repository.py`),
`HostPolling` (asking many hosts with a bounded number of threads; `OPSI/Backend/HostControl.py`),
`GroupSorting` (parents first; `OPSI/Backend/Replicator.py`), `PingChecksum` (`OPSI/Util/Ping.py`) and
`Escaping` with `EscapedText` (`OPSI/Backend/File.py`).

State that the code changes in place is held in classes (`Requirements`, `OrderBuild`,
`XClassifiedProduct`, `ProductOnClient`, `ActionRequester`, `Repository`, `SpeedLimiter`,
`Synchronizer`, `HostControl`), whose methods are proved against functions and predicates on values;
what these mean is proved as lemmas. Python's growing lists are fields of type `seq`, its dictionaries
fields of type `map`.

Where the code does not do what one would expect, the model follows the code, and the exact condition
is proved:

* A product can lose its action after others have come to rely on it, so that what they depend on stays
  unmet: in its own call (`RequestClosure.ClosedExactly`, and before the call `RequestSafety.SecureExactly`),
  and in a later call for the same client (`ClientClosure.ClientClosedExactly`, and before the calls
  `ClientSafety.ReliableExactly`).
* `generateProductOnClientSequence` drops every entry when the sorted list is empty, and all but the
  last of several entries for one product on one client (`ClientSequence.NothingLost`).
* Algorithm 2 silently drops products whose priority lies outside -100..100
  (`SequenceProperties.SequenceIsPermutation`).
* `checksum` computes the number of bytes to take by true division, so that an odd length ends in an
  index error instead of reaching the branch written for it (`PingChecksum.Checksum`); and beyond
  131074 bytes its 32-bit mask loses carries (`PingChecksum.SafeLengths`).
* `__unescape` does not undo `__escape` for a backslash directly followed by the letter n
  (`Escaping.RoundTrip`).
* The names of partial files may be names of listed files, links or directories: a file there is lost,
  a directory stops the run with an error. Mirroring works exactly for the listings without such names
  (`DirectoryRun.NoClashExactly`).
* A download that ends before the first byte fetches the whole file (`Transfer.PartsMakeWhole`).
* A remote call that raises an exception without message is reported like one that returned nothing
  (`HostPolling.FailureTakenForAnswer`).

What callers are asked for: the ids of products, groups and hosts are distinct; priorities are given
and lie in -100..100 for algorithm 1; dependencies name a real action, and require an action or one of
the two statuses the code knows.

## Model

| member | source | states |
|---|---|---|
| `OrderRequirements.Requirements.Add` | OPSI/SharedAlgorithm.py:245-314 | whatever flags are set, both index maps stay permutations of the list indices sorted by prior and by posterior, and the requirement is appended to the list |
| `OrderRequirements.Place` | OPSI/SharedAlgorithm.py:260-282 | the shifting insertion gives a sorted index map that again lists every index once, the new key standing in front of the first key that is not smaller |
| `OrderRequirements.OrdersUnique` | OPSI/SharedAlgorithm.py:254-314 | the keys alone determine the index map: two sorted maps over the same keys are equal |
| `OrderRequirements.InsertKeepsOrder` | OPSI/SharedAlgorithm.py:260-282 | inserting the index of the last key at the first place whose key is not smaller keeps an index map sorted and complete |
| `OrderRequirements.Requirements.PosteriorIndexOf` | OPSI/SharedAlgorithm.py:316-338 | -1 exactly when no unfulfilled requirement has the posterior; otherwise the first place of such a requirement in the order by posterior |
| `OrderRequirements.Requirements.IndexOfFirstNotFulfilledRequirementOrderedByPrior` | OPSI/SharedAlgorithm.py:340-352 | -1 exactly when every requirement is fulfilled; otherwise the first unfulfilled place in the order by prior |
| `OrderRequirements.Requirements.FirstPriorNotOccurringAsPosterior` | OPSI/SharedAlgorithm.py:354-384 | finds the first unfulfilled requirement whose prior is no unfulfilled posterior; when there is none, reports the priors in the way |
| `OrderRequirements.InTheWayExact` | OPSI/SharedAlgorithm.py:359-384 | the reported indices are exactly the priors that are themselves posteriors of unfulfilled requirements, each reported once |
| `ReadyOrder.ResidueExact` | OPSI/SharedAlgorithm.py:427-508 | repeatedly dropping the smallest prior that is no posterior leaves exactly the pairs whose prior lies on or behind a cycle |
| `ReadyOrder.AcyclicIffNoResidue` | OPSI/SharedAlgorithm.py:427-508 | nothing is left exactly when the requirement graph has no cycle (self-loops included) |
| `ReadyOrder.EmittedHonours` | OPSI/SharedAlgorithm.py:427-508 | an emitted posterior is emitted behind each of its priors |
| `ReadyOrder.EmittedDistinct` | OPSI/SharedAlgorithm.py:427-508 | no index is emitted twice |
| `ReadyOrder.EmittedShort` | OPSI/SharedAlgorithm.py:750-753 | of n elements at most n - 1 are emitted one at a time, so that n calls always reach the completing step |
| `ReadyOrder.CompletedIsPermutation` | OPSI/SharedAlgorithm.py:438-474 | without cycles the completed order holds each of the indices 0 to n - 1 exactly once |
| `ReadyOrder.CompletedHonours` | OPSI/SharedAlgorithm.py:427-508 | without cycles every prior stands before its posterior in the completed order |
| `OrderLaws.CompletedIsLawful` | OPSI/SharedAlgorithm.py:427-508 | without cycles the completed order obeys these laws: a permutation honouring every pair; indices in no pair stand in front of all others, ascending; pure posteriors behind all others, ascending; a prior is taken before a smaller one only as long as that one still waits for a prior of its own |
| `OrderLaws.LawfulIsUnique` | OPSI/SharedAlgorithm.py:427-508 | two orders that obey these laws are equal |
| `OrderBuilding.Rearranged` | OPSI/SharedAlgorithm.py:457-474 | the sorted items move to the end of the list, in their order, and the others to its beginning |
| `OrderBuilding.AppendUnused` | OPSI/SharedAlgorithm.py:437-455 | appends, ascending, exactly the allowed indices that are not used yet, and marks these as used |
| `OrderBuilding.CompleteOrder` | OPSI/SharedAlgorithm.py:435-474 | the completing step yields: untouched indices ascending, then the emitted priors, then the pure posteriors ascending; in a call on an already completed order it changes nothing; the result obeys the laws of the order |
| `OrderBuilding.OrderBuild.constructor` | OPSI/SharedAlgorithm.py:402-425 | a fresh build is valid, has emitted nothing, and has all pairs of the requirement list to fulfil |
| `OrderBuilding.OrderBuild.Proceed` | OPSI/SharedAlgorithm.py:427-508 | one call refines one step of the set-based order: it changes nothing once all elements are used, completes the order when nothing is left to fulfil, else emits the smallest ready prior and fulfils exactly its requirements, else fails, changing nothing and naming each remaining prior once |
| `OrderBuilding.OrderBuild.NeverTooMany` | OPSI/SharedAlgorithm.py:427-505 | usedCount never exceeds the number of elements, and stays below it until the order is completed |
| `OrderBuilding.OrderBuild.Fulfil` | OPSI/SharedAlgorithm.py:475-505 | the branch with an unfulfilled requirement does what one step of the set-based order asks for |
| `OrderBuilding.OrderBuild.Stuck` | OPSI/SharedAlgorithm.py:354-384 | when the search fails, every remaining prior is a remaining posterior, and all of these are reported |
| `OrderBuilding.OrderBuild.FreeIsNext` | OPSI/SharedAlgorithm.py:485-490 | when the search succeeds, it has found the smallest ready prior, at the first place of that prior |
| `OrderBuilding.OrderBuild.Emit` | OPSI/SharedAlgorithm.py:489-503 | the emitted index is appended, and exactly its requirements count as fulfilled from then on |
| `OrderBuilding.OrderBuild.Finish` | OPSI/SharedAlgorithm.py:435-474 | once everything is fulfilled the ordering is the completed order |
| `ClassSorting.ProceedAll` | OPSI/SharedAlgorithm.py:750-764 | n calls always suffice: they yield the completed order of the pairs, the one that obeys the laws of the order, or fail, exactly when there is a cycle, and then the indices reported are exactly the priors on and behind cycles |
| `ClassSorting.SortClass` | OPSI/SharedAlgorithm.py:744-764 | sorting one class gives the completed order of its set of pairs, the one that obeys the laws of the order, whatever the order and number of the pairs, and fails exactly on a cycle |
| `ClassSorting.StuckExactly` | OPSI/SharedAlgorithm.py:354-384 | where no prior is ready any more, the pairs left are exactly those on and behind cycles of the initial pairs |
| `ClassSorting.Classify` | OPSI/SharedAlgorithm.py:689-701 | every class lists the ids of its priority in the order of the product list, and the index table says where |
| `ClassSorting.GroupRequirements` | OPSI/SharedAlgorithm.py:706-730 | each class gets exactly the index pairs of the requirements between its own products; requirements across classes, or on unavailable products, are ignored |
| `ClassSorting.OrderClasses` | OPSI/SharedAlgorithm.py:737-765 | going down the priorities, each class with requirements gets its own completed order; the first class on a cycle ends it with the names of the products in conflict |
| `ClassSorting.SequenceByClasses` | OPSI/SharedAlgorithm.py:683-786 | algorithm 2 fails exactly if some priority class has a cycle of its own; otherwise its result is the classes from 100 down to -100, each in its completed order |
| `SequenceProperties.SequenceIsPermutation` | OPSI/SharedAlgorithm.py:737-779 | algorithm 2 returns a permutation of the product ids exactly when all priorities lie in -100..100: a product outside is silently dropped |
| `SequenceProperties.ByLevelsDescends` | OPSI/SharedAlgorithm.py:737-779 | the priorities never increase along the result, and no place repeats a product |
| `SequenceProperties.ByLevelsHonours` | OPSI/SharedAlgorithm.py:706-779 | every requirement whose prior has at least the priority of its posterior is honoured |
| `SequenceProperties.ByLevelsMembers` | OPSI/SharedAlgorithm.py:767-779 | the result down to a level holds exactly the products of that level and above |
| `ClassLaws.ByLevelsIsLawful` | OPSI/SharedAlgorithm.py:689-779 | among products of one priority: those without requirements among them come first and those that only wait come last, both in the order of the product list; of the others, a later one of the list is taken before an earlier one only as long as that one still waits |
| `SequenceProperties.RequirementOrderIrrelevant` | OPSI/SharedAlgorithm.py:706-779 | algorithm 2 depends on the set of required pairs only, not on their order or number |
| `PriorityPush.ModifySortingClasses` | OPSI/SharedAlgorithm.py:590-648 | one pass raises every product at once to the largest priority among itself and the available products it is required for, all taken at the start of the pass, whatever the order of products and requirements; it says true exactly when something changed |
| `PriorityPush.HandleLevel` | OPSI/SharedAlgorithm.py:617-646 | handling one level lifts every available product required before one of the level to that level, and drops only requirements on unavailable products |
| `PriorityPush.LiftPriors` | OPSI/SharedAlgorithm.py:627-643 | lifts every available prior in a list of requirements to the level |
| `PriorityPush.Removed` | OPSI/SharedAlgorithm.py:645-646 | takes out one occurrence of a requirement, if there is any, and keeps all else |
| `PriorityPush.OnePass` | OPSI/SharedAlgorithm.py:602-648 | if all priorities declared up to k edges away have arrived, one more pass brings in those k + 1 edges away |
| `PriorityPush.StableIsPeak` | OPSI/SharedAlgorithm.py:668-674 | priorities that a pass leaves unchanged are the maxima of the declared priorities over everything reachable along requirement edges |
| `PriorityPush.EnoughPasses` | OPSI/SharedAlgorithm.py:668-674 | with one pass less than there are products all these maxima have been reached, whatever the range of priorities |
| `PriorityPush.EnoughPassesStable` | OPSI/SharedAlgorithm.py:668-674 | so the pass after that changes nothing |
| `PriorityPush.PeakUnique` | OPSI/SharedAlgorithm.py:668-674 | the maximum over the reachable products is unique: the fixpoint does not depend on how it is reached |
| `ProductSequence.PushPriorities` | OPSI/SharedAlgorithm.py:665-674 | the loop ends after at most max(1, number of products) passes, and each revised priority is then the maximum of the priorities declared by the product itself and all available products reachable from it |
| `ProductSequence.PushedProducts` | OPSI/SharedAlgorithm.py:651-680 | the products handed to algorithm 2 carry the pushed priorities, and no requirement between available products contradicts these: the branch that ignores a requirement is not reached from algorithm 1 |
| `ClassCycles.AcyclicByClasses` | OPSI/SharedAlgorithm.py:651-786 | once no requirement contradicts the priorities, the classes are all free of cycles exactly when the whole requirement graph is |
| `ProductSequence.MissingIsZero` | OPSI/SharedAlgorithm.py:696-720 | in algorithm 2 a missing priority counts as 0 |
| `ClassCycles.CycleIsFlat` | OPSI/SharedAlgorithm.py:590-648 | all products on a cycle end up with the same priority |
| `ClassCycles.ConflictExact` | OPSI/SharedAlgorithm.py:732-765 | which products the error names, told on the whole requirement graph: exactly those of the failing class that lie on or behind a cycle and have a requirement within the class, every product on a cycle of the class among them; no class above has a cycle |
| `ProductSequence.GenerateProductSequence` | OPSI/SharedAlgorithm.py:651-680 | algorithm 1 succeeds exactly when the requirement graph on the available products has no cycle; then the result is a permutation of the available ids honouring every requirement between them whatever the declared priorities, it is the class-by-class order of the pushed priorities, obeying the laws of that order, and where x stands before y something reachable from x was declared at least as high as y; the error names exactly the products to be reported for the highest level with a cycle |
| `ProductSequence.OrderOfPushed` | OPSI/SharedAlgorithm.py:651-786 | the class-by-class order of the pushed priorities is an installation order |
| `ProductSequence.Backing` | OPSI/SharedAlgorithm.py:590-680 | if x stands before y although declared lower, something reachable from x is declared at least as high as y |
| `ProductSequence.ErrorOfPushed` | OPSI/SharedAlgorithm.py:651-765 | the names in the error of algorithm 1, told in terms of the declared products and requirements |
| `ProductSequence.OnlyPairsMatter` | OPSI/SharedAlgorithm.py:651-786 | the result of algorithm 1 is determined by the product list and the set of required pairs |
| `ActionSequence.GetSetupRequirements` | OPSI/SharedAlgorithm.py:565-580 | contains the pair (first, later) exactly if some setup dependency, on status installed or action setup, asks for it: the required product first for type before, last for type after |
| `EntriesByClient.ByClient` | OPSI/SharedAlgorithm.py:515-517 | groups the entries by client, clients and products in the order of first appearance, a later entry taking the place of an earlier one with the same key |
| `EntriesByClient.EntriesMembers` | OPSI/SharedAlgorithm.py:515-517 | the dictionary of a client holds exactly the last entry of each of its keys, and no product twice |
| `EntriesByClient.ClientsMembers` | OPSI/SharedAlgorithm.py:515-517 | the clients are those of the entries, each once |
| `ClientSequence.Arrange` | OPSI/SharedAlgorithm.py:520-534 | one client: the entries of sorted products in the order of the sorted list, then the others, numbered from 0 in this order; nothing for an empty sorted list |
| `ClientSequence.GenerateProductOnClientSequence` | OPSI/SharedAlgorithm.py:514-536 | the whole result, each entry carrying as number the count of entries of the same client in front of it |
| `ClientLaws.SequencedIsLawful` | OPSI/SharedAlgorithm.py:514-536 | which of two entries stands in front: the one whose client came first; on one client the one whose product is listed first, or is listed at all; of two without a listed product the one whose product came first |
| `ClientLaws.NumbersOfUnlisted` | OPSI/SharedAlgorithm.py:529-534 | on one client an entry with a listed product has a smaller number than one without, and of two without, the one whose product came first has the smaller number |
| `ClientLaws.EntriesInOrder` | OPSI/SharedAlgorithm.py:515-517 | a dictionary keeps its products in the order in which they first came |
| `ClientLaws.ClientsInOrder` | OPSI/SharedAlgorithm.py:515-520 | clients follow each other in the order of their first appearance |
| `ClientSequence.NothingLost` | OPSI/SharedAlgorithm.py:514-536 | the result is a rearrangement of the entries exactly when no key occurs twice and the sorted list is not empty (or there is no entry): with an empty list all entries are dropped, and of several entries with one key all but the last |
| `ClientSequence.SequencedMembers` | OPSI/SharedAlgorithm.py:514-536 | for a non-empty sorted list the result holds the last entry of every key, each once, and nothing else |
| `ClientSequence.SequencedHonours` | OPSI/SharedAlgorithm.py:522-527 | on one client, entries stand in the order of their products in the sorted list |
| `ClientSequence.ArrangedMembers` | OPSI/SharedAlgorithm.py:520-534 | for a non-empty sorted list one client keeps exactly its entries, none twice |
| `ClientSequence.SmallerNumber` | OPSI/SharedAlgorithm.py:521-534 | of two entries of a client the one in front has the smaller number |
| `ClientSequence.NumbersAreExact` | OPSI/SharedAlgorithm.py:521-534 | the counts of entries of a client in front of its entries are exactly the numbers from 0 to one less than it has |
| `ClientSequence.AllNumbersFromZero` | OPSI/SharedAlgorithm.py:521-534 | so the action sequences of every client are exactly these numbers |
| `ActionSequence.GenerateProductOnClientSequenceByAlgorithm1` | OPSI/SharedAlgorithm.py:789-798 | end to end: succeeds exactly if the dependency graph on the available products is acyclic; then every entry is kept (given at least one product and no key twice), numbered from 0 on each client, in an installation order, and for every setup dependency between available products the required product has the smaller number for type before, and the larger for type after, on each client that has both; on failure no number changes |
| `ActionRequests.ActionRequester.AddActionRequest` | OPSI/SharedAlgorithm.py:32-171 | the recursion through the shared dictionary computes the closure given as a function of the state before; it terminates even on cyclic dependencies, since the available ids not added yet get fewer with each recursive call |
| `ActionRequests.ActionRequester.HandleDependency` | OPSI/SharedAlgorithm.py:46-171 | one dependency: skipped, refused (the action becomes none), already met, already taken, or added, exactly as the closure says |
| `ActionRequests.ActionRequester.PutRequired` | OPSI/SharedAlgorithm.py:149-163 | the required product gets an entry of the same client, if it has none, and its action; the requirer is noted |
| `ActionRequests.ActionRequester.AddRequired` | OPSI/SharedAlgorithm.py:147-171 | the required product is added, and then all that its action depends on |
| `ActionRequests.ActionRequester.TopLevelRequest` | OPSI/SharedAlgorithm.py:40-44 | a top-level call starts with nothing added, the empty dictionary being replaced |
| `ActionRequests.ActionRequester.AddDependent` | OPSI/SharedAlgorithm.py:190-196 | one client: one top-level call for each product it has an entry for at the start, in that order; entries stay the same objects, and added ones are new |
| `DependentActions.AddForClient` | OPSI/SharedAlgorithm.py:190-196 | the entries of one client: afterwards they show what the calls for all its products lead to; the old ones stay the same objects, the added ones are new and of the same client |
| `DependentActions.AddDependentProductOnClients` | OPSI/SharedAlgorithm.py:174-198 | all clients: each one ends up with what the calls on its own entries lead to, untouched by the other clients, and the result is these parts one after the other; the entries of before keep their places in front, and every action that is neither none nor as before is explained by some dependency |
| `DependentActions.JoinedInOrder` | OPSI/SharedAlgorithm.py:189-198 | the parts of the clients follow each other in the order of the clients |
| `RequestReasons.AddedWithReason` | OPSI/SharedAlgorithm.py:72-163 | every product added is noted with the product it was added for; a dependency of that product, there for its action, names it, in versions the depot has; and the action it ends with is none, or the one the dependency names, or setup for the status installed, or uninstall for the status not_installed |
| `RequestReasons.RequestedWithReason` | OPSI/SharedAlgorithm.py:190-196 | after all calls of a client every action is as before, or none, or explained by some dependency in this way |
| `RequestReasons.MissingRefuses` | OPSI/SharedAlgorithm.py:92-124 | a product loses its action over a matching dependency on something the depot does not have, or not in the versions asked for, unless the status asked for is recorded |
| `RequestReasons.NothingToDo` | OPSI/SharedAlgorithm.py:75-82 | nothing happens if for every matching dependency the status asked for is recorded (a product without an entry counts as not installed) or the product holds an action already |
| `ActionRequests.RequestEvolves` | OPSI/SharedAlgorithm.py:32-171 | one call changes no more than this: the product itself may lose its action, and every product added is available in the required versions, had no real action, is reached by a chain of matching dependencies, and ends with its required action or none |
| `RequestClosure.RequestCloses` | OPSI/SharedAlgorithm.py:46-171 | one call passes over nothing: for the product itself and every product added, each dependency of the action it ends with was satisfied at the start, or the required product is available and holds a real action, or has been added, or is the top product itself |
| `RequestClosure.ClosedExactly` | OPSI/SharedAlgorithm.py:46-171 | without the last exception this holds exactly if the top product keeps a real action, or no added product relies on it |
| `RequestSafety.SecureExactly` | OPSI/SharedAlgorithm.py:46-171 | when it holds, told before the call: whatever other products depend on, it holds exactly unless the top product is on the depot, the first of its dependencies to be acted on leads to an addition, and a later one is neither available nor satisfied for good |
| `RequestSafety.AvailableIsSecure` | OPSI/SharedAlgorithm.py:89-124 | in particular it holds if every matching dependency is available or satisfied for good |
| `RequestClosure.TopMayFallAway` | OPSI/SharedAlgorithm.py:121-124 | a failing call: the top product loses its action after an added product has come to rely on it |
| `ActionRequests.TopLevelFrame` | OPSI/SharedAlgorithm.py:189-196 | in a top-level call no other product that already holds a real action changes, no status changes, and whatever gets an action was properly asked for |
| `ActionRequests.TopLevelCall` | OPSI/SharedAlgorithm.py:189-196 | a top-level call on a product without a real action changes nothing at all |
| `ActionRequests.AllRequestedFrame` | OPSI/SharedAlgorithm.py:190-196 | after all calls every entry is still there with its status, and only available products changed, but for those that lost their action |
| `ClientClosure.ClientCloses` | OPSI/SharedAlgorithm.py:190-196 | after the calls for all products of a client: each dependency of each final action was satisfied at the start, or the required product is available and holds a real action, was added in some call, or lost its action in its own call |
| `ClientClosure.ClientClosedExactly` | OPSI/SharedAlgorithm.py:190-196 | nothing is left unmet exactly if no final action relies on a product that lost its action in its own call and got none since |
| `ClientClosure.LaterCallMayLetDown` | OPSI/SharedAlgorithm.py:190-196 | a client on which something is left unmet although no dependencies go round in a cycle: the required product loses its action in a later call |
| `ClientClosure.LostIsRefused` | OPSI/SharedAlgorithm.py:92-124 | a product loses its action only over a dependency that is neither available nor satisfied for good |
| `ClientClosure.AvailableIsClosed` | OPSI/SharedAlgorithm.py:190-196 | nothing is left unmet if all dependencies of the products of the client are available or satisfied for good |
| `ClientSafety.ReliableExactly` | OPSI/SharedAlgorithm.py:92-124 | which requested products never let another one down, told before the calls: whatever other products are there and depend on, and in whatever order the calls are made, exactly those that are not on the depot, or whose matching dependencies are all available or satisfied for good |
| `ActionRequests.KeepsAction` | OPSI/SharedAlgorithm.py:89-124 | a product that keeps its action has all matching dependencies available or satisfied at the start; if all are available, or satisfied for good (by a recorded status, or that of a product that can get no entry), it keeps it |
| `ActionRequests.SatisfiedBefore` | OPSI/SharedAlgorithm.py:79-82 | a status dependency satisfied in the course of a call was satisfied before it |
| `Transfer.SpeedLimiter.Limit` | OPSI/Util/Repository.py:406-413 | after a non-empty read the next buffer is never smaller than 1, whatever the measured speed |
| `Transfer.SpeedLimiter.LimitTo` | OPSI/Util/Repository.py:303-381 | the buffer is the number of bytes received or lies between the smallest and the largest buffer; the time to sleep stays within 0 and 0.3 seconds |
| `Transfer.SpeedLimiter.AdjustSleepTime` | OPSI/Util/Repository.py:325-354 | the time to sleep grows when the transfer is too fast and shrinks otherwise |
| `Transfer.SpeedLimiter.SetBandwidth` | OPSI/Util/Repository.py:383-387 | a negative limit counts as none, which keeps the limiter valid |
| `Transfer.Repository.Transfer` | OPSI/Util/Repository.py:481-547 | terminates for every reader and limiter, and writes exactly the first min(size, available) bytes |
| `Transfer.Repository.Download` | OPSI/Util/Repository.py:870-898 | a ranged download writes exactly the bytes of the range, as far as they exist |
| `Transfer.RangeBytes` | OPSI/Util/Repository.py:870-898 | a range holds exactly the bytes from its first to its last number, as far as there are any |
| `Transfer.PartsMakeWhole` | OPSI/Util/Repository.py:1406-1427 | the parts up to k - 1 and from k on concatenate to the whole file exactly if k > 0 or the file is empty: an end of -1 stands for the whole file |
| `Transfer.ResumeMakesWhole` | OPSI/Util/Repository.py:1402-1410 | a correct beginning followed by the rest is the remote file, and only the rest is fetched |
| `DirectoryPlan.FetchedIsUpToDate` | OPSI/Util/Repository.py:1377-1453 | with a correct listing a file ends up with the listed size and checksum whatever was there before, and at most its size is fetched |
| `DirectoryPlan.ResumesCorrectBeginning` | OPSI/Util/Repository.py:1400-1432 | a correct beginning is completed to the remote content by fetching the missing bytes only |
| `DirectorySync.Synchronizer.Complete` | OPSI/Util/Repository.py:1400-1434 | completing a file that is too short: first its end, then, if the checksum differs, its beginning too; says whether that did |
| `DirectorySync.Synchronizer.Obtain` | OPSI/Util/Repository.py:1396-1453 | a missing or outdated file is obtained, both partial files are gone, nothing else changes, and an error comes exactly if the checksum still differs or a partial file cannot be removed, being a directory |
| `DirectorySync.Synchronizer.RemovePart` | OPSI/Util/Repository.py:1436-1438 | removes a partial file unless it is a directory, which stays |
| `DirectorySync.Synchronizer.SyncFile` | OPSI/Util/Repository.py:1377-1453 | what bringing one file up to date does to the whole local directory, what it fetches, and when it fails: with a wrong checksum, or because a directory bears the name of a partial file, and then nothing but the file and the other partial file has been touched |
| `DirectorySync.Synchronizer.Cleanup` | OPSI/Util/Repository.py:1345-1358 | exactly the names that are not listed are removed, files and whole directories |
| `DirectorySync.Synchronizer.MakeDirectory` | OPSI/Util/Repository.py:1340-1343 | a missing directory is made, and a file in its place replaced |
| `DirectorySync.Synchronizer.SynchronizeEntry` | OPSI/Util/Repository.py:1361-1453 | one item of the depot: skipped, entered as a directory, or brought up to date as a file; result and directory are those of the run on values |
| `DirectorySync.Synchronizer.SynchronizeDirectories` | OPSI/Util/Repository.py:1334-1453 | result and local directory are those of the run on values, from any local tree and against any depot consistent with its listing; without clashing names everything below is then as listed, extra entries are gone, type clashes are repaired, all outside is untouched; where it was as listed before, nothing is touched and nothing fetched |
| `DirectorySync.Synchronizer.Synchronize` | OPSI/Util/Repository.py:1483-1544 | a whole product: the listing is fetched and the directory mirrored; a second run fetches the listing only; after a failed run the listing file is gone |
| `DirectoryPlan.MirroredExactly` | OPSI/Util/Repository.py:1334-1453 | without links, a mirrored product directory holds exactly the listed paths and the listing itself, each file with the listed size and checksum |
| `DirectoryPlan.MirroredIsInSync` | OPSI/Util/Repository.py:1334-1453 | what one run leaves is what the next run finds as listed |
| `DirectoryPlan.CleanupDone` | OPSI/Util/Repository.py:1345-1358 | what the cleanup leaves of every path below |
| `DirectoryPlan.FileDone` | OPSI/Util/Repository.py:1377-1453 | bringing a file up to date settles it and disturbs no other child |
| `DirectoryPlan.DirectoryDone` | OPSI/Util/Repository.py:1370-1371 | a recursive call settles the child and disturbs no other |
| `DirectoryPlan.AllChildrenDone` | OPSI/Util/Repository.py:1361-1371 | once all items the depot shows are through, everything listed below is settled |
| `DirectoryPlan.MirroredEqualsDepot` | OPSI/Util/Repository.py:1334-1453 | if no two contents share a checksum, every listed file then equals the one in the depot |
| `DirectoryRun.RunConfined` | OPSI/Util/Repository.py:1334-1453 | a successful run leaves a directory and changes nothing outside it, whatever the listing |
| `DirectoryRun.RunMirrors` | OPSI/Util/Repository.py:1334-1453 | for a listing without clashing names a run succeeds from every local tree, in every order in which the depot shows its items, and leaves everything as listed |
| `DirectoryRun.RunInSync` | OPSI/Util/Repository.py:1345-1391 | where everything is as listed, a run changes nothing, whatever the listing |
| `DirectoryRun.NoClashExactly` | OPSI/Util/Repository.py:1334-1453 | runs mirror the depot from every local tree and in every order exactly for the listings in which no file to be fetched has a listed neighbour that bears its name with the suffix of a partial file |
| `DirectoryRun.ClashIsNotMirrored` | OPSI/Util/Repository.py:1396-1438 | with such a neighbour there is a local tree, and an order, from which a run fails or ends otherwise than listed |
| `DirectoryRun.RunLoses` | OPSI/Util/Repository.py:1396-1438 | a run that starts without a file, and is shown the neighbour first, ends without the neighbour unless it fails |
| `DirectoryRun.NeighboursKept` | OPSI/Util/Repository.py:1396-1453 | bringing a file up to date succeeds and leaves everything beside it alone exactly when it was up to date, or its checksum comes out right and nothing bears its name with the suffix of a partial file |
| `DirectoryRun.StepsAreSafeExactly` | OPSI/Util/Repository.py:1396-1453 | the steps all succeed, and keep all that is as listed, in every cleaned up directory, exactly for the listings without clashing names |
| `DirectoryRun.LosesPart` | OPSI/Util/Repository.py:1436-1438 | a directory in the place of a partial file stops the step with an error and stays; a file there is removed |
| `HostPolling.HostControl.constructor` | OPSI/Backend/HostControl.py:151-152 | at least one connection is allowed |
| `HostPolling.HostControl.Elapse` | OPSI/Backend/HostControl.py:258-299 | between any two steps of the loop, where threads may end and time goes by, runningThreads is the number of started threads not collected yet, and at most maxConnections |
| `HostPolling.HostControl.PollThread` | OPSI/Backend/HostControl.py:262-295 | one look at a thread collects it, starts it if a connection is free, gives it up once its time is over, or leaves it, keeping the books right |
| `HostPolling.HostControl.PollAll` | OPSI/Backend/HostControl.py:260-296 | after a pass some threads are through, or more of them run, or one was still within its time when the pass began: what termination rests on |
| `HostPolling.HostControl.Poll` | OPSI/Backend/HostControl.py:258-299 | the loop ends for every interleaving, and then every thread has one entry: what it found if it ended, or the time-out entry if it had its full time |
| `HostPolling.HostControl.Leaves` | OPSI/Backend/HostControl.py:262-270 | a thread that leaves had no entry before, and the books stay right |
| `HostPolling.HostControl.CallHosts` | OPSI/Backend/HostControl.py:224-299 | every host ends up with exactly one entry: the error of its address, what its own thread found, or, if this thread was started in the call and had its full time, the time-out entry |
| `HostPolling.OpsiclientdRpc` | OPSI/Backend/HostControl.py:212-299 | an error exactly if no ids are given; else the reply of each host found is the value it returned; or, with no value, the error of its address, the message of its exception, or the time-out if the call lasted long enough; a non-empty message never comes back without an error |
| `HostPolling.Reachable` | OPSI/Backend/HostControl.py:417-467 | a host is reported reachable only if its own thread found so, and unreachable only if it has no address, was found not to be, or the call lasted for the full time |
| `HostPolling.FailureTakenForAnswer` | OPSI/Backend/HostControl.py:262-270 | an entry without error comes exactly from a host whose own outcome is an answer or an exception with an empty message; such an exception is entered like the answer null |
| `GroupSorting.SortGroups` | OPSI/Backend/Replicator.py:286-310 | terminates, and returns exactly the groups whose parents lead to a group without parent, each once, every parent before its children |
| `GroupSorting.Pass` | OPSI/Backend/Replicator.py:291-302 | one pass moves groups over as soon as their parent is there; if it moves none, none could be moved |
| `GroupSorting.LeftOutExactly` | OPSI/Backend/Replicator.py:303-310 | the groups left out are exactly those whose ancestors lead to a missing group or into a cycle |
| `PingChecksum.Checksum` | OPSI/Util/Ping.py:96-120 | an even number of bytes yields the swapped complement of the folded little-endian sum; an odd number ends in an index error |
| `PingChecksum.FoldAndSwap` | OPSI/Util/Ping.py:112-120 | the shifts and masks compute fold, complement and byte swap |
| `PingChecksum.ByteOrderIndependence` | OPSI/Util/Ping.py:96-120 | that is the big-endian Internet checksum of sections 1 and 2 of RFC 1071, while the sum stays within 32 bits |
| `PingChecksum.SafeLengths` | OPSI/Util/Ping.py:96-120 | it is for all contents exactly up to 131074 bytes; above, the 32-bit mask loses a carry for some content |
| `PingChecksum.PacketChecksIn` | OPSI/Util/Ping.py:164-176 | a packet that carries its checksum, high byte first, in the field that was zero, has checksum 0 |
| `Escaping.RoundTrip` | OPSI/Backend/File.py:302-312 | unescaping undoes escaping exactly for the strings without a backslash directly before an n |
| `Escaping.RoundTripValue` | OPSI/Backend/File.py:302-312 | what comes back for any string: its backslash-n pairs have become newlines, and nothing else has changed |
| `EscapedText.EscapeConcat` | OPSI/Backend/File.py:302-306 | values are escaped piece by piece |
| `EscapedText.EscapeOne` | OPSI/Backend/File.py:302-306 | what becomes of a newline, a semicolon, a hash, a percent sign, and any other character |
| `EscapedText.EscapedIsSafe` | OPSI/Backend/File.py:302-306 | an escaped value holds no newline, and no semicolon or hash without a backslash before it; their numbers stay, and percent signs are doubled |
| `EscapedText.UnescapePair` | OPSI/Backend/File.py:308-312 | what each of the four pairs becomes in a value without other pairs |
| `EscapedText.UnescapeNone` | OPSI/Backend/File.py:308-312 | a value without any of the pairs is read as it stands |
| `EscapedText.UnescapeConcat` | OPSI/Backend/File.py:308-312 | behind a character that begins no pair, values are unescaped piece by piece |
| `Escaping.BackslashNIsLost` | OPSI/Backend/File.py:302-312 | the smallest value that comes back changed |
| `Escaping.ContractUndoes` | OPSI/Backend/File.py:302-312 | each of the replacements of semicolon, hash and percent is undone by its counterpart, whatever stands in front of the character |
| `Escaping.Commute` | OPSI/Backend/File.py:302-312 | contracting backslash pairs does not interfere with the other replacements |

## Left out

- `generateProductOnClientSequenceX` (`OPSI/SharedAlgorithm.py:539-562`): calls `.values()` on lists.
- Algorithm 1 with priorities that are missing or out of range: the level lists then raise a KeyError.
- Product lists with duplicate ids.
- Requirement lists some of whose requirements are marked as fulfilled before an OrderBuild is made; `Requirements` itself is modelled with any flags.
- The branch for `newEntry == -1` and the field `errorFound` of OrderBuild: nothing reaches or reads them.
- The two loops that sort available products and dependencies by product id (`OPSI/SharedAlgorithm.py:177-183`): these tables are given.
- Dependencies that name the action none, or neither an action nor one of the two statuses.
- The product type of an added entry, and what `setActionRequest` checks: opsicommon is not part of this model.
- ActionRequests.KeepsAction: the two conditions differ for a dependency on the status not_installed of a product without an entry that is on the depot in another version, and may get an entry in the course of the call.
- Transfer.SpeedLimiter.Limit: states bounds on the buffer size, not its exact value; the measured speed and the dynamic limit are arbitrary numbers, floats are reals, and sleeping has no effect.
- Readers and writers that raise errors in the middle of a transfer, progress subjects, and the HTTP, WebDAV and CIFS repositories.
- The symlink step after the mirroring (`OPSI/Util/Repository.py:1505-1539`), and with it the recording of link targets; listed links are passed over, and what is at their place is left alone.
- Local symlinks, file modes and file systems that change during a run; `synchronize` over several products, and the reading of a listing from its text.
- DirectorySync.Synchronizer.SynchronizeDirectories: states the result for a depot that has what the listing says; what a wrong listing leads to is stated for one file only, by Synchronizer.SyncFile. Of a failed run it states the error, not what has been done to the local directory until then.
- Checksums are an arbitrary function: contents with the listed size and checksum count as equal, and nothing is assumed about collisions.
- HostPolling.HostControl.Poll: starting a thread sets its start time, which in the code the thread itself does a moment later; the clock never goes backwards; terminating a thread has no further effect.
- HostPolling.OpsiclientdRpc: the number of seconds in the text of the time-out error, ports, credentials and the call itself are not modelled; a value returned is an arbitrary token.
- Wake-on-LAN, sockets, and killing of threads in `OPSI/Backend/HostControl.py`.
- The dead branch of `checksum` for odd lengths (`OPSI/Util/Ping.py:108-110`).
- Everything else in the backends, the system layer, services and user interface: input, output and foreign engines.
- Logging, `__str__`, getters and the wording of error messages.
