# Build-order service — Dafny model

The service accepts Maven-style project descriptors (`pom.xml`), keeps a map
from each submitted project's identifier to the identifiers of its
dependencies, and on request computes a build order for the submitted
projects, or reports `Error: Found circular dependency`.

This project models the three pieces of the service that hold logic:

- **Identity builder** (`identity.dfy`, module `Identity`): `buildGav` /
  `buildIdFromDepNode`. It scans the child nodes of a descriptor element and
  inserts the text of `groupId`, `artifactId` and `version` elements at list
  positions 0, 1 and 2 with `ArrayList.add(index, value)`. It stops after
  three values and joins them with `|`. The insert at index 1 or 2 throws
  `IndexOutOfBoundsException` when the list is shorter than the index. No
  catch block of `post` handles that exception. The model keeps it as the
  outcome `IndexOutOfBounds(index, size)`. `BuildGav` is the loop, and
  `Collect` / `GavOf` is the specification it is proved against.
- **Upsert** (`controller.dfy`, `GraphStore.Post`): the map-writing part of
  `post`. A non-empty project id gets a fresh list. Then each non-empty
  dependency id is appended, in document order. `PostEffect` is the
  specification. A dependency whose identity builder throws ends the request
  with `Crashed`. The entry keeps the ids appended before that point,
  exactly as the Java code leaves it.
- **Build order** (`controller.dfy`, `GraphStore.FindBuildOrder`, with
  `graph.dfy`, module `DependencyGraph`): the restriction pass, then the
  round loop. Each round appends the keys whose list is empty, removes the
  ordered keys, and removes the ordered ids from the remaining lists. A round
  that orders nothing while keys remain clears the map and fails. The map is
  empty afterwards whatever the outcome. `HashMap` iteration order is
  modelled as an arbitrary choice of the next key (`var k :| k in toVisit`).
  So the proofs hold for every iteration order.

The main results: `FindBuildOrder` returns `CycleError` exactly when the
graph it started from has a cycle among its keys. `HasCycle` is a closed
walk along dependency edges, a self-dependency included. Otherwise it
returns an `IsBuildOrder`: every key exactly once, nothing else, and every
dependency that is a key placed before its dependent.

Two behaviours of the code that the model keeps as written:
- A descriptor with only an `artifactId` does not get the artifact value as
  its id. The code inserts at index 1 into an empty list and throws.
- The map entry holds only the non-empty dependency ids.

Node names are compared with Java `==` in the source. The model treats that
as string equality, which is what the DOM's interned names give.

## Model

| member | source | states |
|---|---|---|
| `Identity.InsertAt` | src/main/java/com/BuildOrderController.java:183-187 | `ArrayList.add(index, x)` within range: length grows by one, `x` sits at `index`, the entries before stay and the entries after shift by one |
| `Identity.Position` | src/main/java/com/BuildOrderController.java:182-187 | only `groupId`, `artifactId` and `version` have an insert position, and every position is below 3 |
| `Identity.Collect` | src/main/java/com/BuildOrderController.java:177-192 | the scan keeps at most three values, never shrinks the collected list, keeps values non-empty, and fails only by an insert at index 1 or 2 into a list shorter than that index |
| `Identity.BuildGav` | src/main/java/com/BuildOrderController.java:172-199 | the loop returns exactly `GavOf(children)`: the `|`-join of the collected values, `""` when none, or the out-of-range insert that throws |
| `Identity.GavOf` | src/main/java/com/BuildOrderController.java:194-198 | the reference result of the builder; a throw is always an insert at index 1 or 2 into a shorter list (its values are pinned by the lemmas below) |
| `Identity.SkipIgnored` | complete/src/main/java/hello/BuildOrderController.java:113-125 | non-element children, empty-text elements and unrecognised names do not change the scan |
| `Identity.StopsAfterThree` | complete/src/main/java/hello/BuildOrderController.java:113 | once three values are collected, no later child is looked at |
| `Identity.AtMostThreeValues` | complete/src/main/java/hello/BuildOrderController.java:113 | a scan that ends normally holds at most three values |
| `Identity.GroupArtifactVersion` | complete/src/main/java/hello/BuildOrderController.java:113-131 | children groupId=g, artifactId=a, version=v in that order, with anything unrecognised between them, give `"g|a|v"` |
| `Identity.ScanGroupArtifactVersion` | complete/src/main/java/hello/BuildOrderController.java:113-124 | for that child list the scan ends holding exactly [g, a, v], each value in its slot |
| `Identity.GroupArtifact` | src/main/java/com/BuildOrderController.java:172-198 | groupId=g then artifactId=a, without a version, give `"g|a"` |
| `Identity.RepeatedGroupIdGoesFirst` | complete/src/main/java/hello/BuildOrderController.java:118-119 | a second groupId is inserted at index 0 again, so the id is `"g2|g1"` |
| `Identity.ArtifactIdFirstThrows` | complete/src/main/java/hello/BuildOrderController.java:120-121 | an artifactId met before any value is an insert at 1 into an empty list: the builder throws instead of skipping it |
| `Identity.VersionBeforeTwoValuesThrows` | complete/src/main/java/hello/BuildOrderController.java:122-123 | a version met with zero or one value collected throws (index 2, size 0 or 1) |
| `Identity.RecognizedChildCollects` | complete/src/main/java/hello/BuildOrderController.java:113-128 | if some child is a recognised element with non-empty text, the scan throws or collects at least one value |
| `Identity.EmptyIdIffNothingRecognized` | complete/src/main/java/hello/BuildOrderController.java:130-134 | the builder returns `""` if and only if no child is a recognised element with non-empty text |
| `Text.JoinEmptyIff` | src/main/java/com/BuildOrderController.java:194-198 | joining non-empty values gives `""` exactly when there are no values |
| `Text.Join` | src/main/java/com/BuildOrderController.java:195 | joining no values gives `""`; otherwise the result starts with the first value |
| `DependencyGraph.Keep` | src/main/java/com/BuildOrderController.java:57-59 | the stream filter keeps exactly the ids that are keys |
| `DependencyGraph.KeepMultiplicity` | src/main/java/com/BuildOrderController.java:57-59 | every kept id keeps its number of occurrences; every other id has none |
| `DependencyGraph.KeepConcat` | src/main/java/com/BuildOrderController.java:57-59 | the filter works element by element, so kept ids keep their relative order |
| `DependencyGraph.Restrict` | src/main/java/com/BuildOrderController.java:55-62 | the restriction pass keeps the key set and leaves in each list exactly the ids of the original list that are keys |
| `DependencyGraph.Drop` | src/main/java/com/BuildOrderController.java:82 | `removeAll` leaves exactly the ids not in the removed list |
| `DependencyGraph.DropMultiplicity` | src/main/java/com/BuildOrderController.java:82 | `removeAll` removes every occurrence of a removed id; other ids keep their number of occurrences |
| `DependencyGraph.DropConcat` | src/main/java/com/BuildOrderController.java:82 | `removeAll` works element by element, so the remaining ids keep their relative order |
| `DependencyGraph.DropTwice` | src/main/java/com/BuildOrderController.java:80-84 | removing the whole order again each round is the same as removing it once |
| `DependencyGraph.SelfDependencyIsCycle` | src/main/java/com/BuildOrderController.java:86-90 | a project listing itself as a dependency is a cycle |
| `DependencyGraph.CycleIsClosed` | src/main/java/com/BuildOrderController.java:86-90 | the projects of a cycle form a non-empty set in which each member depends on a member |
| `DependencyGraph.ClosedContainsCycle` | src/main/java/com/BuildOrderController.java:86-90 | such a closed set always contains a cycle, so a stalled round means a cycle |
| `DependencyGraph.ClosedSetNotInPrefix` | src/main/java/com/BuildOrderController.java:44-45 | no member of a closed set can appear in a build order |
| `DependencyGraph.BuildOrderIsAcyclic` | src/main/java/com/BuildOrderController.java:44-45 | a graph that has a build order has no cycle |
| `BuildOrderController.Render` | src/main/java/com/BuildOrderController.java:95-99 | an error renders as `Error: Found circular dependency`; an order renders as a bracketed list |
| `BuildOrderController.RenderedOrderIsNotError` | src/main/java/com/BuildOrderController.java:95-99 | a rendered order is never the error message |
| `BuildOrderController.RenderShowsIds` | src/main/java/com/BuildOrderController.java:99 | `List.toString` writes the ids between brackets, separated by `", "`: `[]`, `[B]`, `[B, A, C]` |
| `BuildOrderController.NonEmptyIds` | src/main/java/com/BuildOrderController.java:140-143 | the appended ids are exactly the non-empty dependency ids |
| `BuildOrderController.NonEmptyIdsConcat` | src/main/java/com/BuildOrderController.java:138-144 | the filter works id by id, so the kept ids stay in document order |
| `BuildOrderController.NonEmptyIdsMultiplicity` | src/main/java/com/BuildOrderController.java:140-141 | every non-empty id keeps its number of occurrences; `""` has none |
| `BuildOrderController.Upserted` | src/main/java/com/BuildOrderController.java:133-141 | the project's entry becomes the non-empty dependency ids; every other entry is unchanged; the key set gains only the project |
| `BuildOrderController.DependencyIds` | src/main/java/com/BuildOrderController.java:138-144 | the loop collects at most one id per node; it ends normally exactly when every node built; a crash is an insert at index 1 or 2 into a shorter list |
| `BuildOrderController.DependencyIdsMeaning` | src/main/java/com/BuildOrderController.java:138-144 | collected id `i` is the identifier of node `i`, and a crash is the exception of the node right after the last one collected |
| `BuildOrderController.NonEmptyIdsKeepsAll` | src/main/java/com/BuildOrderController.java:138-144 | when no dependency id is empty, the entry is the dependency ids in document order |
| `BuildOrderController.AllDependenciesBuild` | src/main/java/com/BuildOrderController.java:138-144 | when every dependency node builds, the loop collects exactly their ids in document order and ends normally |
| `BuildOrderController.DependencyThrows` | src/main/java/com/BuildOrderController.java:138-144 | when node `n` is the first to throw, the ids of the nodes before it are collected and the request crashes with that exception |
| `BuildOrderController.PostReplacesEntry` | src/main/java/com/BuildOrderController.java:127-145 | a non-empty project id whose dependencies build gets exactly the non-empty dependency ids in order; every other entry is unchanged |
| `BuildOrderController.UpsertOverwrites` | complete/src/main/java/hello/BuildOrderController.java:71-85 | a later upsert of the same id replaces the earlier list; nothing is merged |
| `BuildOrderController.PostTwiceIsPostOnce` | src/main/java/com/BuildOrderController.java:102-145 | posting the same pom twice gives the same map and outcome as posting it once |
| `BuildOrderController.PostWithoutProjectIdChangesNothing` | complete/src/main/java/hello/BuildOrderController.java:65-69 | no `project` element, or an empty project id, leaves the map unchanged |
| `BuildOrderController.PostEffect` | src/main/java/com/BuildOrderController.java:121-145 | the reference effect of `post`: no key is ever removed, only the posted project's own entry can change, and a crash comes from the identity builder |
| `BuildOrderController.GraphStore.constructor` | src/main/java/com/BuildOrderController.java:40 | the map starts empty |
| `BuildOrderController.GraphStore.Post` | src/main/java/com/BuildOrderController.java:121-145 | the new map and the outcome are exactly `PostEffect` of the old map |
| `BuildOrderController.GraphStore.AppendDependencies` | src/main/java/com/BuildOrderController.java:138-144 | the loop appends exactly the non-empty ids `DependencyIds` collects to the project's entry, touches no other entry, and ends as `DependencyIds` says |
| `BuildOrderController.GraphStore.RestrictToProjects` | src/main/java/com/BuildOrderController.java:55-62 | the map becomes `Restrict` of the old map |
| `BuildOrderController.GraphStore.AppendReady` | src/main/java/com/BuildOrderController.java:66-73 | the earlier order is kept; the appended entries are duplicate-free and are exactly the keys whose list is empty |
| `BuildOrderController.GraphStore.RemoveOrdered` | src/main/java/com/BuildOrderController.java:76-78 | the ordered keys leave the map; the other entries are untouched |
| `BuildOrderController.GraphStore.RemoveFromLists` | src/main/java/com/BuildOrderController.java:80-84 | same keys; each list loses every ordered id |
| `BuildOrderController.GraphStore.FindBuildOrder` | src/main/java/com/BuildOrderController.java:48-100 | the map ends empty; the result is an error exactly when the starting graph has a cycle, and otherwise a build order of it |
| `BuildOrderController.NothingOrderedNothingRemoved` | src/main/java/com/BuildOrderController.java:73-78 | a round that orders nothing leaves the map as it was |
| `BuildOrderController.RoundStep` | src/main/java/com/BuildOrderController.java:65-84 | a round that orders something keeps the loop's state: remaining keys, trimmed lists, a duplicate-free order with dependencies first |
| `BuildOrderController.NewEntriesKeepOrder` | src/main/java/com/BuildOrderController.java:67-72 | keys appended in a round are new and come after all their dependencies |
| `BuildOrderController.StalledIsClosed` | src/main/java/com/BuildOrderController.java:86-91 | when a round stalls, the remaining keys form a closed set of the starting graph |
| `BuildOrderController.FinishedIsBuildOrder` | src/main/java/com/BuildOrderController.java:65-93 | once the map is empty without a stall, the order is a build order of the starting graph |
| `BuildOrderController.ChainHasOneBuildOrder` | src/main/java/com/BuildOrderController.java:48-100 | for A→B, C→A and C→X with X not a project, the only build order is B, A, C |
| `BuildOrderController.ChainBuildOrder` | src/main/java/com/BuildOrderController.java:44-45 | B, A, C is a build order of that graph |
| `BuildOrderController.MutualDependencyIsCycle` | src/main/java/com/BuildOrderController.java:86-90 | A→B with B→A is a cycle |

## Left out

- XML parsing and DOM navigation are not modelled: `DocumentBuilderFactory`, `parse`, `getElementsByTagName` and `item(0)`. `Post` takes the children of the first `project` element (`None` when there is none) and the child lists of the children of the first `dependencies` element (empty when there is none). A parser failure never reaches the map, so it is not modelled.
- The HTTP layer is not modelled: request mappings, `ResponseEntity` and the status codes of the catch blocks. `Crashed` stands for the uncaught `IndexOutOfBoundsException`. The model does not say what status the framework answers with.
- `System.out.println` logging, including the overwrite notice, is not modelled.
- The greeting endpoint and its `AtomicLong` counter are not modelled, and neither is `complete/src/main/java/hello/XMLHandler.java`, which only prints.
- The MockMvc tests are not modelled. They assert nothing about ordering.
- Concurrency is not modelled. The `HashMap` is shared between requests without synchronisation; the model is sequential.
- The exact `HashMap` iteration order is not modelled. Every key choice is arbitrary, so the proved properties hold for any order. As a consequence, the model does not say which of several valid orders is returned.
- Java `==` on node names is reference equality. The model uses string equality, as the DOM interns node names.
- The `complete/` controller's `post` writes the same kind of map (`deps`) in the same way. The one `GraphStore.Post` stands for both. That controller catches only parser and I/O exceptions, exactly like the `src/` one.
