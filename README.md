# Section editing of a subway line

This project models the section service of a subway-map application. A line
is stored as a set of directed, weighted sections `(up station, down station,
distance)`. The service edits that chain in two ways.

- **Adding a section.** A request must touch the line. A request matching
  both a section's up end and a section's down end is refused. A request
  sharing an up station splits that section at its up end. A request sharing
  a down station splits that section at its down end. Any other request with
  exactly one end on the line is appended at the terminal it touches. An
  accepted request is always saved.
- **Deleting a station.** Only a station on the line can be deleted, and the
  line must keep at least one section. A terminal station loses its one
  section. An interior station's two sections are merged into one.

The data-access layer is the class `SectionDao.SectionStore`. It stands for
the repository's `SectionDao` and holds one line's sections as a map from
generated ids to sections, plus the next id to generate. Each call the
service makes on it is a method whose `ensures` states the new map. The
`Sections` helper class is represented by functions over the map (module
`Sections`), defined from how the service uses them; its Java body is not
part of this model:

- "on the line" means the station is an end of some section;
- a terminal has exactly one incident section;
- the minimum size is one section;
- the sorted station list (`Chain.SortedStationIds`) walks from the station
  that no section ends at.

The invariant of a well-formed line is `Chain.IsChain`. It says some ordering
of the section ids lays the sections end to end, as a path through distinct
stations. `Paths` proves the edits on sequences of sections. `Edits` lifts
them to the map. `SectionService` has the service class, whose methods are
proved against the ghost specification functions `ForkLine`,
`AddSectionResult`, `MergeResult` and `DeleteStationResult`. Lemmas beside
those functions relate them to the chain: the station list, the section
count and the total distance (`Sections.TotalDistance`). `Scenarios` replays
the acceptance tests' examples on these functions. `Findings` holds the
operand-order issue in the back split.

Exceptions become values: `Outcome` is `Done`, `Rejected(UserError)` (an
`IllegalArgumentException` or `NoSuchSectionException`), or
`Failed(MissingNeighbourSection)` (the `IllegalStateException` of the merge).

## Model

| member | source | states |
|---|---|---|
| SectionDao.SectionStore.constructor | src/test/java/wooteco/subway/acceptance/LineAcceptanceTest.java:278-283 | a line created with one section holds exactly that section, under id 0 |
| SectionDao.SectionStore.FindAll | src/main/java/wooteco/subway/service/SectionService.java:77 | returns every section of the line |
| SectionDao.SectionStore.FindByUpStation | src/main/java/wooteco/subway/service/SectionService.java:37 | empty exactly when no section starts at the station; otherwise a section that starts there |
| SectionDao.SectionStore.FindByDownStation | src/main/java/wooteco/subway/service/SectionService.java:38-39 | empty exactly when no section ends at the station; otherwise a section that ends there |
| SectionDao.SectionStore.Update | src/main/java/wooteco/subway/service/SectionService.java:107-111 | overwrites the section under the id if there is one, leaving every other section; ids keep their bound |
| SectionDao.SectionStore.Save | src/main/java/wooteco/subway/service/SectionService.java:28 | stores the section under a fresh generated id, changing nothing else |
| SectionDao.SectionStore.DeleteById | src/main/java/wooteco/subway/service/SectionService.java:112 | removes exactly that id |
| SectionDao.SectionStore.DeleteByStation | src/main/java/wooteco/subway/service/SectionService.java:81 | removes exactly the sections the station is an end of |
| Sections.WithoutStation | src/main/java/wooteco/subway/service/SectionService.java:81 | the ids left are those not incident to the station, each with its section unchanged |
| Sections.UpMatchUnique | src/main/java/wooteco/subway/service/SectionService.java:37 | with unique roles, the section found by its up station is the only one |
| Sections.DownMatchUnique | src/main/java/wooteco/subway/service/SectionService.java:38-39 | with unique roles, the section found by its down station is the only one |
| Sections.MergeCounts | src/main/java/wooteco/subway/service/SectionService.java:107-112 | overwriting one section and deleting another drops the count by one and changes the total by the lengths replaced |
| Sections.HasStationIncident | src/main/java/wooteco/subway/service/SectionService.java:33 | `HasStation` (on the line) holds exactly when some section is incident to the station |
| Sections.SingleSection | src/main/java/wooteco/subway/service/SectionService.java:91 | `IsMinimumSize` holds exactly when the store is a single section |
| Chain.SortedStationIds | src/main/java/wooteco/subway/service/SectionService.java:88 | the sorted list names only stations on the line and starts at a station that begins a section and ends none; it is empty exactly when no such station exists; on a chain it is the chain's order (`Chain.SortedStationsAlong`) |
| Chain.ChainRoles | src/main/java/wooteco/subway/service/SectionService.java:37-39 | on a chain no two sections share an up station or a down station, so the single-result lookups are well defined |
| Chain.ChainSize | src/main/java/wooteco/subway/service/SectionService.java:91 | a chain has at least one section and one more station than sections |
| Chain.SortedStationsAlong | src/main/java/wooteco/subway/service/SectionService.java:88 | the walk from the up terminal lists the chain's stations in order |
| Edits.SortedContains | src/main/java/wooteco/subway/service/SectionService.java:88 | on a chain a station is in the sorted list exactly when it is on the line |
| Edits.SizeOnChain | src/main/java/wooteco/subway/service/SectionService.java:91 | on a chain `IsEmpty` never holds, and `IsMinimumSize` holds exactly when the sorted list has two stations |
| Edits.TerminalEnds | src/main/java/wooteco/subway/service/SectionService.java:80 | on a chain `IsTerminal` holds exactly for the first and the last station of the sorted list |
| Edits.FrontSplitLine | src/main/java/wooteco/subway/service/SectionService.java:45-55 | shortening the section at the request's up station and saving the request keeps a chain, inserts the new station after the up station, and adds one section |
| Edits.BackSplitLine | src/main/java/wooteco/subway/service/SectionService.java:57-67 | shortening the section at the request's down station and saving the request keeps a chain, inserts the new station before the down station, and adds one section |
| Edits.ExtendLine | src/main/java/wooteco/subway/service/SectionService.java:28 | a request matching no role, with one end on the line, extends the line at that terminal |
| Edits.DropTerminalLine | src/main/java/wooteco/subway/service/SectionService.java:80-83 | deleting a terminal's one section keeps a chain and removes that station from the list |
| Edits.MergeLine | src/main/java/wooteco/subway/service/SectionService.java:96-113 | merging the two sections at an interior station keeps a chain and removes that station from the list |
| Edits.InteriorRoles | src/main/java/wooteco/subway/service/SectionService.java:97-102 | an interior station of a chain has a section into it and a different one out of it |
| SectionService.FrontRemainder | src/main/java/wooteco/subway/service/SectionService.java:47 | the up-end remainder is positive exactly when the request is shorter than the section it splits |
| SectionService.BackRemainder | src/main/java/wooteco/subway/service/SectionService.java:59 | the down-end remainder, with the operands as written, is positive exactly when the request is longer than the section it splits |
| SectionService.ValidateDistance | src/main/java/wooteco/subway/service/SectionService.java:70-74 | refuses exactly a remainder of zero or less, with the distance error |
| SectionService.ValidateDeleteStation | src/main/java/wooteco/subway/service/SectionService.java:87-94 | refuses a station not on the line, then a line of at most one section, and passes exactly otherwise; it tests membership where line 88 tests the sorted list, and the two agree on a chain (`SectionService.ValidateDeleteStationSpec`) |
| SectionService.ValidateDeleteStationSpec | src/main/java/wooteco/subway/service/SectionService.java:87-94 | on a chain the validation refuses a station not in the sorted list, then a one-section line, and passes exactly otherwise |
| SectionService.ForkLine | src/main/java/wooteco/subway/service/SectionService.java:36-68 | either done or one of the two fork rejections; a rejection changes nothing; no id is added or removed; only a section sharing the request's up or down station can change |
| SectionService.AddSectionResult | src/main/java/wooteco/subway/service/SectionService.java:20-68 | only done or rejected; a rejection changes nothing; each of the three rejections happens exactly in its case |
| SectionService.AddSectionFront | src/main/java/wooteco/subway/service/SectionService.java:45-55 | the up-end split leaves the shortened section and the request; one more section; total distance unchanged |
| SectionService.AddSectionBack | src/main/java/wooteco/subway/service/SectionService.java:57-67 | the down-end split, as written, leaves the shortened section and the request; one more section; total grows by twice the remainder |
| SectionService.DeleteBetween | src/main/java/wooteco/subway/service/SectionService.java:76-113 | deleting a station that exactly two sections touch, one into it and one out of it, merges them under the incoming section's id |
| SectionService.FrontSplitRoundTrip | src/main/java/wooteco/subway/service/SectionService.java:20-113 | an up-end split followed by deleting the new station restores the split section, under the request's id |
| SectionService.UndoFrontSplit | src/main/java/wooteco/subway/service/SectionService.java:96-113 | the deletion that undoes an up-end split of a given section gives back that section |
| SectionService.AddSectionAppend | src/main/java/wooteco/subway/service/SectionService.java:28 | with no role matched, only the request is added; total grows by its length |
| SectionService.AddSectionKeepsChain | src/main/java/wooteco/subway/service/SectionService.java:20-68 | with exactly one end on the line an accepted request keeps a chain, and the new station lands where the split or extension puts it |
| SectionService.AddSectionKeepsPositive | src/main/java/wooteco/subway/service/SectionService.java:70-74 | a positive request keeps every section positive, because a split remainder must be positive |
| SectionService.MergeResult | src/main/java/wooteco/subway/service/SectionService.java:96-113 | fails exactly when a neighbour section is missing, changing nothing; otherwise exactly the outgoing section's id disappears |
| SectionService.DeleteStationResult | src/main/java/wooteco/subway/service/SectionService.java:76-94 | a refusal changes nothing; refused for a station not on the line, and for the last section exactly when the station is on the line; a deletion only ever removes ids |
| SectionService.DeleteStationErrors | src/main/java/wooteco/subway/service/SectionService.java:76-102 | on a chain: refused exactly for a station not on the sorted list and for a one-section line; otherwise done, never reaching the missing-neighbour fault; a refusal changes nothing |
| SectionService.DeleteStationKeepsChain | src/main/java/wooteco/subway/service/SectionService.java:76-113 | a successful deletion keeps a chain, removes the station from the sorted list and drops one section |
| SectionService.DeleteStationTerminal | src/main/java/wooteco/subway/service/SectionService.java:80-83 | a terminal loses exactly its one section and the total drops by its length |
| SectionService.DeleteStationInterior | src/main/java/wooteco/subway/service/SectionService.java:104-112 | an interior station's incoming section is stretched over the outgoing one, which is deleted; total distance unchanged |
| SectionService.DeleteStationKeepsPositive | src/main/java/wooteco/subway/service/SectionService.java:96-113 | a deletion keeps every section positive |
| SectionService.SectionService.constructor | src/main/java/wooteco/subway/service/SectionService.java:16-18 | the service works on the store it is given |
| SectionService.SectionService.CheckHasStation | src/main/java/wooteco/subway/service/SectionService.java:31-34 | reports an error exactly when neither end of the request is on the line |
| SectionService.SectionService.UpdateIfForkLine | src/main/java/wooteco/subway/service/SectionService.java:36-68 | the outcome and new store follow the fork case table; no id is generated |
| SectionService.SectionService.AddSection | src/main/java/wooteco/subway/service/SectionService.java:20-29 | on any store with unique roles, the outcome and new store are those of AddSectionResult; on a chain, a request with exactly one end on the line keeps the line a chain |
| SectionService.SectionService.DeleteStation | src/main/java/wooteco/subway/service/SectionService.java:76-85 | the outcome and new store are those of DeleteStationResult, and the line stays a chain |
| SectionService.SectionService.DeleteStationWhenForkSection | src/main/java/wooteco/subway/service/SectionService.java:96-113 | the outcome and new store are those of MergeResult: a fault when a neighbour is missing, otherwise the merge |
| Scenarios.OneSectionLine | src/test/java/wooteco/subway/acceptance/LineAcceptanceTest.java:278-283 | the one-section line is a chain listing its two stations |
| Scenarios.TwoSectionLine | src/test/java/wooteco/subway/acceptance/LineAcceptanceTest.java:949-954 | the two-section line is a chain listing its three stations, with the summed length |
| Scenarios.OneSectionRoles | src/test/java/wooteco/subway/acceptance/LineAcceptanceTest.java:278-283 | which stations start and end a section of a one-section line |
| Scenarios.TwoSectionRoles | src/test/java/wooteco/subway/acceptance/LineAcceptanceTest.java:949-954 | which stations start and end a section of a two-section line |
| Scenarios.AppendInFront | src/test/java/wooteco/subway/acceptance/LineAcceptanceTest.java:285-314 | (3,1,10) on 1→2 gives [3,1,2] |
| Scenarios.AppendBehind | src/test/java/wooteco/subway/acceptance/LineAcceptanceTest.java:328-357 | (2,3,10) on 1→2 gives [1,2,3] |
| Scenarios.SplitAtUpEnd | src/test/java/wooteco/subway/acceptance/LineAcceptanceTest.java:371-400 | (1,3,5) on 1→2 of 10 leaves 3→2 of 5 and saves 1→3 of 5 |
| Scenarios.SplitLine | src/test/java/wooteco/subway/acceptance/LineAcceptanceTest.java:393-398 | the split line lists its stations in order whatever order its ids run in |
| Scenarios.SplitAtUpEndOrder | src/test/java/wooteco/subway/acceptance/LineAcceptanceTest.java:393-398 | the line after that split runs [1,3,2] |
| Scenarios.SplitTooLong | src/test/java/wooteco/subway/acceptance/LineAcceptanceTest.java:414-434 | (1,3,10) on 1→2 of 10 is refused and nothing changes |
| Scenarios.BothEndsRegistered | src/test/java/wooteco/subway/acceptance/LineAcceptanceTest.java:448-468 | (1,2,3) on 1→2 is refused and nothing changes |
| Scenarios.Disconnected | src/test/java/wooteco/subway/acceptance/LineAcceptanceTest.java:482-502 | (3,3,3) on 1→2 is refused and nothing changes |
| Scenarios.DeleteDownTerminalOf | src/test/java/wooteco/subway/acceptance/LineAcceptanceTest.java:955-980 | deleting the down terminal of a→b→c leaves a→b |
| Scenarios.DeleteDownTerminal | src/test/java/wooteco/subway/acceptance/LineAcceptanceTest.java:955-980 | deleting 3 from 1→2→3 leaves [1,2] |
| Scenarios.DeleteInteriorOf | src/test/java/wooteco/subway/acceptance/LineAcceptanceTest.java:993-1018 | deleting b from a→b→c leaves the one section a→c of the summed length |
| Scenarios.DeleteInterior | src/test/java/wooteco/subway/acceptance/LineAcceptanceTest.java:993-1018 | deleting 2 from 1→2→3 leaves [1,3], one section of length 20 |
| Scenarios.DeleteLastSection | src/test/java/wooteco/subway/acceptance/LineAcceptanceTest.java:1031-1048 | deleting 2 from 1→2 is refused and nothing changes |
| Scenarios.DeleteUnknownStation | src/main/java/wooteco/subway/service/SectionService.java:88-90 | deleting a station not on the line is refused and nothing changes |
| Scenarios.ReversedSectionAccepted | src/main/java/wooteco/subway/service/SectionService.java:41-43 | (2,1) on 1→2 has both ends on the line but matches neither role, so it is saved |
| Scenarios.ReversedSectionClosesCycle | src/main/java/wooteco/subway/service/SectionService.java:28 | the line that results is a cycle: it has no sorted station list and is no chain |
| Scenarios.ReversedSectionForks | src/main/java/wooteco/subway/service/SectionService.java:41-55 | (2,1,5) on 1→2→3 is accepted and leaves two sections starting at 1, so the roles are no longer unique |
| Scenarios.SelfLoopAccepted | src/main/java/wooteco/subway/service/SectionService.java:20-55 | (1,1,3) on 1→2 is accepted, saving a section from 1 to itself, and the roles are no longer unique |
| Findings.BackSplitAsWrittenLengthens | src/main/java/wooteco/subway/service/SectionService.java:57-67 | as written, a back split is accepted exactly for a request longer than the section it splits, and then lengthens the line |
| Findings.BackSplitCounterexample | src/main/java/wooteco/subway/service/SectionService.java:59 | on 1→2 of 10, (3,2,4) is refused, and (3,2,12) is accepted, giving a line of length 14 |
| Findings.BackSplitRoundTripAsWritten | src/main/java/wooteco/subway/service/SectionService.java:57-67 | as written, deleting the new station after a down-end split gives the split section back longer than it was |
| Findings.BackSplitRoundTripCounterexample | src/main/java/wooteco/subway/service/SectionService.java:59 | on 1→2 of 10, adding (3,2,12) and deleting 3 again leaves 1→2 of 14 |
| Findings.UndoBackSplit | src/main/java/wooteco/subway/service/SectionService.java:96-113 | deleting the new station after a down-end split merges the two sections back under the split section's id, with the summed length |
| Findings.IntendedBackSplitRoundTrip | src/main/java/wooteco/subway/service/SectionService.java:57-67 | with existing minus request, deleting the new station after the split restores the line exactly |
| Findings.IntendedBackSplitLine | src/main/java/wooteco/subway/service/SectionService.java:57-67 | with existing minus request, the split is accepted exactly for a shorter request, keeps a chain and keeps the total distance |
| Findings.IntendedBackSplitExample | src/main/java/wooteco/subway/service/SectionService.java:57-67 | the corrected split of 1→2 of 10 by (3,2,4) leaves 1→3 of 6 and 3→2 of 4 |

## Left out

- Only one line is modelled. `lineId` is dropped, because every data-access call the service makes is scoped to a single line.
- The Java bodies of `SectionDao` (its SQL) and of the `Sections` class are not modelled. `SectionDao.SectionStore` and the functions of module `Sections` stand for them. The store's ids come from a counter that stands in for the database's generated keys.
- Java `int` wrap-around is not modelled: distances are mathematical integers. The model agrees with the source only while every distance, remainder (SectionService.java:47, :59) and merged length (:111) lies in the `int` range -2^31 to 2^31-1. In Java, :111 wraps once the two lengths sum past 2^31-1. Lines :47 and :59 wrap for an extreme request distance, which is never checked.
- Exception types and messages become `Outcome` values; the message texts are left out.
- Transactions and concurrent edits are out of scope. Each service call is one sequential step on the store.
- `LineService`, `LineController`, `StationDao` and `StationJdbcDao` are not modelled. They hold persistence and HTTP plumbing, plus line-level checks outside the section chain.
- SectionService.SectionService.CheckHasStation: modelled only as refusing a request neither of whose ends is on the line. The `Sections` class's own check is not part of this model.
- SectionService.SectionService.AddSection: states chain preservation only for a chain and a request with exactly one end on the line. Roles, not membership, are compared, so a request with both ends on the line is saved whenever it does not match both roles:
  - it can close a cycle (`Scenarios.ReversedSectionClosesCycle`);
  - it can fork the line, so that one station starts two sections (`Scenarios.ReversedSectionForks`);
  - a request with equal ends is saved as a section from a station to itself (`Scenarios.SelfLoopAccepted`).

  After a fork or a self-loop the roles are no longer unique. Every service method requires unique roles, which its single-result lookups need, so the model describes no later call on such a store.
- SectionService.SectionService.DeleteStation: requires the line to be a chain. Its validation is modelled by membership, which agrees with the sorted-list test of SectionService.java:88 only on a chain (`SectionService.ValidateDeleteStationSpec`); the `Sections` class's ordering of other stores is not part of this model.
- SectionService.AddSectionKeepsPositive: requires a positive request distance. `SectionService.addSection` (SectionService.java:20-29) never checks the request's own distance.
- Chain.SortedStationIds: the walk is claimed to match the station list only on a chain. On other stores it may differ from the `Sections` class's own ordering.

## Findings

| source | as written | input that shows it | evidently intended | confidence | as-written member | corrected member |
|---|---|---|---|---|---|---|
| src/main/java/wooteco/subway/service/SectionService.java:59 | the back split's remainder is `request − existing` | on 1→2 of 10, (3,2,4) is refused; (3,2,12) is accepted and the line grows from 10 to 14; deleting 3 again leaves 1→2 of 14 | `existing − request`, the length from the existing up station to the new station, as in the front split at line 47 | not executed | Findings.BackSplitAsWrittenLengthens, Findings.BackSplitCounterexample, Findings.BackSplitRoundTripAsWritten, Findings.BackSplitRoundTripCounterexample | Findings.IntendedBackSplitLine, Findings.IntendedBackSplitRoundTrip |

The service model (`SectionService.ForkLine`, `SectionService.SectionService.UpdateIfForkLine`) keeps the remainder as the code computes it, so that it agrees with the code. The corrected split is defined separately as `Findings.IntendedBackSplit`, and its properties are proved there.
