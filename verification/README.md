# Verified model of Dialectic's core

Dialectic is a shared workspace for rooms of people and a language model. This project models the parts of its back
end whose guarantees span many calls, and proves those guarantees for every input, run or reachable state.

- `BoxMerge`, `RayCast`, `RoomFences`: which patch of the world a room watches. Touching boxes are merged to a
  fixpoint, which is the least cover by boxes that do not touch; the even-odd point test; and the fact that a cheap
  fence never misses a point that the exact test admits.
- `ExternalOperations`, `TradeSystem`, `TradeRelay`: leased operations with attempt numbers around two idempotent writes
  to a trading desk. The relay is a transition system of accepts, a network and a desk, and the imperative accept is
  shown to be a run of it.
- `Lineage`, `GeoLineage`: append-only scopes. Legal histories, the single live scope, the two recursive queries.
- `FieldMarks`, `FieldDoor`, `FieldReview`: append-only marks. Derived review states, the capped room projection, the
  order of its page, and what locked reviews keep.
- `Ancestry`, `MessageCursor`, `CursorTexts`, `MessagePages`: what a branch of a conversation inherits, opaque cursors
  with the texts inside them, and walking pages back to the first message and on to the last.
- `JpegHeader`: the walk over marker segments against a printer of headers, in both directions.
- `RateLimit`: pruned and evicted buckets against a log that forgets nothing.
- `KnowledgeGraph`: a search that marks nodes while it scans, against distance along edges.
- `FireCells`: fire pixels folded into cells and days.
- `WorldSignals`, `SignalAdapters`: the store of provider snapshots, and how adapters fill it.
- `Rounds`: sealed forecasts, as a statement about two databases.

`Common` holds `Option` and `Result`. `dafny verify dfyconfig.toml` checks the whole project.

Code that changes rows or fields in place is a class or a method with loops, proved against a function of its inputs or
old state; the theorems about runs are stated on those functions. A SQL statement is the relational expression it
denotes (filter, order, limit, unique index, recursive closure), and a transaction under its row locks is one step.
Clock readings, drawn identifiers and network outcomes are parameters.

A function that methods are specified with is also pinned from outside: lemmas named `...InFields`, `...InNumbers`,
`...InFull` and the like say what it means on the fields, numbers and places of its input and result.

## Where the code and its documentation disagree

- `world_signals.py:178-182` says that `resolve` is keyed by room. It looks up the first signal with the identifier and
  compares rooms afterwards, so a second room that holds the same contact sees it and cannot resolve it
  (`WorldSignals.ResolvesExactly`, `SharedContactIsWrongRoom`). Stores filled from distinct sources are not affected;
  the adapters for earthquakes and launches take that from their feeds, and fires from days that stay apart as
  identifiers (`SignalAdapters.FeedsAreDistinct`, `FireCells.SourcesDifferExactly`).
- `api/rounds.py` promises that binned questions are never scored, and that the numbers of a round are sealed until both
  have forecast. Binning does not look at the verdict (`Rounds.BinnedIsUnscoredExactly`), and the scores of a settled
  question are shown to everyone: its numbers stay sealed exactly if it has no scored verdict or no day that can be
  scored (`Rounds.SealHoldsExactly`, `ScoresUnseal`).
- `get_thread_messages` and the ancestry query of the message page are two readings of what a thread inherits. They
  differ exactly by the messages in a gap between two forks (let through by the fork of their thread's own child, and
  cut off by a fork further down) and by those from beyond the 50th ancestor, where the query stops
  (`Ancestry.SameReadingsExactly`, `TwoForksCanDisagree`, `DeepThreadsDisagree`).
- `field_marks.py:652-656` puts a replacement in its ancestor's position. A lineage does stand together there, but
  inside it the page goes by the marks' own stamps, and nothing orders those: a mark stands before what replaced it
  exactly if its stamp and id come first (`FieldReview.LineageOrderExactly`, `SkewedCorrection`).
- `field_marks.py:640-646` says that the guard of a write and the projection can never disagree. They agree on a mark
  in every capped window exactly if what decides its state is stamped strictly after it
  (`FieldReview.ProjectionAgreesExactly`, `EqualStampsDisagree`).
- `get_connected_memories` promises memories connected by references. Neither definition of the view holds an edge
  between two memories, so the graph expansion finds only its seed (`KnowledgeGraph.ViewConnectsNothing`).
- `has_more_before` and `has_more_after` say what lies on each side of a page. An empty page answers false to both
  although messages may lie on the other side of its cursor, as after the newest message
  (`MessagePages.FlagsRightExactly`, `AfterTheNewest`).
- The rate limiter evicts after an hour whatever the window, so windows over 3600 seconds are not honoured
  (`RateLimit.AgreesExactlyUpToAnHour`).

## Model

| member | source | states |
|---|---|---|
| `BoxMerge.MergeBoxes` | dialectic/world_adapters.py:129-147 | the sweep ends, and its result is the least cover of the inputs by boxes that do not touch: it covers every input, each box is the hull of the inputs inside it, and every rival non-touching cover covers it |
| `BoxMerge.MergePass` | dialectic/world_adapters.py:133-146 | one sweep keeps that progress and returns a strictly shorter list whenever it merged anything; unchanged, the list no longer touches |
| `BoxMerge.Place` | dialectic/world_adapters.py:137-145 | a box joins the first box it touches or is appended, and the progress is kept either way |
| `BoxMerge.TouchingShareAHost` | dialectic/world_adapters.py:138-142 | two touching boxes inside a non-touching cover lie inside the same box of it |
| `BoxMerge.MergeKeepsGrown` | dialectic/world_adapters.py:140-142 | replacing two touching boxes by their hull keeps the list below every rival cover |
| `BoxMerge.Confluence` | dialectic/world_adapters.py:129-147 | the merged boxes are the same multiset for every order of the same upright inputs |
| `BoxMerge.MergedInCoordinates` | dialectic/world_adapters.py:129-147 | merged boxes are strictly apart, hold every input and lie inside any other boxes that do both, in coordinates |
| `BoxMerge.MergedSides` | dialectic/world_adapters.py:129-147 | each side of a merged box is a side of an input that lies inside it |
| `RayCast.ValidateGeometry` | dialectic/geo_scopes.py:187-229 | a JSON value is accepted exactly if it writes a geometry of the kind's type with positions in range, closed rings and at most 2000 vertices, and that geometry comes back, positions cut to two numbers |
| `RayCast.ReadRings` | dialectic/geo_scopes.py:214-228 | a list is accepted exactly if it writes closed rings that hold at most 2000 positions together |
| `RayCast.WritesOne` | dialectic/geo_scopes.py:187-229 | one JSON value writes at most one geometry, so what is accepted is determined |
| `RayCast.PointInRing` | dialectic/geo_scopes.py:253-274 | the toggling loop answers whether the number of crossed edges is odd |
| `RayCast.PointInPolygon` | dialectic/geo_scopes.py:277-282 | inside the outer ring and inside no hole |
| `RayCast.PointInGeometry` | dialectic/geo_scopes.py:285-311 | inside some polygon of the geometry; points and lines hold nothing |
| `RayCast.AcceptedInNumbers` | dialectic/geo_scopes.py:187-229 | what is accepted: positions on the map, closed rings of four or more, 2 to 2000 positions, the right type for the kind |
| `RayCast.HolesAreCutOut` | dialectic/geo_scopes.py:277-282 | of an upright box with any upright holes, exactly the points of the box in no hole are inside |
| `RayCast.SeveralAreJoined` | dialectic/geo_scopes.py:285-311 | of several upright boxes, exactly the points of any of them are inside |
| `RayCast.StraddlingParity` | dialectic/geo_scopes.py:262-273 | a closed walk crosses a horizontal line an even number of times, vertex by vertex |
| `RayCast.CrossingIsBetween` | dialectic/geo_scopes.py:266-271 | the intersection of a straddling edge lies between the edge's ends |
| `RayCast.CrossesByCrossProduct` | dialectic/geo_scopes.py:266-271 | an edge is crossed exactly if it straddles the point's latitude and the point is west of it by the cross product |
| `RayCast.InRingInBox` | dialectic/geo_scopes.py:253-274 | a point the even-odd test accepts lies in the half-open bounding box of the ring, whatever the ring |
| `RayCast.InGeometryInBox` | dialectic/geo_scopes.py:285-311 | the same for a whole geometry and all of its positions |
| `RayCast.RectangleExact` | dialectic/geo_scopes.py:253-274 | on an upright rectangle, either way round, the test is the half-open box exactly |
| `RayCast.TriangleExact` | dialectic/geo_scopes.py:253-274 | on every triangle, either way round, a point off the edges is inside exactly if it lies on the same side of all three |
| `RoomFences.BoxesPerRoom` | dialectic/world_adapters.py:160-180 | the table of boxes by room holds for each room just the padded, clamped boxes of its rows, and the rooms are listed once |
| `RoomFences.RoomFences` | dialectic/world_adapters.py:150-188 | for every room the fences are the least non-touching cover of the boxes it asks for; the caller gets the first MAX_ROOMS fences |
| `RoomFences.FenceNeverMisses` | dialectic/world_adapters.py:125-126 | a point inside a scope the write door accepted lies in some fence of that scope's own room, before the cut |
| `RoomFences.PaddedBoxIsTight` | dialectic/world_adapters.py:160-178 | each side of a padded box is a degree and a half from a position, or the edge of the map, and at least that far from all |
| `RoomFences.FencesHugTheScopes` | dialectic/world_adapters.py:150-188 | each side of a fence is a degree and a half beyond a position of the room's own scopes, or the edge of the map |
| `RoomFences.FencesIgnoreRowOrder` | dialectic/world_adapters.py:150-188 | a room's fences do not depend on the order in which the scopes come back |
| `ExternalOperations.OperationTable.ClaimOperation` | dialectic/api/external_operations.py:77-166 | the claim leaves the table and answers as the claim function says: insert, replay, busy, reclaim, or refuse other coordinates |
| `ExternalOperations.OperationTable.SucceedOperation` | dialectic/api/external_operations.py:169-194 | records the result and the stamp exactly for the holder of the current pending attempt, and nothing otherwise |
| `ExternalOperations.OperationTable.FailOperation` | dialectic/api/external_operations.py:197-213 | releases exactly the current pending attempt, and nothing otherwise |
| `ExternalOperations.ClaimInFields` | dialectic/api/external_operations.py:77-166 | each answer of a claim, with its condition on room, kind, key, slot, status and lease, and the row it leaves, in fields |
| `ExternalOperations.FinishInFields` | dialectic/api/external_operations.py:169-213 | what a success and a failure leave of every row and of the stamps, in fields |
| `ExternalOperations.RunKeepsInv` | dialectic/api/external_operations.py:77-213 | in every reachable table ids, keys and slots are unique, stamps belong to succeeded operations, and grants of one operation carry growing attempts whose leases do not overlap |
| `ExternalOperations.RunContinues` | dialectic/api/external_operations.py:77-213 | coordinates never change, attempts never fall, and a success with its result is never taken back, along any run |
| `ExternalOperations.OnlyTheCurrentHolderFinishes` | dialectic/api/external_operations.py:176-213 | a row leaves pending only by the newest grant of that row |
| `ExternalOperations.StaleCallsChangeNothing` | dialectic/api/external_operations.py:169-213 | a worker whose attempt was taken over, or whose operation is settled, changes nothing by succeeding or failing |
| `ExternalOperations.NoSecondClaimUnderALease` | dialectic/api/external_operations.py:140-166 | while a pending lease runs, a claim by the same key or slot leaves the row alone and is told that it is busy |
| `ExternalOperations.LeasesDoNotOverlap` | dialectic/api/external_operations.py:77-166 | consecutive grants of one operation are a full lease apart unless the earlier holder gave its attempt up |
| `ExternalOperations.StampNamesTheFirstClaimant` | dialectic/api/external_operations.py:188-194 | the acceptance stamp is there exactly when the operation has succeeded, and names whoever claimed it first |
| `TradeRelay.TradingDesk.Store` | dialectic/api/trading_relay.py:490-498 | the desk stores a post unless its source key is taken and replays the stored row |
| `TradeRelay.PostToDesk` | dialectic/api/trading_relay.py:552-595 | one post, whatever the network does to it, is a run of the transition system |
| `TradeRelay.WriteTrade` | dialectic/api/trading_relay.py:545-595 | the two writes in order: the accept ends with the desk's pair, or is left to release its attempt |
| `TradeRelay.ClaimTrade` | dialectic/api/trading_relay.py:500-543 | reading the proposal and claiming its operation is a run of the transition system |
| `TradeRelay.AcceptTrade` | dialectic/api/trading_relay.py:483-619 | a whole accept is a run of the transition system that ends with the result it returns or with a failure exit; from a safe state the result is the proposed trade and forecast field by field; a message without a legal proposal changes nothing |
| `TradeRelay.AcceptProposal` | dialectic/api/trading_relay.py:522-619 | the part of it after the proposal has been read |
| `TradeSystem.PlayKeepsSafe` | dialectic/api/trading_relay.py:522-619 | every interleaving of accepts, crashes, lost answers, expired leases and stale workers reaches only safe states |
| `TradeRelay.EveryAcceptReturnsTheSame` | dialectic/api/trading_relay.py:522-619 | all accepts of one proposal that return a result return the same one |
| `TradeRelay.OneFillOnePrediction` | dialectic/api/trading_relay.py:522-619 | the desk holds at most one fill for a proposal, the fill is the proposed trade, and it names the one prediction exactly if there is a forecast |
| `TradeRelay.DeskHoldsTheTrade` | dialectic/api/trading_relay.py:545-583 | every stored fill carries the proposal's own book, symbol, side and dollars, its rationale, labelled as unscored exactly without a forecast, and its key; every stored prediction the same book and the forecast |
| `TradeRelay.ReturnedIsThePair` | dialectic/api/trading_relay.py:612-619 | whatever an accept has returned is such a fill and prediction, and the fill names the prediction |
| `TradeRelay.AcceptedBeforeIsNotPosted` | dialectic/api/trading_relay.py:539-543 | nothing is ever posted for a proposal that was marked as accepted beforehand |
| `TradeRelay.StampNamesAnAccepter` | dialectic/api/external_operations.py:188-194 | the acceptance stamp of a proposal names a user who began to accept that proposal |
| `TradeRelay.OnePrediction` | dialectic/api/trading_relay.py:545-575 | at every moment, between the two writes too, the desk holds at most one prediction for a proposal, and it is the proposed forecast |
| `TradeRelay.ReturnedIsRecorded` | dialectic/api/trading_relay.py:612-619 | what an accept returned is the result its operation was settled with, and the proposal is stamped |
| `TradeRelay.RetryCompletes` | dialectic/api/trading_relay.py:490-498 | from every reachable state, one more accept that starts under no running lease and hears from the desk returns a result |
| `TradeSystem.KeysTellMessagesApart` | dialectic/api/trading_relay.py:522-583 | the operation key and both source keys determine the message |
| `Lineage.TipIsUnique` | dialectic/geo_scopes.py:446-463 | with one successor per row a lineage has a single tip, and every row of it is on the tip's path |
| `Lineage.ClimbFindsRoot` | dialectic/geo_scopes.py:503-518 | the ancestors query meets no cycle and finds the root of the lineage and nothing else |
| `Lineage.DescentFindsTip` | dialectic/geo_scopes.py:520-536 | the lineage query meets no cycle and lists the successors down to the tip, level by level |
| `Lineage.ReviewFindsLineage` | dialectic/geo_scopes.py:591-612 | the review of any row succeeds and returns the root, the tip and the path between them |
| `Lineage.OneWholePath` | dialectic/geo_scopes.py:591-612 | all rows of a lineage have the same root-to-tip path |
| `GeoLineage.GeoScopes.InsertScope` | dialectic/geo_scopes.py:648-702 | appends the row exactly if its confirmer, subject entity, acquisition and geometry pass the checks of the one insert path, and changes nothing otherwise |
| `GeoLineage.GeoScopes.Open` | dialectic/api/geo.py:318-374 | a placed or proposed scope is appended as the first row of a lineage, unless its subject is not of the room or the insert refuses it |
| `GeoLineage.GeoScopes.PlaceWorldSignal` | dialectic/api/geo.py:376-440 | a signal placed again returns the row that is there; otherwise one row is appended |
| `GeoLineage.GeoScopes.Review` | dialectic/api/geo.py:442-524 | a review appends the one successor its action makes, or reports the first failed check and changes nothing |
| `GeoLineage.AcceptedExactly` | dialectic/api/geo.py:455-483 | a review is accepted exactly when its target is of the room, has no successor, does not expire or expires later than now, was not reported empty, and the action continues a legal word |
| `GeoLineage.LiveInFields` | dialectic/geo_scopes.py:446-463 | when a scope stands, in fields, and that a review is refused as not live exactly if it does not |
| `GeoLineage.LapsingIsOneWay` | dialectic/geo_scopes.py:446-463 | a scope that is live by some clock is live by every earlier one |
| `GeoLineage.ExpiredRefusesEverything` | dialectic/api/geo.py:458-459 | from the instant of its expiry on, a scope refuses every review as not live |
| `GeoLineage.ReviewInFields` | dialectic/api/geo.py:485-506 | the row that an accepted review appends, field by field |
| `GeoLineage.InsertedExactly` | dialectic/geo_scopes.py:664-681 | the insert path accepts exactly a confirmer that fits the authority, a known entity, a known acquisition, proposals by the participant only, and a well-formed geometry |
| `GeoLineage.FirstRowsInFields` | dialectic/api/geo.py:318-440 | which rows open a lineage, and that a placed signal is not placed again |
| `GeoLineage.StateInFields` | dialectic/geo_scopes.py:371-378 | what a scope reads as, by its successor, action, source state and authority |
| `GeoLineage.LegalExtends` | dialectic/api/geo.py:460-481 | which action may follow a legal word is decided by its last letter and whether it is alone |
| `GeoLineage.RunKeepsInv` | dialectic/api/geo.py:442-524 | every table the doors can produce has one successor per row, legal words and rows that follow their predecessors |
| `GeoLineage.LineageIsLegal` | dialectic/api/geo.py:442-524 | the actions along every lineage spell a word of the language; room, subject, kind, provenance and source state are the root's |
| `GeoLineage.NeighboursDiffer` | dialectic/api/geo.py:485-502 | geometry and title change only at a redraw, and the expiry only at a confirmation |
| `GeoLineage.RejectionIsFinal` | dialectic/api/geo.py:455-481 | a rejected or withdrawn scope never gains a successor |
| `GeoLineage.OneLiveScope` | dialectic/geo_scopes.py:446-463 | a lineage has at most one live scope, whatever the clocks, and it is the tip |
| `GeoLineage.ReviewPageIsTheLineage` | dialectic/geo_scopes.py:591-612 | the review page cannot fail with a cycle error and is the same page from every row of a lineage |
| `FieldMarks.DeriveIgnoresOrder` | dialectic/field_marks.py:587-615 | the review state depends on which reviews there are, not on the order in which they are listed |
| `FieldMarks.LastReviewDecides` | dialectic/field_marks.py:587-615 | the review with the latest stamp, and of equal stamps the highest identifier, decides a mark's state unless the mark is replaced |
| `FieldMarks.UnreviewedState` | dialectic/field_marks.py:587-615 | without reviews a mark is provisional, or superseded if it is replaced |
| `FieldMarks.WindowAgrees` | dialectic/field_marks.py:105-113 | a mark in the capped window reads the same there and in the single-mark queries if what decides its state is stamped strictly after it |
| `FieldMarks.WindowsAgreeExactly` | dialectic/field_marks.py:105-113 | it reads the same in every window and under every cap exactly if a successor, or its last review if that retires it or there is no successor, is stamped strictly after it, or nothing was said of it |
| `FieldReview.EqualStampsDisagree` | dialectic/field_marks.py:102-113 | for every cap, a run of requests after which the cap cuts just the confirmation of a mark, so that it reads provisional in the window and confirmed by itself |
| `FieldMarks.RootAnchor` | dialectic/field_marks.py:652-664 | the walk with its seen set ends and returns the anchor |
| `FieldMarks.AnchorIsOldest` | dialectic/field_marks.py:652-664 | the anchor is reached along the pointers and points to nothing inside the window |
| `FieldMarks.GroupRows` | dialectic/field_marks.py:800-809 | the first pass indexes the rows, groups the reviews by target and collects the superseded marks |
| `FieldMarks.Build` | dialectic/field_marks.py:796-827 | one entry for each relation row of the window, its state derived inside the window, in key order |
| `FieldMarks.LineageIsOneBlock` | dialectic/field_marks.py:810-827 | the marks of one lineage stand together |
| `FieldMarks.AncestorsByStamp` | dialectic/field_marks.py:652-664 | wherever supersedes pointers do not come back, an ancestor and its descendant stand in the order of their own stamps and ids |
| `FieldMarks.AncestorsComeFirst` | dialectic/field_marks.py:810-827 | in a window in which every replacement is stamped after what it replaces, a mark stands before everything that replaced it |
| `FieldReview.LineageOrderExactly` | dialectic/field_marks.py:810-827 | for every selection of rows of a reachable table, whatever its stamps, a mark stands before one that replaced it exactly if it comes before it by stamp and id |
| `FieldReview.PageOrderInFields` | dialectic/field_marks.py:810-827 | the page of every selection of reachable rows goes by the anchors' stamps and identifiers, then by the marks' own |
| `FieldReview.SkewedCorrection` | dialectic/api/field.py:553 | a run in which a correction with a late clock is accepted and stands before the mark that it corrects |
| `FieldMarks.AppendingKeepsOrder` | dialectic/field_marks.py:810-827 | appended rows never swap two marks that were there, whatever the stamps |
| `FieldMarks.SameWalk` | dialectic/field_marks.py:652-664 | from a row that was there, the walk to the anchor takes the same steps after rows were appended |
| `FieldDoor.FieldTable.CreateFieldMark` | dialectic/api/field.py:331-440 | a new mark is appended unless its key is taken in the room; the mark that holds the key is handed back, and subjects from elsewhere change nothing |
| `FieldDoor.FieldTable.ReviewFieldMark` | dialectic/api/field.py:469-681 | a review appends all of its rows or none, and reports the first failed check, unresolved subjects included |
| `FieldDoor.FieldTable.InsertRows` | dialectic/api/field.py:622-664 | the inserts of one transaction land together or a violated unique index rolls all of them back |
| `FieldDoor.InsertableExactly` | dialectic/api/field.py:622-664 | rows can be inserted together exactly if no identifier, and no key within a room, occurs twice among them and the stored rows |
| `FieldDoor.SourcesInFields` | dialectic/api/field.py:494-496 | a merge is about the reviewed mark first and the others it names, each once; any other review about its mark alone |
| `FieldDoor.NewRowsInFields` | dialectic/api/field.py:622-664 | the rows that a review writes, field by field |
| `FieldDoor.RefusalsInFields` | dialectic/api/field.py:473-616 | which condition each refusal stands for, and what holds of an accepted review |
| `FieldDoor.CreateInFields` | dialectic/api/field.py:388-425 | the row that a created mark is, or the collision that leaves the table as it was |
| `FieldDoor.RunKeepsInv` | dialectic/api/field.py:331-681 | in every reachable table rows point back to earlier rows of their room, ids and keys are unique, and the successors of a mark have one cause |
| `FieldReview.SupersedesIsAForest` | dialectic/api/field.py:560-681 | a replacement names one mark of its room that was written before it |
| `FieldReview.ReplacementsComeFromOneReview` | dialectic/api/field.py:560-681 | all replacements of a mark were caused by one correction, split or merge of it |
| `FieldReview.ReplacedStaysSuperseded` | dialectic/field_marks.py:587-615 | a mark with a named successor reads superseded in every later state |
| `FieldReview.ReviewIsAccepted` | dialectic/api/field.py:580-597 | a confirmation or a contest of a superseded mark is accepted and appends that one review |
| `FieldReview.ReviewReopens` | dialectic/field_marks.py:587-615 | that review reopens the mark, as confirmed or as contested, exactly when it has no named successor and the review comes after all earlier ones |
| `FieldReview.MergeReplacesOnlyTheFirst` | dialectic/api/field.py:622-645 | a merge names a successor of its first source only |
| `FieldReview.MergeReviewsOnce` | dialectic/api/field.py:622-645 | a merge adds one review to those of each of its sources |
| `FieldReview.MergeRetires` | dialectic/field_marks.py:587-615 | after a merge its first source reads superseded, and a further source exactly when the review it got comes after all the reviews it had |
| `FieldReview.ProjectionAgreesExactly` | dialectic/field_marks.py:618-637 | in every reachable table the single-mark query and all capped projections that hold a mark agree on it exactly if what decides its state is stamped strictly after it |
| `FieldReview.ProjectionAgreesWithSingleMark` | dialectic/field_marks.py:618-637 | they agree on a mark whose own reviews and successors are stamped after it, whatever the other stamps |
| `FieldReview.ReviewsDoNotReshuffle` | dialectic/field_marks.py:796-827 | in a room of which the cap cuts nothing, no run of requests swaps two marks on the page, whatever the stamps |
| `Ancestry.RecursiveReading` | dialectic/operations.py:75-115 | the recursive reading returns a thread's own undeleted messages and what the parent reads up to the fork |
| `Ancestry.RecursiveReadingInOrder` | dialectic/operations.py:95-115 | in the result an ancestor's messages stand before those of every thread further down, the messages of one thread in ascending sequence, and none occurs twice |
| `Ancestry.RecursiveReadingInFields` | dialectic/operations.py:75-115 | a message is read exactly if it is undeleted, on the chain of parents, and no later than the fork of every thread below its own |
| `Ancestry.QueryReading` | dialectic/api/main.py:1045-1074 | the ancestry query selects, of the thread and its first 50 ancestors, the undeleted messages up to the fork of each one's own child |
| `Ancestry.QueryReadingInFields` | dialectic/api/main.py:1045-1074 | a message is selected exactly if it is undeleted, within 50 forks up the chain, and no later than the fork of the thread just below its own |
| `Ancestry.KeepsUpToEveryFork` | dialectic/operations.py:75-115 | of the k-th ancestor the recursive reading keeps the messages up to the least of the fork points below it |
| `Ancestry.RecursiveIsSubset` | dialectic/operations.py:75-115 | with at most 50 forks above the thread, whatever the recursive reading returns, the query selects |
| `Ancestry.SameReadingsExactly` | dialectic/api/main.py:1045-1074 | for every thread whose fork points exist, at any depth and deleted forks included, the two readings are equal as sets exactly when no undeleted message within 50 forks lies at or before the fork of its thread's own child and after a fork further down, and none from further up is before every fork below it |
| `Ancestry.ToldApart` | dialectic/api/main.py:1045-1074 | one message is selected but not read just in such a gap, and read but not selected just beyond the 50th ancestor |
| `Ancestry.SteadyReadsAlike` | dialectic/operations.py:75-115 | with at most 50 forks, where, going up, no fork comes later in its thread than the fork below it, the two readings are equal |
| `Ancestry.SteadyExactly` | dialectic/operations.py:75-115 | while no fork message of the chain has been deleted, the two readings are equal exactly when the forks are steady in that sense |
| `Ancestry.UnsteadyLoses` | dialectic/operations.py:75-115 | while no fork message of the chain has been deleted, unsteady forks make the query select a fork point that the recursion leaves out |
| `Ancestry.ShallowThreadsAgree` | dialectic/operations.py:75-115 | at fork depth 0 and 1 the two readings are equal |
| `Ancestry.TwoForksCanDisagree` | dialectic/transport/handlers.py:438-446 | a run with two forks, sequence numbers as the code assigns them, after which the two readings differ |
| `Ancestry.DeepThreadsDisagree` | dialectic/api/main.py:1058-1062 | for every n over 50, a run of n forks in a row after which the page of the last thread has lost the first message |
| `Ancestry.DeletedForkLosesNothing` | dialectic/transport/handlers.py:1281-1296 | the same run with that message deleted: the forks are as unsteady, and the two readings are equal |
| `Ancestry.ForkIsVisible` | dialectic/transport/handlers.py:1005-1015 | forking at a message the source reads keeps every fork point visible to its parent |
| `Ancestry.RunKeepsForks` | dialectic/operations.py:12-72 | after every list of new threads, messages, forks and deletions, every fork point exists: a deletion marks a message and leaves its row |
| `Ancestry.ReachableReadingsExactly` | dialectic/api/main.py:1045-1074 | in every room that such a list can produce, the two readings are equal exactly when there is no gap and nothing is inherited from beyond |
| `MessageCursor.BytesRoundTrip` | dialectic/api/main.py:587-602 | base64url without padding (sections 3.2 and 5 of RFC 4648) decodes what it encoded, for every byte string |
| `MessageCursor.AlphabetInFull` | dialectic/api/main.py:576-578 | the sixty-four characters in ASCII (table 2 of RFC 4648) |
| `MessageCursor.GroupKeepsTheNumber` | dialectic/api/main.py:587-602 | four digits carry the number of three bytes, high bits first (section 4 of RFC 4648) |
| `MessageCursor.CursorRoundTrip` | dialectic/api/main.py:581-613 | every coordinate survives the trip through its cursor |
| `MessageCursor.CursorInFull` | dialectic/api/main.py:585-593 | under a cursor stand the instant, a bar and the identifier, and nothing empty or longer than 200 characters is read |
| `MessageCursor.OnlyEncodedIsAccepted` | dialectic/api/main.py:590-613 | a text is accepted exactly if the encoder produces it (section 3.5 of RFC 4648), as the coordinate it was made from |
| `CursorTexts.UuidIsRead` | dialectic/api/main.py:586-607 | the canonical text of an identifier (section 3 of RFC 4122) is read back, has 36 bytes and no bar, for all 128-bit identifiers |
| `CursorTexts.DateOf` | dialectic/api/main.py:585 | every day number of the years 1 to 9999 has a date of the Gregorian calendar with that day number |
| `CursorTexts.CalendarAdvances` | dialectic/api/main.py:585 | the calendar starts on 1 January of year 1 and each day number has the date after the one before |
| `CursorTexts.InstantIsRead` | dialectic/api/main.py:585-604 | the ISO 8601 text of every instant of the calendar, with microseconds where there are any, is read back |
| `CursorTexts.InstantTextInFull` | dialectic/api/main.py:585 | an instant is printed as its date, T, its time, its fraction if any and +00:00 |
| `CursorTexts.CursorTextsAreLawful` | dialectic/api/main.py:585-607 | those printers and parsers have the properties that the cursor lemmas ask for |
| `CursorTexts.CursorsAreExact` | dialectic/api/main.py:581-613 | with them every coordinate survives its cursor, and exactly the encoder's texts are accepted |
| `MessagePages.SortedIsUnique` | dialectic/api/main.py:1076-1091 | an ascending listing of a set of coordinates is its sorted listing |
| `MessagePages.OlderThanPage` | dialectic/api/main.py:1192-1212 | what is older than a page's oldest message is what the page left out |
| `MessagePages.FlagsOfOlderPage` | dialectic/api/main.py:1192-1212 | on a page with messages, paging back, both flags say exactly what lies beyond |
| `MessagePages.FlagsOfNewerPage` | dialectic/api/main.py:1172-1191 | the same paging forward |
| `MessagePages.PagesHaveMessages` | dialectic/api/main.py:1172-1212 | the page on one side of a cursor has messages exactly if the ancestry has any there, for every page size |
| `MessagePages.PagesInTimeOrder` | dialectic/api/main.py:1076-1091 | every page goes by instants of creation, and by identifiers among messages of one instant |
| `MessagePages.OlderPageIsTheNewest` | dialectic/api/main.py:1076-1082 | a page before a cursor shows nothing created after it, and what it leaves out was created no later than anything it shows |
| `MessagePages.NewerPageIsTheOldest` | dialectic/api/main.py:1084-1091 | a page after a cursor shows nothing created before it, and what it leaves out was created no earlier than anything it shows |
| `MessagePages.FlagsRightExactly` | dialectic/api/main.py:1172-1212 | both flags of a page asked for by cursor are right exactly if the ancestry has a message beyond the cursor in that direction, or none at all |
| `MessagePages.AfterTheNewest` | dialectic/api/main.py:1172-1191 | asked for what follows the newest message of any thread that has one, the route answers an empty page that denies anything before it |
| `MessagePages.WalkBackIsComplete` | dialectic/api/main.py:1192-1212 | following the oldest cursor from anywhere ends, and the pages together are everything older, in order, without gap or repeat, for every page size |
| `MessagePages.WholeAncestryIsWalked` | dialectic/api/main.py:1076-1212 | from the newest page the walk yields the whole sorted ancestry |
| `MessagePages.WalkOnIsComplete` | dialectic/api/main.py:1172-1191 | following the newest cursor from anywhere ends, and the pages together are everything newer, in order, without gap or repeat, for every page size |
| `MessagePages.TwoWalksMeet` | dialectic/api/main.py:1076-1212 | from any message, the walk back, the message and the walk on are the whole sorted ancestry |
| `MessagePages.WalksInTimeOrder` | dialectic/api/main.py:1076-1212 | both walks go by instants and identifiers, and hold everything created before, or after, their cursor |
| `JpegHeader.JpegDimensions` | dialectic/api/attachments.py:179-203 | the loop stops on every input, reads inside the buffer and answers what the walk does |
| `JpegHeader.ItemIsSkipped` | dialectic/api/attachments.py:187-202 | stray bytes, filled standalone markers and legal segments are passed over whole |
| `JpegHeader.PrintedIsRead` | dialectic/api/attachments.py:179-203 | a printed header with any items before it is read back with its size (sections B.1.1 and B.2.2 of ITU-T T.81) |
| `JpegHeader.ReadWasPrinted` | dialectic/api/attachments.py:179-203 | every answer comes from bytes that print such a header |
| `JpegHeader.ReadsExactlyTheHeaders` | dialectic/api/attachments.py:179-203 | a size is answered exactly for the buffers that print a header of that size |
| `JpegHeader.WalkFromIsWalk` | dialectic/api/attachments.py:184-203 | walking by position and walking by what is ahead agree |
| `JpegHeader.CodesInFull` | dialectic/api/attachments.py:181-195 | the thirteen codes that start a frame and the ten that carry no length (table B.1 of ITU-T T.81) |
| `JpegHeader.FrameIsReadInNumbers` | dialectic/api/attachments.py:197-200 | at a frame the height is read from its sixth and seventh byte and the width from the next two, high byte first |
| `JpegHeader.SegmentIsPassedInNumbers` | dialectic/api/attachments.py:196-203 | a segment is passed over by its two-byte length, and a length below two ends the walk |
| `RateLimit.RateLimiter.EvictStale` | dialectic/api/rate_limit.py:21-23 | drops just the buckets that are empty or whose last stamp is an hour old |
| `RateLimit.RateLimiter.IsAllowed` | dialectic/api/rate_limit.py:17-31 | evicts, prunes, decides and records as the step function says |
| `RateLimit.SameDecisions` | dialectic/api/rate_limit.py:17-31 | with a monotone clock and a fixed window of at most an hour per key, every decision is that of a log that forgets nothing, whatever keys are mixed |
| `RateLimit.LimiterFollowsLog` | dialectic/api/rate_limit.py:17-31 | what is held for a key and what the log holds look the same to every window from now on |
| `RateLimit.NoWindowIsOverfull` | dialectic/api/rate_limit.py:25-31 | no half-open window of the key's length, wherever it ends, holds more accepted calls than the limit |
| `RateLimit.RefusedExactlyWhenFull` | dialectic/api/rate_limit.py:28-31 | a call is refused exactly when the window that ends with it holds as many accepted calls as the limit |
| `RateLimit.RefusedByTheCalls` | dialectic/api/rate_limit.py:25-31 | a call is refused exactly if as many earlier calls of its key as the limit were allowed within its window |
| `RateLimit.AgreesExactlyUpToAnHour` | dialectic/api/rate_limit.py:20-25 | a window agrees with the log on every run exactly if it is at most 3600 seconds |
| `RateLimit.LongWindowForgets` | dialectic/api/rate_limit.py:20-23 | for every longer window, a run whose second call is allowed though the window still holds the first |
| `KnowledgeGraph.Fetch` | dialectic/analytics/knowledge_graph.py:572-580 | the rows of a round are the edges with an end in the frontier and an end that is a memory, in any order |
| `KnowledgeGraph.Scan` | dialectic/analytics/knowledge_graph.py:581-588 | the scan marks just the ends its rows lead to from the frontier, although it looks at the set it adds to |
| `KnowledgeGraph.NeighbourEnd` | dialectic/analytics/knowledge_graph.py:583-587 | whichever end the scan takes for the neighbour, one row marks exactly what it leads to |
| `KnowledgeGraph.RoundExplores` | dialectic/analytics/knowledge_graph.py:569-588 | a round turns the memories within k steps into those within k + 1 |
| `KnowledgeGraph.ConnectedMemories` | dialectic/analytics/knowledge_graph.py:563-588 | the memories visited are exactly those joined to the seed by a walk of at most max_depth edges |
| `KnowledgeGraph.WithinInFields` | dialectic/analytics/knowledge_graph.py:572-587 | being within k steps is having a route of k edges, each followed in either direction to an end that it calls a memory |
| `KnowledgeGraph.ViewConnectsNothing` | dialectic/analytics/knowledge_graph.py:26-117 | along the edges that the materialized view can hold, the search finds nothing but its seed, at any depth |
| `FireCells.MergeFireCells` | dialectic/world_adapters.py:516-576 | one observation for each cell and day with a placed row, in first-met order, that summarizes its rows: count, strongest readings, first letter of the best rank, satellites, newest fix |
| `FireCells.CellReadsItsBest` | dialectic/world_adapters.py:512-513 | a cell reads high if any of its rows does, else nominal, else low, else unknown |
| `FireCells.ReadingsInFields` | dialectic/world_adapters.py:538-576 | its readings are the largest of its rows, a missing one counting as nothing, its satellites those of its rows, its fix the newest |
| `FireCells.GroupInFields` | dialectic/world_adapters.py:526-533 | its rows are those of that day and cell, in their order |
| `FireCells.PixelsAreConserved` | dialectic/world_adapters.py:516-576 | the pixel counts add up to the rows with valid coordinates |
| `FireCells.OrderDoesNotMatter` | dialectic/world_adapters.py:516-576 | the cells, their readings and their confidence words do not depend on the order of the rows |
| `FireCells.LetterIsFixedExactly` | dialectic/world_adapters.py:565-566 | the stored confidence letter is independent of the order exactly if some row is ranked or all letters are equal |
| `FireCells.KeyTextTells` | dialectic/world_adapters.py:533-534 | the key text tells days and cells apart, for every day |
| `FireCells.SourceTellsExactly` | dialectic/world_adapters.py:537 | two cells and days have one source identifier exactly if the cells are equal and the days are equal once commas and hyphens are swapped out |
| `FireCells.SourcesDifferExactly` | dialectic/world_adapters.py:516-576 | the observations of a feed have distinct sources exactly if no two of its days in one cell become equal by that swap |
| `FireCells.PlainDaysAreToldApart` | dialectic/world_adapters.py:537 | days without underscores and tildes never do |
| `WorldSignals.ParsesExactly` | dialectic/world_signals.py:71-77 | an identifier parses to a provider and source exactly if it is made of that legal pair |
| `WorldSignals.NamesInFull` | dialectic/world_signals.py:27-28 | the letters and lengths of providers and sources |
| `WorldSignals.SignalChecks` | dialectic/world_signals.py:58-125 | what a signal's checks ask of its identifier and clocks |
| `WorldSignals.SnapshotChecks` | dialectic/world_signals.py:140-190 | what a snapshot's checks ask of its rooms, clocks and signals |
| `WorldSignals.WorldSignalStore.Replace` | dialectic/world_signals.py:245-262 | the provider's snapshot is replaced exactly if every bound holds of the outcome; otherwise the store is unchanged |
| `WorldSignals.WorldSignalStore.Project` | dialectic/world_signals.py:268-313 | the signals and sources that a set of rooms sees at a time |
| `WorldSignals.WorldSignalStore.Resolve` | dialectic/world_signals.py:315-337 | the answer or the first error of resolving an identifier in a room |
| `WorldSignals.PutGet` | dialectic/world_signals.py:253-262 | replacing changes that provider's snapshot and no other |
| `WorldSignals.PutKeepsPlaces` | dialectic/world_signals.py:253-262 | every other provider stays where it was |
| `WorldSignals.ResolvesExactly` | dialectic/world_signals.py:315-337 | an identifier resolves in a room exactly if the room sees it and was the first to hold it; seen but held by another room first, the answer is wrong room |
| `WorldSignals.SeenInFields` | dialectic/world_signals.py:268-313 | rooms see a signal exactly if it is for one of them, its snapshot is meant for one, and both are current |
| `WorldSignals.SeeingIsOneWay` | dialectic/world_signals.py:268-313 | what is seen at some time was seen, from the same store, at every earlier one |
| `WorldSignals.SourcesInFields` | dialectic/world_signals.py:276-305 | a listed source names just the eligible rooms of its snapshot and is marked as over exactly if the snapshot is |
| `WorldSignals.SourcesAreComplete` | dialectic/world_signals.py:276-305 | every provider with a snapshot for some eligible room is listed |
| `WorldSignals.ResolutionInFields` | dialectic/world_signals.py:315-337 | what each answer of a resolution says of the store |
| `WorldSignals.SeenIsResolved` | dialectic/world_signals.py:268-337 | where identifiers occur once in a snapshot, a room resolves just what it sees |
| `WorldSignals.SharedContactIsWrongRoom` | dialectic/world_signals.py:178-186 | a valid snapshot with one contact in two rooms: the second room sees it and cannot resolve it |
| `WorldSignals.CountsAddUp` | dialectic/world_signals.py:268-313 | the sources' counts add up to the signals shown |
| `SignalAdapters.NewerIsTransitive` | dialectic/world_adapters.py:216-233 | being newer is transitive and has no two-cycles |
| `SignalAdapters.DedupeBySource` | dialectic/world_adapters.py:236-258 | one report per source, none of that source's reports newer, in the order in which the sources first spoke |
| `SignalAdapters.DedupedAreDistinct` | dialectic/world_adapters.py:236-258 | the kept reports are inputs with distinct sources, and every input has a kept report of its source that it does not beat |
| `SignalAdapters.NewerInFields` | dialectic/world_adapters.py:216-233 | which report is newer: by clock, by having one, or by the smaller age |
| `SignalAdapters.KeptIsFreshest` | dialectic/world_adapters.py:236-258 | the kept report has the latest clock of its source, or the least age where none has a clock |
| `SignalAdapters.BuildSnapshot` | dialectic/world_adapters.py:669-734 | the snapshot holds what the observations contribute to the first fence that holds them, up to the provider's cap; no fence, no snapshot |
| `SignalAdapters.ContributionInFields` | dialectic/world_adapters.py:680-726 | which observations become signals, for the room of the first fence that holds them, and with which fields |
| `SignalAdapters.CollectedInFields` | dialectic/world_adapters.py:680-726 | at most 1500 signals are collected, below that all that the observations contribute |
| `SignalAdapters.InsideAScopeIsWatched` | dialectic/world_adapters.py:682-688 | an observation inside a live scope is always given a room, before the cut of the fences |
| `SignalAdapters.BuiltIsValid` | dialectic/world_adapters.py:669-734 | from distinct sources the snapshot passes its own checks, names no contact twice and keeps the bound on one source |
| `SignalAdapters.FeedsAreDistinct` | dialectic/world_adapters.py:236-258 | what an adapter reports names each source once: aircraft by deduplication, the station alone, fires by their cells and days; earthquakes and launches if the feed lists each once |
| `SignalAdapters.PolledStoresAgree` | dialectic/world_signals.py:268-337 | in every store that polls of such feeds can fill, a room resolves an identifier exactly when it sees it, at every instant |
| `Rounds.RoundState` | dialectic/api/rounds.py:243-351 | the card has one entry for every question, in order, projected for the viewer, and lists the other members of the room |
| `Rounds.CardAt` | dialectic/api/rounds.py:266-344 | each question's entry stands at its place, over that question's own rows |
| `Rounds.PeersAreTheOthers` | dialectic/api/rounds.py:255-263 | the peers are the members but the viewer, in their order |
| `Rounds.FlagsInFields` | dialectic/api/rounds.py:283-342 | the fields of the question, and when a card is revealed, waiting and scored |
| `Rounds.OwnPartInFields` | dialectic/api/rounds.py:303-308 | the viewer's latest number and guess, and how many rows they have |
| `Rounds.HousePartInFields` | dialectic/api/rounds.py:310-337 | the house's latest number and reasoning, on an open card only |
| `Rounds.OthersPartInFields` | dialectic/api/rounds.py:313-340 | each other's latest number on an open card, and how many others there are on a sealed one |
| `Rounds.PeerErrorInFields` | dialectic/api/rounds.py:324-331 | the read error is the other's latest number less the viewer's guess |
| `Rounds.MyForecastIsMyLatest` | dialectic/api/rounds.py:303-308 | a member's own number is that of their latest row |
| `Rounds.OpenCardShowsEveryone` | dialectic/api/rounds.py:313-323 | an open card shows the latest number of everyone else who has forecast |
| `Rounds.ValuesAreInvisible` | dialectic/api/rounds.py:283-294 | changing nothing but other rows' values changes nothing that a sealed question may depend on |
| `Rounds.SealedNumbersDoNotShow` | dialectic/api/rounds.py:243-351 | two databases that differ only in what is sealed from a viewer give that viewer the same response |
| `Rounds.ScoresShowExactly` | dialectic/api/rounds.py:243-342 | while a card is not open to a viewer, two histories alike to that viewer give the same entry exactly if the question is unscored or the scoring rule gives both the same sheet, whatever the rule |
| `Rounds.OneForecastScores` | dialectic/stakes/timeweighted.py:109-135 | the time-weighted Brier score of one forecast that stands from the first day is its squared error |
| `Rounds.SquaredErrorInNumbers` | dialectic/stakes/timeweighted.py:126-131 | the squared distance to one for correct and to nothing for incorrect |
| `Rounds.WindowInFields` | dialectic/stakes/timeweighted.py:48-62 | the scoring window runs from the day of creation to the earlier of close and verdict |
| `Rounds.StandingRowInFields` | dialectic/stakes/timeweighted.py:65-106 | the row that stands on a day is the last one of the latest day by then |
| `Rounds.ScoresUnseal` | dialectic/api/rounds.py:341-342 | for every settled question whose scoring window has a day, two histories that differ in one other member's number show different time-weighted Brier scores to a viewer who never forecast |
| `Rounds.SealHoldsExactly` | dialectic/api/rounds.py:341-342 | under the time-weighted Brier rule no sealed number changes a question's entry exactly if the question has no scored verdict or its scoring window is empty |
| `Rounds.BrierRuleExists` | dialectic/api/rounds.py:354-420 | a scoring rule with the properties that those lemmas ask for exists |
| `Rounds.RevealedExactly` | dialectic/api/rounds.py:283-294 | a card is open to a member exactly if they have forecast and at least two people have, whatever the house does |
| `Rounds.BothOrNeither` | dialectic/api/rounds.py:288-294 | between two people the seal breaks for both at once |
| `Rounds.RoundQuestion.RecordForecast` | dialectic/api/rounds.py:103-143 | a forecast is appended exactly if the question is active and not past its deadline |
| `Rounds.RoundQuestion.BinQuestion` | dialectic/api/rounds.py:146-166 | binning sets the status and looks at nothing |
| `Rounds.RoundQuestion.ResolveQuestion` | dialectic/api/rounds.py:169-227 | a verdict is written exactly if the question is active |
| `Rounds.RoundQuestion.RecordHouseForecast` | dialectic/stakes/house.py:62-82 | the house's row is appended, clamped, whatever the status |
| `Rounds.StepsInFields` | dialectic/api/rounds.py:103-227 | what each step leaves of the question and its rows, field by field |
| `Rounds.RevealedForever` | dialectic/api/rounds.py:283-294 | what is revealed stays revealed along every run of forecasts, bins and verdicts |
| `Rounds.SettledIsFinal` | dialectic/api/rounds.py:103-227 | a question that is no longer active keeps its verdict and takes no more forecasts from people |
| `Rounds.BinnedIsUnscoredExactly` | dialectic/api/rounds.py:156-166 | a binned question stays unscored exactly if it had no scored verdict when it was binned |
| `Rounds.BinAfterSettling` | dialectic/api/rounds.py:146-166 | a question that is settled and then binned is scored all the same |

## Left out

- HTTP routing, tokens, WebSocket and Redis transport, prompts, embeddings and recall: plumbing over libraries.
- The prediction, thesis and reading relays: the same claim protocol with one write each.
- PNG, GIF and WebP headers: fixed slices, settled by reading them.
- Schedulers, status tables and field-by-field projections: one branch each.
- The text of error messages and the recorded `last_error`.
- Rounding and NaN: coordinates, stamps and readings are reals or integers, and the text of a rounded coordinate is an
  input of the fire cells.
- The antimeridian, `centroid` and `radius_nm`: trigonometry over floats.
- BoxMerge.MergeBoxes: boxes are values, so that updating a shared list in place is not modelled.
- RoomFences.FenceNeverMisses: it speaks of the fences before the first MAX_ROOMS are taken, because the cut drops
  fences by position.
- TradeRelay.AcceptTrade: stored proposals and the book of a room are fixed; an unknown message, one without a proposal
  and one whose proposal `_validated_trade` refuses are a single exit.
- TradeRelay.RetryCompletes: a proposal stamped as accepted before its operation existed is refused, as in the code, and
  is excluded there.
- Lineage.ReviewFindsLineage: the recursive queries are cut at one step more than there are rows, which no path without
  a repeated row reaches.
- GeoLineage.GeoScopes.InsertScope: authority, source state and action are enumerations, so that words outside their
  vocabularies do not arise.
- GeoLineage.GeoScopes.Open: whether the subject resolves in the room is an input; the recorded event is left out.
- GeoLineage.GeoScopes.Review: `now` is read before the lock in the code; here it is a parameter of the step.
- FieldDoor.FieldTable.CreateFieldMark: whether the subjects and the thread belong to the room is an input, and the
  mark handed back is its id; the recorded event is left out.
- FieldDoor.FieldTable.ReviewFieldMark: the first, unlocked pass is not modelled, since it decides nothing; whether the
  subjects and the payload of a replacement are accepted, and its relation-and-subjects key, are inputs.
- FieldMarks.Build: sorting is insertion by key, and an equal key never occurs among distinct rows.
- FieldReview.ReviewsDoNotReshuffle: rooms of which the cap cuts nothing; where it cuts an anchor, a lineage moves.
- Ancestry.SteadyExactly: rooms whose fork messages have not been deleted; `SameReadingsExactly` has no such condition.
- Ancestry.UnsteadyLoses: the same rooms, since the lost message is the fork point itself.
- MessageCursor.CursorRoundTrip: stated for any printers and parsers that read what they print, print short texts and
  keep bars out of identifiers; `CursorTexts` gives the canonical ones. Other spellings that the code's parsers read
  are left open.
- MessagePages.WholeAncestryIsWalked: the ancestry does not change during the walk.
- RateLimit.SameDecisions: one window per key, as the routes use it.
- KnowledgeGraph.ConnectedMemories: the nodes returned for display and the fallback by similarity are left out.
- FireCells.MergeFireCells: the label, the `acquired` text, `daynight` and the rounded position of a cell; satellites
  are a set, shown sorted.
- WorldSignals.WorldSignalStore.Replace: the lock and the deep copies; a signal's layer, label, details and provenance.
- SignalAdapters.BuildSnapshot: those fields are one flag that says whether they make a valid signal.
- Rounds.SealedNumbersDoNotShow: the scoring rule, the rounding and the order in which a set is listed are arbitrary
  functions.
- Rounds.SealHoldsExactly: of a score sheet only the column of time-weighted Brier scores is modelled; skill, coverage,
  log scores and the duel are left to the rest of an arbitrary sheet, and rows arrive in the order of recording.
- Rounds.RevealedForever: rows are read in the order in which they were written; equal recording times are not modelled.
- Rounds.RoundQuestion.ResolveQuestion: the `expired` status and the `partial` verdict, which other routes write.
