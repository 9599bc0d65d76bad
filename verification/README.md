# Replay history, import and rollback: a verified model

This project models the parts of the backend that decide whether market history, live-broker ledgers,
a release log and pinned plugin bundles can be trusted, and proves what those parts keep. It has
five clusters, each built as an executable model with its own specification and main results.

**Market history: gaps, patches, bars, parity.** `Grids` gives bucket grids with an arbitrary strictly
increasing successor, because calendar months are not a fixed step. `GapReports` and `GapExpansion`
turn absent buckets into maximal runs and back. `Catalogs` and `CatalogObjects` hold the catalog's
segments and objects, the gap scan over them, the placement check and the merge that builds the next
catalog. `ExactResponse`, `Evidence`, `RestPatch`, `RestPatchTheorem` and `RestPatchRun` model one REST
patch run: plan the probes, persist evidence, compare-and-publish, audit. Every network answer, every
failing write and every other publisher is arbitrary. `TradePages`, `TradeScan`, `TradeDrain` and `TradeReader`
read stored trades page by page, freeze a window into an exact dataset and replay it with every page checked;
`TradeBuckets`, `TradeBars` and `BarGaps` fold the trades into carry-forward bars and scan the bars for gaps.
`ParityRows`, `ParityAudit`, `ParityRun` and `ParityMonths` compare a live table with an archive page by page.

**Archive import.** `ArchivePlan`, `ImportWorklist`, `ImportRun` and `ImportCoverage` model the provider's plan
of monthly and daily objects, the selection, and the loop that splices a missing month's days into the
list it is walking.

**Rollback tools.** `BrokerFiles`, `LedgerArchive`, `BrokerDowngrade` and `RollbackRuns` model the two ledger
archivers and the state downgrade over a small filesystem, with a failure possible at every step and other
processes acting in between, and then arbitrary sequences of such runs, each cut off anywhere.

**Hash-chained logs and the pinned installer.** `TransparencyLog` and `LedgerAudit` model two hash chains.
`BundleDownload`, `PluginBootstrap` and `BootstrapRun` model the bounded download, the verification and the
all-or-nothing activation of pinned bundles.

**Storage benchmark.** `Aggregation` and `Materialize` model the strict 89-minute aggregation, the batched
writes and the chunked materialisation.

`Results` holds shared vocabulary: options, results, digests, sums over a list, Python's `sorted`, slices and filters.

## Reading the model

Times are integers (milliseconds). Prices and quantities are exact reals. A digest function is always a
parameter; results about hash chains name the colliding documents instead of assuming there are none.
A step that can fail or act differently from run to run draws an arbitrary value, so a contract holds
whatever it is. State that the source updates in place is a class whose methods state their whole effect;
a ghost log or history records intermediate states where the claim is about every step.

## Where the code keeps less than one might expect

- Parity audit. The page cursor steps over times between the last grid point of a page and the next page.
  `ParityRun.EveryPageSizeCoversIffAligned` gives the exact condition under which no row escapes, and
  `ParityRun.OffGridRowEscapes` gives a minute series for which the audit reports `exact` although a row is missing.
- Import coverage. When the requested window starts or ends inside a month whose object is missing, the month's days
  outside the window were covered by the selection but are never scheduled. `ImportCoverage.DayAccountedIff`
  is the exact condition, `ImportCoverage.RequestedDaysAreAccounted` shows that every requested day is safe, and
  `ImportCoverage.FirstDayOfBoundaryMonthIsLost` exhibits the loss.
- Archive destination. The control archiver accepts a side file of the other ledger as its destination, and archiving
  that ledger then destroys the only copy of the first. `RollbackRuns.ArchiveInsideBrokerIsLost` is the run, with both
  requests accepted and the first archive verified; `RollbackRuns.RestorableForeverIff` is the exact condition: a deleted
  ledger stays restorable whatever follows if and only if its archive is outside the broker's own files.

## Model

| member | source | states |
|---|---|---|
| `Grids.WalkListsWindow` | backend/app/replay/history_archive.py:149-229 | walking the successor from an aligned open lists exactly the aligned opens of the window, strictly increasing, for any valid successor |
| `Grids.FixedGridIsValid` | backend/app/replay/history_archive.py:149-195 | a fixed step anchored anywhere is an instance of the general grid |
| `GapReports.ExpandCompress` | backend/scripts/benchmark_replay_period_summary.py:101-158 | compressing any increasing grid points gives maximal runs, with a present point between two runs, and expanding them returns exactly those points |
| `GapReports.CompressExpand` | backend/scripts/benchmark_replay_period_summary.py:101-158 | any list of maximal runs is recovered from the points it expands to |
| `GapReports.ScanWindow` | backend/scripts/benchmark_replay_period_summary.py:112-149 | the point-by-point loop yields exactly the maximal runs of the window's absent opens |
| `GapReports.RowsGapReport` | backend/scripts/benchmark_replay_period_summary.py:101-158 | truncated exactly when there are more distinct opens than the limit; a whole minute of the window lies in a reported run exactly when it is not among the opens with fewer than `limit` smaller ones; runs lie inside the window, are counted right, have a present minute between any two, and their counts sum to the total |
| `GapExpansion.EnumerateGapOpens` | backend/scripts/patch_binance_replay_history_rest.py:301-327 | for any successor the loop ends, and accepts exactly when the declared end is declared-count minus one steps from the start and every step advances |
| `GapExpansion.OpensFromGapScan` | backend/scripts/patch_binance_replay_history_rest.py:330-364 | accepts exactly the reports whose gaps enumerate, add up to the declared count and repeat no open, and returns their opens sorted |
| `GapExpansion.ExpansionInvertsReport` | backend/scripts/patch_binance_replay_history_rest.py:301-364 | the report of any increasing grid points is accepted and expands to exactly those points |
| `GapExpansion.ReportInvertsExpansion` | backend/scripts/patch_binance_replay_history_rest.py:301-364 | maximal runs are recovered from the opens they expand to |
| `GapExpansion.UntruncatedReportIsExact` | backend/scripts/benchmark_replay_period_summary.py:101-158 | an untruncated report is accepted by the expander, and expands to every absent grid point of the window and nothing else |
| `Catalogs.MergeSegments` | backend/app/replay/history_archive.py:993-1026 | the nested merge loops compute the specified merge of all object segments |
| `Catalogs.MergeKeepsOpens` | backend/app/replay/history_archive.py:993-1026 | merging keeps the covered opens and the outer bounds and leaves a missing bucket between any two segments |
| `Catalogs.SourceBucketCount` | backend/app/replay/history_archive.py:197-229 | counts the opens of a range by walking the successor, and rejects exactly an end off the grid |
| `Catalogs.FixedBucketCount` | backend/app/replay/history_archive.py:197-229 | on a fixed-width grid the walked count is the closed form |
| `Catalogs.ScanManifestGaps` | backend/app/replay/history_archive.py:3168-3304 | the cursor scan over segments reports exactly the maximal runs of the window's uncovered opens and counts the covered ones |
| `CatalogObjects.CatalogSegmentsIndexObjects` | backend/app/replay/history_archive.py:993-1026 | a valid catalog's segments index exactly the opens of its objects and span its bounds |
| `CatalogObjects.GapPlacementBlocker` | backend/scripts/patch_binance_replay_history_rest.py:457-498 | no blocker exactly when every missing open lies outside every object's bounds; otherwise blocked plus safe is all missing opens, with one entry for each object in the way: how many opens it blocks, the first and the last of them |
| `CatalogObjects.BlockerSplitsMissing` | backend/scripts/patch_binance_replay_history_rest.py:457-498 | for a valid catalog the blocked count is the number of missing opens inside some object, and neither part is negative |
| `CatalogObjects.MergeCatalogObjects` | backend/app/replay/history_archive.py:1749-1793 | the next objects are the new ones and those old ones whose key and range no new one takes, in range order; each refusal names the repeated key, the partial overlap or the remaining overlap |
| `CatalogObjects.PatchIsAccepted` | backend/scripts/patch_binance_replay_history_rest.py:457-540 | when placement allows it, adding one singleton object per exact bar is accepted, loses no object and keeps all ranges pairwise disjoint |
| `CatalogObjects.PatchAddsExactlyItsOpens` | backend/scripts/patch_binance_replay_history_rest.py:513-540 | the next catalog's opens are the prior opens and the patched ones |
| `ExactResponse.AcceptsExactly` | backend/scripts/patch_binance_replay_history_rest.py:136-224 | exactly three outcomes: an empty list confirms the bucket empty, one exact K-line yields its own values field by field with the canonical close, everything else is an error |
| `Evidence.EvidenceStore.AtomicWrite` | backend/scripts/patch_binance_replay_history_rest.py:227-241 | write once: a failure at any step leaves the stored files, and the only content error needs a digest collision |
| `Evidence.EvidenceStore.PersistSourceReceipt` | backend/scripts/patch_binance_replay_history_rest.py:244-298 | in every state of every run each path names its bytes and each receipt points at a stored response; "receipt changed" needs a collision |
| `RestPatch.MissingOpens` | backend/scripts/patch_binance_replay_history_rest.py:367-454 | the opens to probe are exactly the grid buckets from the catalog's first through the required end, or its last without one, that lie in no segment; their number and runs are the expected ones, and each refusal names its reason |
| `RestPatch.CheckTail` | backend/scripts/patch_binance_replay_history_rest.py:384-400 | the successor walk from the catalog's tail accepts exactly a required end on the grid at or after it |
| `RestPatch.MissingIsUncovered` | backend/scripts/patch_binance_replay_history_rest.py:407-418 | the missing opens are the grid buckets of the window that lie in no published segment, in increasing order |
| `RestPatchTheorem.PatchAddsExactBars` | backend/scripts/patch_binance_replay_history_rest.py:513-540 | publishing the exact bars' objects adds exactly their opens to the catalog's coverage |
| `RestPatchTheorem.ExactlyEmptyRemains` | backend/scripts/patch_binance_replay_history_rest.py:684-713 | with every missing bucket probed, exactly the confirmed-empty ones are still missing in the published catalog |
| `RestPatchRun.PatchIsExact` | backend/scripts/patch_binance_replay_history_rest.py:543-731 | patched plus confirmed-empty is probed, the tail window is kept, and the audit's comparison cannot fail |
| `RestPatchRun.MergedCatalogIsStored` | backend/app/replay/history_archive.py:1516-1551 | every accepted merge of valid objects is a valid catalog again |
| `RestPatchRun.PlanProbes` | backend/scripts/patch_binance_replay_history_rest.py:501-510 | a plan exists only when no missing open lies inside an object |
| `RestPatchRun.ReplayHistoryArchive.Probe` | backend/scripts/patch_binance_replay_history_rest.py:587-664 | an answer is used only if it says the bucket is empty or gives its exact bar; its body and a receipt that records it are then stored; each failure names what was wrong with the answer |
| `RestPatchRun.ReplayHistoryArchive.ProbeAll` | backend/scripts/patch_binance_replay_history_rest.py:587-664 | the i-th answer is read for the i-th bucket; every pending bar and every confirmed-empty bucket is backed by its own answer and receipt |
| `RestPatchRun.ReplayHistoryArchive.WriteObjects` | backend/scripts/patch_binance_replay_history_rest.py:513-540 | one single-bucket object per exact bar, named by its receipt and addressed by the digest of that very bar |
| `RestPatchRun.ReplayHistoryArchive.PublishIfCurrent` | backend/app/replay/history_archive.py:1516-1551 | the pointer moves only from the expected catalog to the merge of it; every failure but a failed rollback leaves it where it was and names its reason |
| `RestPatchRun.ReplayHistoryArchive.MovePointer` | backend/app/replay/remote_history.py:785-855 | pointer and index move together, or the pointer is put back |
| `RestPatchRun.ReplayHistoryArchive.AuditPublished` | backend/scripts/patch_binance_replay_history_rest.py:684-713 | the gap comparison fails exactly when the missing opens are not the sorted confirmed-empty ones; reading the objects back may fail on its own |
| `RestPatchRun.ReplayHistoryArchive.PatchHistory` | backend/scripts/patch_binance_replay_history_rest.py:543-731 | a run that publishes leaves every bucket through the required end covered or answered empty, and what is published for a bucket is the bar of the answer to its own request under a stored receipt, also when the object check after it fails; a run that fails before publication changes nothing; one that fails later has stored the evidence of every missing bucket; the gap comparison never fails; every failure names its reason; all evidence precedes any publication |
| `RestPatchRun.WindowIsAnswered` | backend/scripts/patch_binance_replay_history_rest.py:585-662 | each bucket of the window is covered or answered empty, and each newly covered one by an object of its own answer's bar |
| `ParityRows.CompareRow` | backend/scripts/audit_replay_history_parity.py:260-300 | one row pair: the row counter moves iff the rows differ, each field counter iff that field differs, each maximum to cover the difference either way round; stops exactly at a value that is not numeric |
| `ParityRows.CountsAreDetermined` | backend/scripts/audit_replay_history_parity.py:195-203 | the counters and maxima are determined by the two tables and the compared times |
| `ParityAudit.AuditPage` | backend/scripts/audit_replay_history_parity.py:206-300 | folding one page into the counters turns the comparison of the times so far into the comparison of those and the page's |
| `ParityRun.PacedPagesFit` | backend/scripts/audit_replay_history_parity.py:221-235 | rows that never run ahead of the nominal step by two intervals fit every page within the query's limit |
| `ParityRun.SpacedIsPaced` | backend/scripts/audit_replay_history_parity.py:221-235 | rows at least one interval apart, as on a fixed grid, are such rows |
| `ParityMonths.MonthLasts` | backend/app/data_engine/interval_policy.py:699-725 | consecutive month opens are 28, 29, 30 or 31 days apart, as the Gregorian calendar has it |
| `ParityMonths.MonthlyPagesFit` | backend/scripts/audit_replay_history_parity.py:205-235 | calendar months, against their nominal thirty days, fit every page for every page size |
| `ParityRun.AuditPages` | backend/scripts/audit_replay_history_parity.py:205-300 | where no page window holds more archive rows than the query's limit, the page loop equals one map comparison over the visited times and fails exactly when one of them holds a value that is not numeric |
| `ParityRun.Audit` | backend/scripts/audit_replay_history_parity.py:150-345 | exact error conditions and overlap; every counter is the number of visited times at which the rows or fields differ, every maximum bounds all differences and is attained, `exact` holds iff both tables hold equal rows at every visited time, samples are true and number min(max samples, all differences) |
| `ParityRun.ReportIsTrue` | backend/scripts/audit_replay_history_parity.py:190-345 | counters, maxima, verdict and samples in the rows' own fields |
| `ParityRun.EveryPageSizeCoversIffAligned` | backend/scripts/audit_replay_history_parity.py:205-210 | every page size visits the whole overlap if and only if every row is aligned with the overlap start |
| `ParityRun.PageSizeIsIrrelevant` | backend/scripts/audit_replay_history_parity.py:150-345 | for aligned rows any two page sizes give the same counts, mismatches, maxima and sample count, those of the whole-range comparison |
| `ParityRun.OffGridRowEscapes` | backend/scripts/audit_replay_history_parity.py:205-345 | the audit of a minute series reports `exact` for two tables that differ in an off-grid row |
| `ArchivePlan.PlanObjects` | backend/app/exchanges/plugins/binance/archive.py:92-163 | the two planning loops produce the consecutive months and days in closed form |
| `ArchivePlan.PlanHoldsPlanned` | backend/app/exchanges/plugins/binance/archive.py:92-163 | the plan holds exactly the closed months the window touches and the whole past days inside it |
| `ImportWorklist.SelectionIsApart` | backend/scripts/import_binance_replay_history.py:131-145 | the selection is every monthly object and the days of months without one, once each, in time order without overlap |
| `ImportWorklist.DailyFallbacksByMonth` | backend/scripts/import_binance_replay_history.py:148-160 | each month's daily objects, all of them and no other, sorted by start time and day |
| `ImportWorklist.VisitedInOrder` | backend/scripts/import_binance_replay_history.py:384-409 | the visit order is strictly forward in time, except that a missing month precedes its own days |
| `ImportRun.FallbacksAreNew` | backend/scripts/import_binance_replay_history.py:394-398 | no fallback of the next object is scheduled yet, so the scheduled-keys filter drops nothing |
| `ImportRun.SplicingKeepsOutstanding` | backend/scripts/import_binance_replay_history.py:399-403 | a splice moves objects from unscheduled to unvisited without changing their sum |
| `ImportRun.VisitAll` | backend/scripts/import_binance_replay_history.py:265-409 | the self-extending loop visits exactly the selected objects and their fallbacks, each iteration lowers (unscheduled + unvisited) by one, and it succeeds exactly when every visited object is acceptable |
| `ImportCoverage.WorklistInOrder` | backend/scripts/import_binance_replay_history.py:270-409 | keys stay distinct and the worklist is ordered by start time |
| `ImportCoverage.ProcessedExactlyOnce` | backend/scripts/import_binance_replay_history.py:270-409 | every visited object is exactly one of imported, reused and missing, and the counts add up |
| `ImportCoverage.KeptRangesAreDisjoint` | backend/scripts/import_binance_replay_history.py:131-160 | kept objects cover pairwise disjoint ranges; no kept day shares its month with a kept month |
| `ImportCoverage.VisitedExactly` | backend/scripts/import_binance_replay_history.py:384-409 | an object is visited exactly when it is selected or is a planned day of a selected month that is missing |
| `ImportCoverage.PlanIsRequested` | backend/app/exchanges/plugins/binance/archive.py:92-163 | the plan holds exactly the closed months that share a day with the request and the requested days that are over, none before the provider's first day |
| `ImportCoverage.WorklistIsDue` | backend/scripts/import_binance_replay_history.py:384-409 | what is visited is exactly what is due |
| `ImportCoverage.DayAccountedIff` | backend/scripts/import_binance_replay_history.py:274-409 | a day covered by the selection is covered by a kept object or a recorded missing leaf exactly when it was not lost at the window's boundary |
| `ImportCoverage.RequestedDaysAreAccounted` | backend/scripts/import_binance_replay_history.py:274-409 | every requested past day from the provider's first day on is accounted for after an import |
| `ImportCoverage.FirstDayOfBoundaryMonthIsLost` | backend/scripts/import_binance_replay_history.py:384-409 | when the window starts inside a missing month, that month's first day was covered by the selection and is accounted for by nothing |
| `ImportCoverage.ImportHistory` | backend/scripts/import_binance_replay_history.py:180-409 | exact argument errors; succeeds exactly when something is requested and nothing due fails; it visits exactly the requested objects except days of a month that was found, in time order, each listed by its outcome |
| `LedgerArchive.BrokerHost.CopyExclusive` | backend/scripts/archive_live_control_v1.py:110-129 | an existing destination is never touched, and nothing else is |
| `LedgerArchive.BrokerHost.VerifyArchive` | backend/scripts/archive_live_control_v1.py:132-161 | passes exactly when members, manifest, audit export and every recorded size and digest match |
| `LedgerArchive.BrokerHost.BuildArchive` | backend/scripts/archive_live_control_v1.py:255-304 | success leaves a verified archive; the temporary survives only the exit whose cleanup failed |
| `LedgerArchive.BrokerHost.RemovePart` | backend/scripts/archive_live_control_v1.py:313-320 | a ledger file is removed only while a verified archive restores it |
| `LedgerArchive.BrokerHost.RehashSources` | backend/scripts/archive_live_control_v1.py:306-314 | true exactly when every recorded file is there with its recorded size, within the byte limit, and digest |
| `LedgerArchive.BrokerHost.RemoveSources` | backend/scripts/archive_live_control_v1.py:305-331 | side files go before the main file, each restorable when it goes; success removes exactly the three, a changed source removes nothing, and an incomplete removal leaves one of the three in place |
| `LedgerArchive.BrokerHost.ArchiveLedger` | backend/scripts/archive_live_control_v1.py:164-331 | a refused request changes nothing, field by field of the request; success is an archive of the audit export and of exactly the ledger's files as the checkpoint left them; with any step failing, a run is preparations then restorable removals |
| `LedgerArchive.BrokerHost.CheckRequest` | backend/scripts/archive_live_execution_v1.py:157-201 | refuses exactly unconfirmed requests, a missing or badly sized audit export, an existing destination, a missing ledger, overlapping paths, a ledger that is not killed and unreviewed unresolved orders, and names the one that holds |
| `BrokerDowngrade.CheckDowngrade` | backend/scripts/downgrade_live_broker_state_v2_to_v1.py:53-115 | accepts exactly a v2 state with a known vault, no ledger file, a new backup and a confirmed account drop, and names the obstacle otherwise |
| `BrokerDowngrade.ReplaceState` | backend/scripts/downgrade_live_broker_state_v2_to_v1.py:36-50 | the state file is wholly old or wholly new at every step, new only while the backup holds the old bytes and no ledger file exists |
| `BrokerDowngrade.DowngradeState` | backend/scripts/downgrade_live_broker_state_v2_to_v1.py:53-140 | an obstacle leaves everything as it was; every failure leaves the old state; success leaves the v1 state without accounts and with all credentials, the backup of the old bytes, no ledger, and a report of both counts |
| `RollbackRuns.DeletedLedgersStayRestorable` | backend/scripts/archive_live_control_v1.py:305-331 | over any sequence of archive runs, downgrades and broker activity, every ledger file a tool deleted is restorable at the end if its own archive is outside the broker's files |
| `RollbackRuns.DeletedLedgersComeBack` | backend/scripts/archive_live_control_v1.py:132-161 | what the archive gives back is the deleted file byte for byte, or an exhibited digest collision of the same size |
| `RollbackRuns.DeletionIsRestorable` | backend/scripts/archive_live_execution_v1.py:305-326 | a removal's archive, wherever it is kept, restores the file at that step and to the end of its run, and the main file goes last |
| `RollbackRuns.CrashedRunIsRun` | backend/scripts/archive_live_control_v1.py:164-331 | a run cut off after any change is still a run |
| `RollbackRuns.RestorableForeverIff` | backend/scripts/archive_live_control_v1.py:174-200 | a deleted ledger stays restorable whatever runs follow if and only if its archive is outside the broker's own files |
| `RollbackRuns.RunsCut` | backend/scripts/archive_live_control_v1.py:164-331 | a sequence of runs stopped after any change of any run is again a sequence of runs that ends in that state |
| `RollbackRuns.LedgersRestorableAtEveryStep` | backend/scripts/archive_live_control_v1.py:305-331 | at every step of every run, every ledger file deleted before is restorable |
| `RollbackRuns.StateChangesAreGuarded` | backend/scripts/downgrade_live_broker_state_v2_to_v1.py:53-140 | over any sequence of runs a tool changes the state file only by writing schema v1 over backed-up bytes while no ledger file exists, and then every ledger deleted so far is restorable |
| `RollbackRuns.ArchiveContractIsRun` | backend/scripts/archive_live_control_v1.py:164-331 | the archiver's own contract is a run in the sense of the sequence theorem |
| `RollbackRuns.RunPassedItsChecks` | backend/scripts/archive_live_execution_v1.py:157-201 | a run that changed anything had a confirmed, killed ledger with reviewed orders, an export of allowed size and paths apart from the ledger |
| `RollbackRuns.ArchiverTouchesItsOwn` | backend/scripts/archive_live_control_v1.py:225-331 | the tool changes only its archive and its temporary, and removes files of its own ledger only when asked to |
| `RollbackRuns.DowngradeContractIsRun` | backend/scripts/downgrade_live_broker_state_v2_to_v1.py:53-140 | the downgrade's own contract is a run in the sense of the sequence theorem |
| `RollbackRuns.ArchiveInsideBrokerIsLost` | backend/scripts/archive_live_control_v1.py:174-200 | two accepted requests, the first with a verified archive at the other ledger's log, after which the archive and the ledger it restores are gone |
| `TradePages.GeneratedPagedArchive.ScanPage` | backend/scripts/benchmark_replay_trade.py:124-170 | one page after any cursor, with the counters it moves, and the refusal of another dataset generation |
| `TradePages.GeneratedTapeIsNumbered` | backend/scripts/benchmark_replay_trade.py:171-215 | rows generated by index at any positive spacing, inside the window, are an ordered tape with consecutive ids; row by row the id, the trade range, the quantity, the time and the maker flag are stated |
| `TradePages.BothArchivesServeTape` | backend/scripts/audit_replay_determinism.py:275-304 | for every cursor into the tape and every limit that is not negative, the generating and the slicing archive both serve the next rows |
| `TradeScan.CutoffSettles` | backend/app/data_engine/storage/raw_trade_archive.py:3322-3330 | a row beyond the cutoff has at least as many kept rows before it as the page needs, so it may be passed over |
| `TradeScan.ParquetRawAggTradeArchive.ScanPage` | backend/app/data_engine/storage/raw_trade_archive.py:2022-2184 | the deduplicating scan with early stops and skipped files serves exactly the next stored rows, at most the clamped limit; it fails only for scan limits or for two different rows with one id |
| `TradeScan.ServedPageIsNext` | backend/app/data_engine/storage/raw_trade_archive.py:2022-2184 | where the stored rows have a tape, a served page is the slice of the tape after the cursor |
| `TradeDrain.ServedPageAdvances` | backend/app/data_engine/storage/raw_trade_archive.py:1883-1916 | a page extends what has been read to everything stored up to its last row, and the last page completes the tape |
| `TradeDrain.FreezeDataset` | backend/app/data_engine/storage/raw_trade_archive.py:1845-1938 | a frozen dataset is everything stored in the window, once, in order, with consecutive ids; an id gap is reported only where two neighbours show it, an empty range only where nothing is stored |
| `TradeReader.CheckPage` | backend/app/replay/sources/trade_reader.py:240-320 | the page checks pass exactly for pages that continue the numbering inside the window and end it at the dataset's last id |
| `TradeReader.AcceptedPagesAreNumbered` | backend/app/replay/sources/trade_reader.py:240-320 | pages that pass every check, the last one exhausted, hold exactly the dataset's consecutively numbered rows inside its window |
| `TradeReader.PagedReplayTradeReader.ReadPage` | backend/app/replay/sources/trade_reader.py:197-326 | exact conditions for a refused limit and a cursor outside the dataset; otherwise a served page that passes every check |
| `TradeReader.PagedReplayTradeReader.IterPages` | backend/app/replay/sources/trade_reader.py:328-340 | all pages together are the stored rows of the dataset in the fewest pages; it succeeds only on the numbered tape, and a failed page check shows that the stored rows are not one |
| `TradeReader.IterGeneratedPages` | backend/scripts/benchmark_replay_trade.py:109-170 | over generated rows the checked loop returns the whole tape in the fewest pages and never sees a page over the limit |
| `TradeBuckets.ExtremesAreAttained` | backend/scripts/benchmark_replay_period_summary.py:525-556 | a bucket's high and low bound every price of the bucket and are attained |
| `TradeBuckets.SummaryIsDescribed` | backend/scripts/benchmark_replay_period_summary.py:519-553 | a bar is the first and last price, attained bounds, and sums over its trades' own fields, the taker sums over exactly the trades with a buying taker |
| `TradeBuckets.AddRow` | backend/scripts/benchmark_replay_period_summary.py:519-553 | folding a row into its mutable bucket keeps one bar for every minute with a trade, describing that minute's trades |
| `TradeBars.CollectBuckets` | backend/scripts/benchmark_replay_period_summary.py:506-558 | for every page size the drain never gets stuck, reads everything stored in the bounds once, in order, in the fewest pages the archive's limit allows, and the buckets summarise it |
| `TradeBars.DeriveTradeBars` | backend/scripts/benchmark_replay_period_summary.py:488-613 | minute by minute: open and close of the first and last trade, attained bounds, sums of quantities, quotes and trade ids, taker sums over exactly the trades with a buying taker, empty minutes flat; all sums over the rows are those of everything stored in the window, whatever the page size; it fails beside a failed freeze only when the first minute has no trade |
| `TradeBars.SeriesIsDetermined` | backend/scripts/benchmark_replay_period_summary.py:560-603 | tape and grid determine the series, so page boundaries cannot |
| `TradeBars.SeriesConservesTape` | backend/scripts/benchmark_replay_period_summary.py:560-603 | volume, quote, trade count and taker totals of the bars are the tape's |
| `TradeBars.SeriesIsSound` | backend/scripts/benchmark_replay_period_summary.py:560-603 | low and high bound open and close, takers stay within volume, consecutive bars abut |
| `BarGaps.MemoryKlinesRepository.GetBounds` | backend/scripts/benchmark_replay_period_summary.py:379-402 | the bounds are opens of the series and bound all of them |
| `BarGaps.MemoryKlinesRepository.ScanGaps` | backend/scripts/benchmark_replay_period_summary.py:434-468 | the scan says this of the opens its limited query returns: each minute of the window is in a reported run exactly when it was not looked at |
| `BarGaps.QueryOrdersWindow` | backend/scripts/benchmark_replay_period_summary.py:404-432 | a query lists exactly the stored rows inside its bounds, in the asked order, cut to its limit |
| `BarGaps.QueryListsWindow` | backend/scripts/benchmark_replay_period_summary.py:404-432 | a query between two opens of a series returns exactly the rows between them |
| `BarGaps.ScanSeries` | backend/scripts/benchmark_replay_period_summary.py:434-468 | scanning a derived series between two of its opens, with room for the rows, reports zero gaps and the exact row count |
| `TransparencyLog.SignedReferenceMarketplace.AddRelease` | backend/scripts/plugin_platform_multi_runtime_phase10.py:174-250 | a known publisher's call appends one release that states the call field by field, permissions sorted by id, signed, numbered and linked to the release before it; an unknown publisher adds nothing |
| `TransparencyLog.SignedReferenceMarketplace.IndexOf` | backend/scripts/plugin_platform_multi_runtime_phase10.py:252-294 | an index holds the first releases, the head of exactly those, the revocations in order and a thirty-day lifetime, and is signed by the root |
| `TransparencyLog.LogIsWellFormed` | backend/scripts/plugin_platform_multi_runtime_phase10.py:174-250 | for every sequence of calls the chain is numbered, hashed, linked and signed |
| `TransparencyLog.LogFollowsCalls` | backend/scripts/plugin_platform_multi_runtime_phase10.py:174-250 | one release for each call of a known publisher, in order, each stating its own call |
| `TransparencyLog.IndexesExtend` | backend/scripts/plugin_platform_multi_runtime_phase10.py:252-294 | an index over k releases is a prefix of every later one over at least as many |
| `TransparencyLog.EqualHeadsFixTheLog` | backend/scripts/plugin_platform_multi_runtime_phase10.py:220-247 | two chains with one head hold the same releases, or two of their own documents collide, or one hashes to the zero digest |
| `LedgerAudit.TransactionTotals` | backend/scripts/audit_replay_determinism.py:513-519 | each transaction's total is the sum of its entries' amounts |
| `LedgerAudit.BalancedLedgerSumsToZero` | backend/scripts/audit_replay_determinism.py:513-521 | if every transaction sums to zero the whole ledger does |
| `LedgerAudit.IndependentLedgerAudit` | backend/scripts/audit_replay_determinism.py:510-575 | passes exactly when every transaction sums to zero, the links of the hash chain end at the reported tail, cash and realised profit are the sums reported and the report hashes to its hash; each refusal names what is wrong |
| `LedgerAudit.PassingAuditBalancesTheBooks` | backend/scripts/audit_replay_determinism.py:546-556 | after a pass all amounts sum to zero and the cash balance is minus the sum of all other entries |
| `LedgerAudit.TailHashFixesTheLedger` | backend/scripts/audit_replay_determinism.py:523-544 | one tail hash means one configuration and one entry sequence, or two chained documents collide |
| `LedgerAudit.SameReportSameLedger` | backend/scripts/audit_replay_determinism.py:510-575 | two audited brokers with one reported tail hash hold the same ledger in the same order, up to an exhibited collision |
| `BundleDownload.BootstrapHost.VerifiedLocalBundle` | backend/app/first_party_plugin_bootstrap.py:375-394 | returns a path only when its file has the pinned size and digest |
| `BundleDownload.BootstrapHost.CopyResponse` | backend/app/first_party_plugin_bootstrap.py:397-420 | copies exactly the received bytes of exactly the pinned size, touching nothing but the temporary at every step; when no write fails and the connection holds, it succeeds exactly when the received size is the pinned size within 64 MiB |
| `BundleDownload.BootstrapHost.Download` | backend/app/first_party_plugin_bootstrap.py:423-472 | in every intermediate state an initially absent cache target holds only the pinned bundle; an existing target is never changed and never fetched again |
| `PluginBootstrap.NothingPendingAtPins` | backend/app/first_party_plugin_bootstrap.py:530-560 | nothing is pending exactly when every selected release is at its pin |
| `PluginBootstrap.AllAtPins` | backend/app/first_party_plugin_bootstrap.py:627-655 | publishing every pending bundle's activation puts all selected releases at their pins |
| `PluginBootstrap.SelectedDistinct` | backend/app/first_party_plugin_bootstrap.py:496-513 | distinct routes over a lock without repeated ids select distinct releases |
| `PluginBootstrap.SelectedFollowsRoutes` | backend/app/first_party_plugin_bootstrap.py:496-513 | one release for every routed runtime the lock names, in the sorted order of their ids |
| `BootstrapRun.CheckSelected` | backend/app/first_party_plugin_bootstrap.py:530-560 | collects exactly the releases not at their pin and refuses an unmanaged activation |
| `BootstrapRun.ResolveBundles` | backend/app/first_party_plugin_bootstrap.py:562-624 | success means every pending bundle is a verified file; older files are untouched throughout |
| `BootstrapRun.EnsureFirstPartyPlugins` | backend/app/first_party_plugin_bootstrap.py:475-678 | skips exactly when switched off or nothing locked is routed; refuses a routed first-party runtime the lock does not name; otherwise every routed locked release ends at its pin or the registry is as it was; installs exactly the bundles not at their pin, each with matching size and digest; items follow the routes and say truly what changed and what was downloaded; every failure names its reason; every installed bundle was read from its cache target, or from the supplied file or directory |
| `BootstrapRun.EnsureTwice` | backend/app/first_party_plugin_bootstrap.py:475-678 | after a finished run the next one with the same environment changes, fetches and installs nothing |
| `Aggregation.AggregateKlineRows` | backend/app/data_engine/interval_policy.py:473-613 | a bar for every bucket that is over and whose 89 minutes are each given once, closed and in place, folded in time order; no other bar; in time order |
| `Aggregation.CollectParts` | backend/app/data_engine/interval_policy.py:537-575 | a bucket's components are collected exactly when it is complete |
| `Aggregation.PartsAreMinutes` | backend/app/data_engine/interval_policy.py:545-575 | a bucket is complete exactly when each of its 89 minutes is given once, ends with its minute and is over, and its parts are those minutes in order |
| `Materialize.UpsertAppends` | backend/scripts/benchmark_manual_history_storage.py:169-207 | two batches in a row write what one batch would |
| `Materialize.UpsertWrites` | backend/scripts/benchmark_manual_history_storage.py:169-207 | after a write each row stands under its key unless a row of a higher rank does, and no other key changes |
| `Materialize.UpsertIsIdempotent` | backend/scripts/benchmark_manual_history_storage.py:169-207 | replaying a batch changes nothing |
| `Materialize.KlineStore.UpsertNative` | backend/scripts/benchmark_manual_history_storage.py:145-207 | in any batching, each generated minute stands under its open unless a row of a higher rank does, and nothing else changes |
| `Materialize.WindowRebuildsSeries` | backend/scripts/benchmark_manual_history_storage.py:261-283 | aggregating the rows of whole buckets rebuilds exactly the series' bars of those buckets, whatever is stored |
| `Materialize.SeriesBarsSplit` | backend/scripts/benchmark_manual_history_storage.py:261-300 | consecutive runs of buckets concatenate, so no bar straddles a chunk |
| `Materialize.KlineStore.Materialize89m` | backend/scripts/benchmark_manual_history_storage.py:246-315 | the chunked run writes one bar for every bucket of the complete prefix whose 89 minutes are stored, folded in time order, and nothing else is touched |
| `Materialize.NativeStoreHolds` | backend/scripts/benchmark_manual_history_storage.py:145-207 | writing the generated rows into an empty store stores exactly those rows |
| `Materialize.OneRowPerBucket` | backend/scripts/benchmark_manual_history_storage.py:246-315 | over the generated series one target row results per complete bucket |

## Left out

- Decimal arithmetic: prices, quantities and amounts are exact reals; Python's `Decimal` context rounding and the eight-digit rounding of aggregated volumes are not modelled.
- Digests and signatures: SHA-256 and Ed25519 are opaque functions; equality of two digests is never read as equality of bytes except through an exhibited collision.
- Encodings: HTTP, JSON, SQLite, Parquet, zip and asyncio are replaced by maps, sequences and arbitrary outcomes; `decode`, `encode`, `unzip` and `parse` are parameters.
- TradeScan.ParquetRawAggTradeArchive.ScanPage: models the read of a frozen generation; files are sequences of batches, sorted and described by their manifests as the writer leaves them, and a row's time of receipt, which only decides between equal copies, is not a field. Reads without a dataset and the scan statistics are not modelled.
- TradeDrain.FreezeDataset: the files are those discovered for the window; receipts, quarantine and checksums of the discovery, and the re-check of the objects at the end, are not part of this model. The epoch is an arbitrary function of the two id bounds.
- TradeReader.PagedReplayTradeReader.ReadPage: symbol identity and the schema of a single trade are not fields; reading by sequence number is left out.
- Evidence paths and headers: the URL of a request is a function of its bucket, content-type and status are checked as flags.
- Catalog schema v1: its scans skip the check that bounds are on the grid; the model scans on a grid with aligned bounds.
- ParityRun.Audit: requires that no page window holds more archive rows than the query's limit, one above the page size; fixed grids and calendar months meet that for every page size. Live rows are unrestricted.
- RestPatchRun.ReplayHistoryArchive.AuditPublished: the object check is success or failure of reading each object back; only the comparison of the gaps is proved never to fail.
- GapExpansion.UntruncatedReportIsExact: says nothing about a truncated report, because rows beyond the limit are dropped before the scan.
- LedgerArchive.BrokerHost.ArchiveLedger: other processes are assumed not to create the destination (nothing in the script prevents it, and its cleanup would remove their file) and not to create ledger files while the directory lock is held. What the audit export proves is a parameter of the request.
- LedgerArchive.BrokerHost.RemoveSources: a third assumption, no other process acts between the rehash and the last removal; the directory lock stands behind it, and a file rewritten in between would be removed unarchived.
- BrokerDowngrade.DowngradeState: other processes are assumed to leave the state file and the backup alone while it runs, and no ledger file appears.
- RollbackRuns.StateChangesAreGuarded: an archive requested at the path of the state file is outside it; no state file exists when such a run begins.
- ImportCoverage.ImportHistory: ends with the kept objects; their publication is the same compare-and-publish as the patch's and is not repeated. The plan-only report and the catalog-fixed bucket anchor are not modelled. Tie-breaking by object key is by granularity and period.
- PluginBootstrap.AllAtPins: assumes that bytes matching a pin carry the runtime id and version the release lock names; the installer's own probes are reduced to success or failure of the whole batch.
- BootstrapRun.EnsureFirstPartyPlugins: environment parsing is reduced to accepted or rejected values, and platform support is a predicate.
- Materialize.KlineStore.Materialize89m: the fold of 89 rows into one bar is a parameter; reported change counts, memory and file sizes are not modelled.
- TransparencyLog.SignedReferenceMarketplace.IndexOf: the canonical JSON bytes of an index are its document value; publisher display data is the set of publisher ids.
- LedgerAudit.IndependentLedgerAudit: the broker's report builder and fills are inputs.
- Timeouts, resident-memory sampling, progress output, percentile reports and release-gate evidence scripts: finite checks without an algorithm to prove.
- The replay engine, its broker and the archive writer's internals: only the contracts their callers rely on appear.
