/**
 * `DtSearchIndexer`: the run-mode flags it derives from the catalog, the
 * remove-only or add job it configures, the completion status of a job, and
 * the progress counter it keeps while the engine reports.
 */
module Indexer {
  import opened Wrappers
  import opened Catalog
  import opened Batching
  import opened RemoveList
  import opened DataSource

  // ---------------------------------------------------------------- run mode

  /** The four per-database switches that are aggregated with `Any`. */
  datatype Switch = CreateOrRecreateFullIndex | UpdateExistingSavedIndexes | RemoveMissingDocuments | UpdateMarkedAsNeedsIndexing

  predicate IsSet(d: DbInfo, s: Switch) {
    match s
    case CreateOrRecreateFullIndex => d.createOrRecreateFullIndex
    case UpdateExistingSavedIndexes => d.updateExistingSavedIndexes
    case RemoveMissingDocuments => d.removeMissingDocuments
    case UpdateMarkedAsNeedsIndexing => d.updateMarkedAsNeedsIndexing
  }

  /** `dbInfos.Any(dbi => dbi.<switch>)`. */
  predicate AnySet(dbs: seq<DbInfo>, s: Switch) {
    dbs != [] && (IsSet(dbs[0], s) || AnySet(dbs[1..], s))
  }

  /** An aggregate switch is on exactly when some database has it on. */
  lemma {:induction false} AnySetSpec(dbs: seq<DbInfo>, s: Switch)
    ensures AnySet(dbs, s) <==> exists i :: 0 <= i < |dbs| && IsSet(dbs[i], s)
  {
    if dbs != [] {
      AnySetSpec(dbs[1..], s);
      if AnySet(dbs[1..], s) {
        var i :| 0 <= i < |dbs[1..]| && IsSet(dbs[1..][i], s);
        assert IsSet(dbs[i + 1], s);
      }
      if exists i :: 0 <= i < |dbs| && IsSet(dbs[i], s) {
        var i :| 0 <= i < |dbs| && IsSet(dbs[i], s);
        if i > 0 {
          assert IsSet(dbs[1..][i - 1], s);
        }
      }
    }
  }

  /**
   * Line 59: some database asks for a remove list while neither aggregate
   * update switch is on; the test runs per database, as written.
   */
  predicate RemoveOnlyOf(dbs: seq<DbInfo>, updateSaved: bool, updateMarked: bool) {
    dbs != [] && ((dbs[0].removeListOfDocuments && !(updateSaved || updateMarked)) || RemoveOnlyOf(dbs[1..], updateSaved, updateMarked))
  }

  /** Remove-only mode: some database asks for a remove list, and no database asks for an update. */
  lemma {:induction false} RemoveOnlySpec(dbs: seq<DbInfo>)
    ensures RemoveOnlyOf(dbs, AnySet(dbs, UpdateExistingSavedIndexes), AnySet(dbs, UpdateMarkedAsNeedsIndexing))
      <==> && (exists i :: 0 <= i < |dbs| && dbs[i].removeListOfDocuments)
           && (forall i :: 0 <= i < |dbs| ==> !dbs[i].updateExistingSavedIndexes && !dbs[i].updateMarkedAsNeedsIndexing)
  {
    var saved, marked := AnySet(dbs, UpdateExistingSavedIndexes), AnySet(dbs, UpdateMarkedAsNeedsIndexing);
    AnySetSpec(dbs, UpdateExistingSavedIndexes);
    AnySetSpec(dbs, UpdateMarkedAsNeedsIndexing);
    RemoveOnlyAnyList(dbs, saved, marked);
    if forall i :: 0 <= i < |dbs| ==> !dbs[i].updateExistingSavedIndexes && !dbs[i].updateMarkedAsNeedsIndexing {
      assert !saved && !marked;
    } else {
      var i :| 0 <= i < |dbs| && !(!dbs[i].updateExistingSavedIndexes && !dbs[i].updateMarkedAsNeedsIndexing);
      assert IsSet(dbs[i], UpdateExistingSavedIndexes) || IsSet(dbs[i], UpdateMarkedAsNeedsIndexing);
    }
  }

  /** The per-database test of line 59 holds for some database iff one has the list switch and the updates are off. */
  lemma {:induction false} RemoveOnlyAnyList(dbs: seq<DbInfo>, updateSaved: bool, updateMarked: bool)
    ensures RemoveOnlyOf(dbs, updateSaved, updateMarked)
      <==> (exists i :: 0 <= i < |dbs| && dbs[i].removeListOfDocuments) && !(updateSaved || updateMarked)
  {
    if dbs != [] {
      RemoveOnlyAnyList(dbs[1..], updateSaved, updateMarked);
      if exists i :: 0 <= i < |dbs[1..]| && dbs[1..][i].removeListOfDocuments {
        var i :| 0 <= i < |dbs[1..]| && dbs[1..][i].removeListOfDocuments;
        assert dbs[i + 1].removeListOfDocuments;
      }
      if exists i :: 0 <= i < |dbs| && dbs[i].removeListOfDocuments {
        var i :| 0 <= i < |dbs| && dbs[i].removeListOfDocuments;
        if i > 0 {
          assert dbs[1..][i - 1].removeListOfDocuments;
        }
      }
    }
  }

  // ---------------------------------------------------------------- status

  /** The three endings `ExecuteIndexJob` logs. */
  datatype Completion = HaltedNotUpdated | HaltedPartiallyUpdated | Complete

  /** Lines 144-153: an immediate abort outranks a stop, which outranks completion. */
  function CompletionOf(stopPressed: bool, abortImmediately: bool): (r: Completion)
    ensures r == HaltedNotUpdated <==> abortImmediately
    ensures r == HaltedPartiallyUpdated <==> !abortImmediately && stopPressed
    ensures r == Complete <==> !abortImmediately && !stopPressed
  {
    if abortImmediately then HaltedNotUpdated
    else if stopPressed then HaltedPartiallyUpdated
    else Complete
  }

  // ---------------------------------------------------------------- progress

  /** `IndexProgressInfo.Step`; `Other` stands for any value the switch has no case for. */
  datatype IndexingStep =
    | StepNone | Begin | CheckingFiles | ReadingFiles | StoringWords
    | Merging | Compressing | CreatingIndex | Done | Other(code: int)

  /** The two steps that count a record. */
  predicate CountsRecord(step: IndexingStep) {
    step.ReadingFiles? || step.StoringWords?
  }

  /** `recCount` after one report. */
  function NextCount(recCount: nat, step: IndexingStep): nat {
    if step.Done? then 0
    else if CountsRecord(step) then recCount + 1
    else recCount
  }

  /** `recCount` after a series of reports, the last one last. */
  function CountAfter(recCount: nat, steps: seq<IndexingStep>): nat {
    if steps == [] then recCount
    else NextCount(CountAfter(recCount, steps[..|steps| - 1]), steps[|steps| - 1])
  }

  /** The reports after the last `Done` (all of them when there is none). */
  function SinceDone(steps: seq<IndexingStep>): (r: seq<IndexingStep>)
    ensures Done !in r
  {
    if steps == [] then []
    else if steps[|steps| - 1].Done? then []
    else SinceDone(steps[..|steps| - 1]) + [steps[|steps| - 1]]
  }

  /** How many of `steps` count a record. */
  function Counted(steps: seq<IndexingStep>): nat {
    if steps == [] then 0
    else Counted(steps[..|steps| - 1]) + (if CountsRecord(steps[|steps| - 1]) then 1 else 0)
  }

  /**
   * `recCount` is the number of reading and storing reports since the last
   * `Done`, on top of its starting value when no `Done` came.
   */
  lemma {:induction false} CountSinceDone(recCount: nat, steps: seq<IndexingStep>)
    ensures CountAfter(recCount, steps) == (if Done in steps then 0 else recCount) + Counted(SinceDone(steps))
  {
    if steps != [] {
      var front, last := steps[..|steps| - 1], steps[|steps| - 1];
      assert steps == front + [last];
      CountSinceDone(recCount, front);
      assert steps[..|steps| - 1] == front;
      if last.Done? {
        assert SinceDone(steps) == [] && Done in steps;
      } else {
        var c := if CountsRecord(last) then 1 else 0;
        assert CountAfter(recCount, steps) == CountAfter(recCount, front) + c;
        var since := SinceDone(front) + [last];
        assert SinceDone(steps) == since;
        assert since[..|since| - 1] == SinceDone(front);
        assert Counted(since) == Counted(SinceDone(front)) + c;
        assert Done in steps <==> Done in front;
      }
    }
  }

  /** What one progress report does besides counting. */
  datatype Report =
    | Logged            // a log line is written
    | Silent            // no log line
    | NullLogger        // the default case logs through a missing logger and throws

  // ---------------------------------------------------------------- the job

  /**
   * The remove list of a data source just built and reset: the manual entries
   * that mention an index table, then the identity of every row the loop
   * reaches, which from the first row never throws.
   */
  function FullRemoveList(dbs: seq<DbInfo>, be: Backend, budget: int, manual: Option<seq<string>>): seq<string>
    requires ValidCatalog(dbs) && BackendFits(dbs, be)
  {
    DrainFromFirstRow(dbs, be, budget, Pos(0, 0, 0), false);
    ManualList(dbs, manual) + Drain(dbs, be, budget, Pos(0, 0, 0), 0, false).names.value
  }

  /** What the engine is handed when a job runs: its action flags and its remove list. */
  datatype JobRun = JobRun(actionAdd: bool, actionCreate: bool, actionRemoveDeleted: bool,
                           actionRemoveListed: bool, toRemoveList: Option<seq<string>>)

  /**
   * The settings of the dtSearch `IndexJob` the indexer fills in. The remove
   * list stands for the file named by `ToRemoveListName`.
   */
  class IndexJob {
    var indexPath: string
    var storedFields: seq<string>
    var actionAdd: bool
    var actionCreate: bool
    var actionRemoveDeleted: bool
    var actionRemoveListed: bool
    var toRemoveList: Option<seq<string>>

    constructor ()
      ensures indexPath == "" && storedFields == []
      ensures !actionAdd && !actionCreate && !actionRemoveDeleted && !actionRemoveListed && toRemoveList == None
    {
      indexPath, storedFields := "", [];
      actionAdd, actionCreate, actionRemoveDeleted, actionRemoveListed := false, false, false, false;
      toRemoveList := None;
    }

    /** The job as the engine sees it when `Execute()` is called. */
    function Run(): JobRun
      reads this
    {
      JobRun(actionAdd, actionCreate, actionRemoveDeleted, actionRemoveListed, toRemoveList)
    }
  }

  // ---------------------------------------------------------------- the indexer

  /** The retrieval size the constructors taking a logger use when none is given. */
  const DefaultRecsPerRetrieval: int := 150000

  class DtSearchIndexer {
    /** `recsPerRetrieval`, `DefaultRecsPerRetrieval` unless given. */
    const recsPerRetrieval: int
    /** Whether the logger passed in is not null. */
    const hasLogger: bool

    var createOrRecreateFullIndex: bool
    var updateExistingSavedIndexes: bool
    var removeMissingDocuments: bool
    var updateMarkedAsNeedsIndexing: bool
    var removeOnly: bool
    var manualRemoveDocList: Option<seq<string>>
    var stopPressed: bool
    var abortImmediately: bool
    var indexing: bool
    var indexedItems: seq<IndexedItem>
    /** `recCount` (a `long`; its wrap-around is not modelled). */
    var recCount: nat
    /** The steps of the `ProgressInfo` copies handed to `OnProgressChanged`, in order. */
    var notified: seq<IndexingStep>
    /** The jobs executed so far, each as the engine saw it; an observation the source does not keep. */
    ghost var jobsRun: seq<JobRun>

    /** The parameterless constructor: no logger and a retrieval size of 0. */
    constructor ()
      ensures recsPerRetrieval == 0 && !hasLogger
      ensures !stopPressed && !abortImmediately && !indexing && indexedItems == [] && recCount == 0 && notified == [] && jobsRun == []
    {
      recsPerRetrieval, hasLogger := 0, false;
      createOrRecreateFullIndex, updateExistingSavedIndexes, removeMissingDocuments := false, false, false;
      updateMarkedAsNeedsIndexing, removeOnly, manualRemoveDocList := false, false, None;
      stopPressed, abortImmediately, indexing := false, false, false;
      indexedItems, recCount, notified := [], 0, [];
      jobsRun := [];
    }

    /**
     * The constructors taking a logger, which may be null (`hasLogger` false);
     * a caller that omits the retrieval size passes `DefaultRecsPerRetrieval`.
     */
    constructor WithLogger(hasLogger: bool, recsPerRetrieval: int)
      ensures this.recsPerRetrieval == recsPerRetrieval && this.hasLogger == hasLogger
      ensures !stopPressed && !abortImmediately && !indexing && indexedItems == [] && recCount == 0 && notified == [] && jobsRun == []
    {
      this.recsPerRetrieval, this.hasLogger := recsPerRetrieval, hasLogger;
      createOrRecreateFullIndex, updateExistingSavedIndexes, removeMissingDocuments := false, false, false;
      updateMarkedAsNeedsIndexing, removeOnly, manualRemoveDocList := false, false, None;
      stopPressed, abortImmediately, indexing := false, false, false;
      indexedItems, recCount, notified := [], 0, [];
      jobsRun := [];
    }

    /**
     * `IndexDatabase` over a catalog. The engine's run is outside the model:
     * `pulled` is the ledger the data source holds when an add job returns.
     */
    method IndexDatabase(indexPath: string, storedFields: seq<string>, dbInfos: seq<DbInfo>,
                         manual: Option<seq<string>>, backend: Backend, pulled: seq<IndexedItem>)
      returns (ij: IndexJob, status: Completion)
      requires ValidCatalog(dbInfos) && BackendFits(dbInfos, backend)
      modifies this`createOrRecreateFullIndex, this`updateExistingSavedIndexes, this`removeMissingDocuments,
        this`updateMarkedAsNeedsIndexing, this`removeOnly, this`manualRemoveDocList,
        this`stopPressed, this`abortImmediately, this`indexing, this`indexedItems, this`jobsRun
      ensures fresh(ij) && ij.indexPath == indexPath && ij.storedFields == storedFields
      ensures createOrRecreateFullIndex == AnySet(dbInfos, CreateOrRecreateFullIndex)
      ensures updateExistingSavedIndexes == AnySet(dbInfos, UpdateExistingSavedIndexes)
      ensures removeMissingDocuments == AnySet(dbInfos, RemoveMissingDocuments)
      ensures updateMarkedAsNeedsIndexing == AnySet(dbInfos, UpdateMarkedAsNeedsIndexing)
      ensures removeOnly == RemoveOnlyOf(dbInfos, updateExistingSavedIndexes, updateMarkedAsNeedsIndexing)
      ensures manualRemoveDocList == manual
      ensures !stopPressed && !abortImmediately && !indexing && status == Complete
      ensures removeOnly ==>
        && !ij.actionAdd && !ij.actionRemoveListed && !ij.actionCreate && !ij.actionRemoveDeleted
        && ij.toRemoveList == Some(FullRemoveList(dbInfos, backend, recsPerRetrieval, manual))
        && indexedItems == old(indexedItems)
        && jobsRun == old(jobsRun) + [JobRun(false, false, false, true, ij.toRemoveList)]
      ensures !removeOnly ==>
        && ij.actionAdd && !ij.actionRemoveListed && ij.toRemoveList == None
        && ij.actionCreate == createOrRecreateFullIndex && ij.actionRemoveDeleted == removeMissingDocuments
        && indexedItems == old(indexedItems) + pulled
        && jobsRun == old(jobsRun) + [ij.Run()]
    {
      ij := new IndexJob();
      SetRunMode(dbInfos, manual);

      var items;
      items, status := RunJob(ij, indexPath, storedFields, dbInfos, backend, pulled);
      if |items| > 0 {
        indexedItems := indexedItems + items;
      }
    }

    /**
     * Lines 65-120 after the mode is set: the data source over the catalog,
     * reset, then the job of the mode. Returns the data source's ledger.
     */
    method RunJob(ij: IndexJob, indexPath: string, storedFields: seq<string>, dbInfos: seq<DbInfo>,
                  backend: Backend, pulled: seq<IndexedItem>)
      returns (items: seq<IndexedItem>, status: Completion)
      requires ValidCatalog(dbInfos) && BackendFits(dbInfos, backend)
      modifies ij, this`indexing, this`jobsRun
      ensures ij.indexPath == indexPath && ij.storedFields == storedFields
      ensures !indexing && status == CompletionOf(stopPressed, abortImmediately)
      ensures removeOnly ==>
        && !ij.actionAdd && !ij.actionRemoveListed && ij.actionCreate == old(ij.actionCreate)
        && ij.actionRemoveDeleted == old(ij.actionRemoveDeleted)
        && ij.toRemoveList == Some(FullRemoveList(dbInfos, backend, recsPerRetrieval, manualRemoveDocList))
        && items == []
        && jobsRun == old(jobsRun) + [JobRun(false, old(ij.actionCreate), old(ij.actionRemoveDeleted), true, ij.toRemoveList)]
      ensures !removeOnly ==>
        && ij.actionAdd && ij.actionRemoveListed == old(ij.actionRemoveListed) && ij.toRemoveList == old(ij.toRemoveList)
        && ij.actionCreate == createOrRecreateFullIndex && ij.actionRemoveDeleted == removeMissingDocuments
        && items == pulled
        && jobsRun == old(jobsRun) + [ij.Run()]
    {
      ij.indexPath, ij.storedFields := indexPath, storedFields;
      var dataSource := OpenDataSource(dbInfos, backend);
      if removeOnly {
        status := RemoveListedJob(ij, dataSource, manualRemoveDocList, pulled);
      } else {
        status := AddJob(ij, dataSource, pulled);
        assert [] + pulled == pulled;
      }
      items := dataSource.indexedItems;
    }

    /** Lines 65-70 and 84: a data source over the catalog, reset to its start. */
    method OpenDataSource(dbInfos: seq<DbInfo>, backend: Backend) returns (dataSource: DbDataSource)
      requires ValidCatalog(dbInfos) && BackendFits(dbInfos, backend)
      ensures fresh(dataSource) && dataSource.Valid()
      ensures dataSource.dbInfos == dbInfos && dataSource.backend == backend && dataSource.recordsPerRetrieval == recsPerRetrieval
      ensures dataSource.pos == Pos(0, 0, 0) && dataSource.curRowIndex == 0 && !dataSource.databaseFailed
      ensures dataSource.indexedItems == []
    {
      dataSource := new DbDataSource(dbInfos, recsPerRetrieval, backend);
      dataSource.Reset();
    }

    /**
     * Lines 106-112: a job that only removes the listed documents; the data
     * source's ledger is cleared and the source reset afterwards.
     */
    method RemoveListedJob(ij: IndexJob, dataSource: DbDataSource, manual: Option<seq<string>>, pulled: seq<IndexedItem>)
      returns (status: Completion)
      requires dataSource.Valid() && dataSource.pos == Pos(0, 0, 0) && dataSource.curRowIndex == 0 && !dataSource.databaseFailed
      modifies ij`actionAdd, ij`actionRemoveListed, ij`toRemoveList, this`indexing, this`jobsRun
      modifies dataSource`hasDataSet, dataSource`tables, dataSource`pos, dataSource`databaseFailed, dataSource`errorMessage
      modifies dataSource`indexedItems, dataSource`curTableIndex, dataSource`curRowIndex
      ensures !ij.actionAdd && !ij.actionRemoveListed
      ensures ij.toRemoveList == Some(FullRemoveList(dataSource.dbInfos, dataSource.backend, dataSource.recordsPerRetrieval, manual))
      ensures dataSource.indexedItems == [] && dataSource.pos == Pos(0, 0, 0) && dataSource.Valid()
      ensures !indexing && status == CompletionOf(stopPressed, abortImmediately)
      ensures jobsRun == old(jobsRun) + [JobRun(false, ij.actionCreate, ij.actionRemoveDeleted, true, ij.toRemoveList)]
    {
      ij.actionAdd := false;
      ij.actionRemoveListed := true;
      DrainFromFirstRow(dataSource.dbInfos, dataSource.backend, dataSource.recordsPerRetrieval, Pos(0, 0, 0), false);
      ij.toRemoveList := dataSource.CreateRemoveListForUpdateRequest(manual);
      status := ExecuteIndexJob(ij, dataSource, pulled);
      dataSource.indexedItems := [];
      ij.actionRemoveListed := false;
      dataSource.Reset();
    }

    /** Lines 114-119: a job that adds, creating the index and removing deleted documents as the mode says. */
    method AddJob(ij: IndexJob, dataSource: DbDataSource, pulled: seq<IndexedItem>) returns (status: Completion)
      modifies ij`actionCreate, ij`actionRemoveDeleted, ij`actionAdd, this`indexing, this`jobsRun, dataSource`indexedItems
      ensures ij.actionAdd && ij.actionCreate == createOrRecreateFullIndex && ij.actionRemoveDeleted == removeMissingDocuments
      ensures dataSource.indexedItems == old(dataSource.indexedItems) + pulled
      ensures !indexing && status == CompletionOf(stopPressed, abortImmediately)
      ensures jobsRun == old(jobsRun) + [ij.Run()]
    {
      ij.actionCreate := createOrRecreateFullIndex;
      ij.actionRemoveDeleted := removeMissingDocuments;
      ij.actionAdd := true;
      status := ExecuteIndexJob(ij, dataSource, pulled);
    }

    /** Lines 55-63: the aggregate switches, the mode, and the cleared stop flags. */
    method SetRunMode(dbInfos: seq<DbInfo>, manual: Option<seq<string>>)
      modifies this`createOrRecreateFullIndex, this`updateExistingSavedIndexes, this`removeMissingDocuments,
        this`updateMarkedAsNeedsIndexing, this`removeOnly, this`manualRemoveDocList,
        this`stopPressed, this`abortImmediately, this`indexing
      ensures createOrRecreateFullIndex == AnySet(dbInfos, CreateOrRecreateFullIndex)
      ensures updateExistingSavedIndexes == AnySet(dbInfos, UpdateExistingSavedIndexes)
      ensures removeMissingDocuments == AnySet(dbInfos, RemoveMissingDocuments)
      ensures updateMarkedAsNeedsIndexing == AnySet(dbInfos, UpdateMarkedAsNeedsIndexing)
      ensures removeOnly == RemoveOnlyOf(dbInfos, updateExistingSavedIndexes, updateMarkedAsNeedsIndexing)
      ensures manualRemoveDocList == manual
      ensures !stopPressed && !abortImmediately && indexing
    {
      createOrRecreateFullIndex := AnySet(dbInfos, CreateOrRecreateFullIndex);
      updateExistingSavedIndexes := AnySet(dbInfos, UpdateExistingSavedIndexes);
      removeMissingDocuments := AnySet(dbInfos, RemoveMissingDocuments);
      updateMarkedAsNeedsIndexing := AnySet(dbInfos, UpdateMarkedAsNeedsIndexing);
      removeOnly := RemoveOnlyOf(dbInfos, updateExistingSavedIndexes, updateMarkedAsNeedsIndexing);
      manualRemoveDocList := manual;
      stopPressed, abortImmediately, indexing := false, false, true;
    }

    /** The overload for one database: its own index path and stored fields. */
    method IndexOneDatabase(dbInfo: DbInfo, manual: Option<seq<string>>, backend: Backend, pulled: seq<IndexedItem>)
      returns (ij: IndexJob, status: Completion)
      requires ValidCatalog([dbInfo]) && BackendFits([dbInfo], backend)
      modifies this`createOrRecreateFullIndex, this`updateExistingSavedIndexes, this`removeMissingDocuments,
        this`updateMarkedAsNeedsIndexing, this`removeOnly, this`manualRemoveDocList,
        this`stopPressed, this`abortImmediately, this`indexing, this`indexedItems, this`jobsRun
      ensures fresh(ij) && ij.indexPath == dbInfo.indexPath && ij.storedFields == dbInfo.storedFields
      ensures createOrRecreateFullIndex == dbInfo.createOrRecreateFullIndex
      ensures removeOnly == (dbInfo.removeListOfDocuments && !dbInfo.updateExistingSavedIndexes && !dbInfo.updateMarkedAsNeedsIndexing)
      ensures !indexing && status == Complete
      ensures indexedItems == old(indexedItems) + (if removeOnly then [] else pulled)
      ensures removeOnly ==>
        && !ij.actionAdd && ij.toRemoveList.Some?
        && jobsRun == old(jobsRun) + [JobRun(false, false, false, true, ij.toRemoveList)]
      ensures !removeOnly ==>
        && ij.actionAdd && ij.actionCreate == dbInfo.createOrRecreateFullIndex
        && jobsRun == old(jobsRun) + [ij.Run()]
    {
      ij, status := IndexDatabase(dbInfo.indexPath, dbInfo.storedFields, [dbInfo], manual, backend, pulled);
      assert [dbInfo][1..] == [];
      if removeOnly {
        assert indexedItems == old(indexedItems) + [];
      }
    }

    /**
     * `ExecuteIndexJob`: the engine runs with `Indexing` set, reading the
     * data source only when the job adds; then the completion is logged
     * and `Indexing` cleared.
     */
    method ExecuteIndexJob(ij: IndexJob, dataSource: DbDataSource, pulled: seq<IndexedItem>) returns (status: Completion)
      modifies this`indexing, this`jobsRun, dataSource`indexedItems
      ensures !indexing && jobsRun == old(jobsRun) + [ij.Run()]
      ensures status == CompletionOf(stopPressed, abortImmediately)
      ensures dataSource.indexedItems == old(dataSource.indexedItems) + (if ij.actionAdd then pulled else [])
    {
      indexing := true;
      jobsRun := jobsRun + [ij.Run()];
      if ij.actionAdd {
        dataSource.indexedItems := dataSource.indexedItems + pulled;
      } else {
        assert dataSource.indexedItems + [] == dataSource.indexedItems;
      }
      status := if abortImmediately then HaltedNotUpdated
        else if stopPressed then HaltedPartiallyUpdated
        else Complete;
      indexing := false;
    }

    /**
     * `HandleProgressChange` (lines 167-251): count the reading and storing
     * reports, reset on `Done`, log, then hand the report on to the
     * subscribers.
     */
    method HandleProgressChange(status: IndexingStep) returns (report: Report)
      modifies this`recCount, this`notified
      ensures report == NullLogger <==> status.Other? && !hasLogger
      ensures report == NullLogger ==> recCount == old(recCount) && notified == old(notified)
      ensures report != NullLogger ==> recCount == NextCount(old(recCount), status) && notified == old(notified) + [status]
      ensures CountsRecord(status) ==> recCount >= 1 && (report == Logged <==> hasLogger && (recCount - 1) % 100 == 0)
      ensures !CountsRecord(status) && report != NullLogger ==> (report == Logged <==> hasLogger)
    {
      match status {
        case Done =>
          report := if hasLogger then Logged else Silent;
          recCount := 0;
        case ReadingFiles =>
          recCount := recCount + 1;
          report := if (recCount - 1) % 100 == 0 && hasLogger then Logged else Silent;
        case StoringWords =>
          recCount := recCount + 1;
          report := if (recCount - 1) % 100 == 0 && hasLogger then Logged else Silent;
        case Other(_) =>
          if !hasLogger {
            return NullLogger;
          }
          report := Logged;
        case _ =>
          report := if hasLogger then Logged else Silent;
      }
      notified := notified + [status];
    }
  }

  /** From a `Done`, the `k`-th reading or storing report is logged exactly when `k` is 1 more than a multiple of 100. */
  lemma LoggedEveryHundred(steps: seq<IndexingStep>, k: nat)
    requires Done in steps && Counted(SinceDone(steps)) == k && k >= 1
    ensures CountAfter(0, steps) == k && ((CountAfter(0, steps) - 1) % 100 == 0 <==> k % 100 == 1)
  {
    CountSinceDone(0, steps);
    OneAfterHundreds(k);
  }

  lemma OneAfterHundreds(k: nat)
    requires k >= 1
    ensures (k - 1) % 100 == 0 <==> k % 100 == 1
  {
    var q, r := (k - 1) / 100, (k - 1) % 100;
    assert k == 100 * q + (r + 1);
    if r < 99 {
      assert k % 100 == r + 1 && k / 100 == q;
    } else {
      assert k == 100 * (q + 1);
      assert k % 100 == 0;
    }
  }
}
