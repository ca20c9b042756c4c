/**
 * `DbDataSource`: the document cursor over a catalog of databases. A refill
 * (`GetMoreRecords`) buffers table blocks under a row budget; `GetNextDoc`
 * reads the buffer row by row, skipping empty blocks and refilling when the
 * buffer is read out, and turns each row into one document.
 */
module DataSource {
  import opened Wrappers
  import opened Strings
  import opened Catalog
  import opened Materializer
  import opened Batching
  import opened RemoveList

  /** The row budget a data source gets when none is given. */
  const DefaultRecordsPerRetrieval: int := 150000

  /** What one `GetNextDoc` call ends in: a document, `false`, or the exception of `int.Parse`. */
  datatype Outcome = Emitted | NoMore | Thrown

  /**
   * The two loops of `GetMoreRecords` (lines 310-366) over its locals: the
   * refill position `p`, the rows counted so far and the blocks buffered.
   * Each fetch asks for the rest of the budget; a short fetch moves on to the
   * next table at offset 0, a full one stays on the table after the fetched
   * rows; a database whose tables are done moves on to the next one. A
   * throwing fetch ends the refill with its message.
   */
  method FetchBatch(dbInfos: seq<DbInfo>, backend: Backend, recordsPerRetrieval: int, start: Pos)
    returns (blocks: seq<Block>, p: Pos, fault: Option<string>)
    ensures Refill(blocks, p, fault) == Refilled(dbInfos, backend, recordsPerRetrieval, start)
  {
    p := start;
    blocks := [];
    var count: nat := 0;
    while count < recordsPerRetrieval && p.db < |dbInfos|
      invariant Fill(dbInfos, backend, recordsPerRetrieval, p, count, blocks) == Refilled(dbInfos, backend, recordsPerRetrieval, start)
      decreases Work(dbInfos, backend, p)
    {
      var curDbInfo := dbInfos[p.db];
      if p.table >= |curDbInfo.tables| {
        PastTables(dbInfos, backend, recordsPerRetrieval, p, count, blocks);
        p := Pos(p.db + 1, 0, 0);
        continue;
      }
      ghost var w0 := Work(dbInfos, backend, p);
      ghost var p0, c0 := p, count;
      while count < recordsPerRetrieval && p.table < |curDbInfo.tables|
        invariant p.db < |dbInfos| && curDbInfo == dbInfos[p.db]
        invariant Fill(dbInfos, backend, recordsPerRetrieval, p, count, blocks) == Refilled(dbInfos, backend, recordsPerRetrieval, start)
        invariant Work(dbInfos, backend, p) < w0 || (p == p0 && count == c0)
        decreases Work(dbInfos, backend, p)
      {
        if p in backend.faults {
          return blocks, p, Some(backend.faults[p]);
        }
        var rows := Window(Selected(dbInfos, backend, p.db, p.table), p.offset, recordsPerRetrieval - count);
        ghost var b, next, c2 := FetchStep(dbInfos, backend, recordsPerRetrieval, p, count, blocks);
        var table := TableBlock(dbInfos, p.db, p.table, rows);
        assert table == b;
        blocks := blocks + [table];
        count := count + |rows|;
        p := p.(offset := p.offset + |rows|);
        if count < recordsPerRetrieval {
          p := Pos(p.db, p.table + 1, 0);
        }
        assert p == next && count == c2;
      }
      if count < recordsPerRetrieval && p.table < |curDbInfo.tables| {
        // lines 361-365: the inner loop only ends when this test fails
        assert false;
      }
    }
    fault := None;
  }

  /**
   * The column loop of `GetNextDoc` (lines 129-170): each column in order is
   * one `ColumnStep`; a `DocID` without a ledger index name (`ix` is
   * `None`) or whose text does not parse throws and ends the loop.
   */
  method ReadColumns(files: map<string, FileRead>, cols: seq<string>, vals: seq<string>, ix: Option<string>, start: DocAcc)
    returns (acc: DocAcc)
    requires |vals| == |cols| && !start.thrown
    ensures acc == FoldColumns(files, cols, vals, ix, start, |cols|)
  {
    acc := start;
    for i := 0 to |cols|
      invariant acc == FoldColumns(files, cols, vals, ix, start, i) && !acc.thrown
    {
      acc := ColumnStep(files, cols, vals, ix, i, acc);
      if acc.thrown {
        FoldStaysThrown(files, cols, vals, ix, start, i + 1, |cols|);
        return;
      }
    }
  }

  /**
   * Lines 94-170 on values: the identity of the row, then the column loop
   * over the cleaned cells, starting from the display name of the key columns.
   */
  method BuildDocument(dbs: seq<DbInfo>, files: map<string, FileRead>, e: Entry) returns (name: string, acc: DocAcc)
    requires ValidCatalog(dbs) && EntryShaped(dbs, e)
    ensures name == DocName(dbs, e) && acc == Materialize(dbs, files, e)
  {
    name := DocName(dbs, e);
    acc := ReadColumns(files, e.columns, CleanRow(e.row), LedgerIndex(dbs, e.tableName), StartDoc(dbs, e));
  }

  /**
   * The `while (GetMoreRecords() && !bDatabaseFailed)` loop of
   * `CreateRemoveListForUpdateRequest` over its locals: each refill is
   * `FetchBatch`, each buffer is named by `CollectNames`. The result is the
   * names collected (`None` for the exception) and the last refill.
   */
  method DrainRefills(dbs: seq<DbInfo>, be: Backend, budget: int, start: Pos, cR: nat, failed: bool)
    returns (names: Option<seq<string>>, last: Refill)
    requires ValidCatalog(dbs) && BackendFits(dbs, be) && PosValid(dbs, start)
    ensures var d := Drain(dbs, be, budget, start, cR, failed);
      names == d.names && last == Refilled(dbs, be, budget, d.last)
    ensures BlocksShaped(dbs, last.blocks) && PosValid(dbs, last.next)
  {
    var at := start;
    var drained: seq<string> := [];
    var blocks, next, fault := FetchBatch(dbs, be, budget, start);
    var failedNow := failed || fault.Some?;
    PrependNothing(Drain(dbs, be, budget, start, cR, failed));
    FillShaped(dbs, be, budget, start, 0, []);
    FillKeepsPos(dbs, be, budget, start, 0, []);
    while fault.None? && blocks != [] && !failedNow
      invariant PosValid(dbs, at) && Refill(blocks, next, fault) == Refilled(dbs, be, budget, at)
      invariant BlocksShaped(dbs, blocks) && PosValid(dbs, next)
      invariant failedNow == (failed || fault.Some?)
      invariant Drain(dbs, be, budget, start, cR, failed) == Prepend(drained, Drain(dbs, be, budget, at, cR, failed))
      decreases Work(dbs, be, at)
    {
      var ns := CollectNames(dbs, blocks, cR);
      if ns.None? {
        return None, Refill(blocks, next, fault);
      }
      RefillProgress(dbs, be, budget, at);
      PrependTwice(drained, ns.value, Drain(dbs, be, budget, next, cR, false));
      drained := drained + ns.value;
      at := next;
      blocks, next, fault := FetchBatch(dbs, be, budget, at);
      failedNow := failedNow || fault.Some?;
      FillShaped(dbs, be, budget, at, 0, []);
      FillKeepsPos(dbs, be, budget, at, 0, []);
    }
    assert drained + [] == drained;
    names, last := Some(drained), Refill(blocks, next, fault);
  }

  class DbDataSource {
    const dbInfos: seq<DbInfo>
    const recordsPerRetrieval: int
    /** The databases behind the catalog (their contexts, connections and the image files). */
    const backend: Backend

    /** The refill position `dbInfoIndex`, `dbInfoEntityIndex`, `dbInfoRowOffset`. */
    var pos: Pos
    /** Whether `dataSet` has been created. */
    var hasDataSet: bool
    /** `dataSet.Tables`. */
    var tables: seq<Block>
    var curTableIndex: nat
    var curRowIndex: nat
    var databaseFailed: bool
    var errorMessage: string
    var indexedItems: seq<IndexedItem>

    // the current document
    var docName: string
    var docDisplayName: string
    var docFields: string
    var docText: string
    var docIsFile: bool
    var docBytes: seq<bv8>
    var haveDocBytes: bool

    /**
     * The catalog resolves every table it names (the `.Single` lookups), the
     * backend has a table for each, the buffer holds catalog tables, and no
     * data set means nothing has moved yet.
     */
    ghost predicate Valid()
      reads this`tables, this`pos, this`hasDataSet
    {
      && ValidCatalog(dbInfos)
      && BackendFits(dbInfos, backend)
      && BlocksShaped(dbInfos, tables)
      && PosValid(dbInfos, pos)
      && (!hasDataSet ==> tables == [] && pos == Pos(0, 0, 0))
    }

    /** The read position stands where reading it loses no buffered row. */
    predicate Positioned()
      reads this`tables, this`curTableIndex, this`curRowIndex
    {
      CursorOk(tables, curTableIndex, curRowIndex)
    }

    /** The rows still to be read: the unread part of the buffer, then everything the refill position has still to fetch. */
    ghost function Remaining(): seq<Entry>
      reads this`tables, this`curTableIndex, this`curRowIndex, this`pos
    {
      Unread(tables, curTableIndex, curRowIndex) + RestFrom(dbInfos, backend, pos)
    }

    /** `WasError`. */
    predicate WasError()
      reads this`errorMessage
    {
      !IsBlank(errorMessage)
    }

    /** `DbDataSource(List<DbInfo> dbInfos, int recsPerRetrieval)`. */
    constructor (dbInfos: seq<DbInfo>, recsPerRetrieval: int, backend: Backend)
      requires ValidCatalog(dbInfos) && BackendFits(dbInfos, backend)
      ensures this.dbInfos == dbInfos && recordsPerRetrieval == recsPerRetrieval && this.backend == backend
      ensures Valid() && Positioned() && !hasDataSet && !databaseFailed && !WasError() && indexedItems == []
      ensures Remaining() == AllRows(dbInfos, backend)
    {
      this.dbInfos := dbInfos;
      recordsPerRetrieval := recsPerRetrieval;
      this.backend := backend;
      pos := Pos(0, 0, 0);
      hasDataSet := false;
      tables := [];
      curTableIndex, curRowIndex := 0, 0;
      databaseFailed := false;
      errorMessage := "";
      indexedItems := [];
      docName, docDisplayName, docFields, docText := "", "", "", "";
      docIsFile := false;
      docBytes := [];
      haveDocBytes := false;
    }

    /** `DbDataSource(DbInfo dbInfo, int recsPerRetrieval)`: a catalog of one database. */
    constructor Single(dbInfo: DbInfo, recsPerRetrieval: int, backend: Backend)
      requires ValidCatalog([dbInfo]) && BackendFits([dbInfo], backend)
      ensures dbInfos == [dbInfo] && recordsPerRetrieval == recsPerRetrieval && this.backend == backend
      ensures Valid() && Positioned() && !hasDataSet && !databaseFailed && !WasError() && indexedItems == []
      ensures Remaining() == AllRows(dbInfos, backend)
    {
      dbInfos := [dbInfo];
      recordsPerRetrieval := recsPerRetrieval;
      this.backend := backend;
      pos := Pos(0, 0, 0);
      hasDataSet := false;
      tables := [];
      curTableIndex, curRowIndex := 0, 0;
      databaseFailed := false;
      errorMessage := "";
      indexedItems := [];
      docName, docDisplayName, docFields, docText := "", "", "", "";
      docIsFile := false;
      docBytes := [];
      haveDocBytes := false;
    }

    /**
     * One refill: the buffer is emptied and filled table by table (the loops
     * are `FetchBatch`). A throwing fetch keeps the blocks already buffered,
     * appends its message and sets the failure flag. The result is whether a
     * block was buffered without a failure.
     */
    method GetMoreRecords() returns (r: bool)
      requires Valid()
      modifies this`hasDataSet, this`tables, this`pos, this`databaseFailed, this`errorMessage
      ensures Valid() && hasDataSet
      ensures var f := Refilled(dbInfos, backend, recordsPerRetrieval, old(pos));
        && tables == f.blocks
        && pos == f.next
        && databaseFailed == (old(databaseFailed) || f.error.Some?)
        && errorMessage == (if f.error.Some? then AppendError(old(errorMessage), f.error.value) else old(errorMessage))
        && r == (f.error.None? && f.blocks != [])
    {
      FillKeepsPos(dbInfos, backend, recordsPerRetrieval, pos, 0, []);
      FillShaped(dbInfos, backend, recordsPerRetrieval, pos, 0, []);
      hasDataSet := true;
      var blocks, p, fault := FetchBatch(dbInfos, backend, recordsPerRetrieval, pos);
      tables, pos := blocks, p;
      if fault.Some? {
        // the catch of lines 355-359
        errorMessage := AppendError(errorMessage, fault.value);
        databaseFailed := true;
        return false;
      }
      r := |tables| > 0;
    }

    /** The document fields hold what `GetNextDoc` builds from `row`. */
    ghost predicate HoldsDocument(row: Entry)
      reads this`docName, this`docDisplayName, this`docFields, this`docBytes, this`haveDocBytes, this`docText, this`docIsFile
      requires ValidCatalog(dbInfos) && EntryShaped(dbInfos, row)
    {
      var a := Materialize(dbInfos, backend.files, row);
      && docName == DocName(dbInfos, row)
      && docDisplayName == a.displayName
      && docFields == a.fields
      && docBytes == a.bytes && haveDocBytes == a.haveBytes
      && docText == "" && !docIsFile
    }

    /**
     * The document fields hold `row`, and reading its columns appended its
     * items to the ones indexed `before`; `thrown` is whether `int.Parse`
     * threw on it.
     */
    ghost predicate Indexed(row: Entry, before: seq<IndexedItem>, thrown: bool)
      reads this`indexedItems, this`docName, this`docDisplayName, this`docFields, this`docBytes, this`haveDocBytes, this`docText, this`docIsFile
    {
      && ValidCatalog(dbInfos) && EntryShaped(dbInfos, row) && HoldsDocument(row)
      && var a := Materialize(dbInfos, backend.files, row);
        indexedItems == before + a.items && thrown == a.thrown
    }

    /**
     * `GetNextDoc`: refused after a failure; the first call rewinds; then the
     * read position is brought onto a row (`SeekRow`) and that row becomes the
     * current document (`EmitRow`). From a well-placed read position an
     * emitted document takes exactly its row off the rows still to be read, a
     * throwing `int.Parse` takes nothing, and `false` without a failure means
     * nothing is left (or the budget allows no rows).
     */
    method GetNextDoc() returns (outcome: Outcome, ghost row: Entry)
      requires Valid()
      modifies this
      ensures Valid()
      ensures old(databaseFailed) ==> outcome == NoMore && unchanged(this)
      ensures old(Positioned()) ==> match outcome
        case Emitted => Positioned() && old(Remaining()) == [row] + Remaining()
        case Thrown => Positioned() && Remaining() == old(Remaining()) && Remaining() != [] && Remaining()[0] == row
        case NoMore => databaseFailed || (Positioned() && Remaining() == old(Remaining()) && (recordsPerRetrieval <= 0 || Remaining() == []))
      ensures outcome != NoMore ==> Indexed(row, old(indexedItems), outcome == Thrown)
      ensures outcome != NoMore ==> !databaseFailed && errorMessage == old(errorMessage)
      ensures outcome == NoMore ==> indexedItems == old(indexedItems)
      ensures outcome == NoMore ==>
        && docName == old(docName) && docDisplayName == old(docDisplayName) && docFields == old(docFields)
        && docText == old(docText) && docIsFile == old(docIsFile)
        && docBytes == old(docBytes) && haveDocBytes == old(haveDocBytes)
    {
      row := Entry("", [], []);
      var found := MoveToRow();
      if !found {
        return NoMore, row;
      }
      outcome, row := EmitNext();
    }

    /**
     * The row under the read position becomes the current document: an
     * emitted one is taken off the front of the rows still to be read, a
     * thrown one stays there.
     */
    method EmitNext() returns (outcome: Outcome, ghost row: Entry)
      requires Valid() && curTableIndex < |tables| && curRowIndex < |tables[curTableIndex].rows|
      modifies this`indexedItems, this`docName, this`docDisplayName, this`docFields, this`docText, this`docIsFile
      modifies this`docBytes, this`haveDocBytes, this`curTableIndex, this`curRowIndex
      ensures Valid() && outcome != NoMore
      ensures Indexed(row, old(indexedItems), outcome == Thrown)
      ensures old(Positioned()) ==> match outcome
        case Emitted => Positioned() && old(Remaining()) == [row] + Remaining()
        case Thrown => Positioned() && Remaining() == old(Remaining()) && Remaining() != [] && Remaining()[0] == row
        case NoMore => true
    {
      ghost var t, r := curTableIndex, curRowIndex;
      EmitKeepsOrder(tables, t, r, RestFrom(dbInfos, backend, pos));
      outcome, row := EmitRow();
    }

    /**
     * Lines 66-92: refuse after a failure, rewind on the first call, then
     * bring the read position onto a row.
     */
    method MoveToRow() returns (found: bool)
      requires Valid()
      modifies this`hasDataSet, this`tables, this`pos, this`databaseFailed, this`errorMessage, this`curTableIndex, this`curRowIndex
      ensures Valid()
      ensures old(databaseFailed) ==> !found && unchanged(this)
      ensures found ==> !databaseFailed && errorMessage == old(errorMessage)
      ensures found ==> curTableIndex < |tables| && curRowIndex < |tables[curTableIndex].rows|
      ensures old(Positioned()) ==>
        if found then Positioned() && Remaining() == old(Remaining())
        else databaseFailed || (Positioned() && Remaining() == old(Remaining()) && (recordsPerRetrieval <= 0 || Remaining() == []))
    {
      if databaseFailed {
        return false;
      }
      if !hasDataSet {
        var ok := StartReading();
        if !ok {
          return false;
        }
      }
      found := SeekRow();
    }

    /**
     * Lines 70-75: the first call rewinds. Nothing has been read yet, so the
     * rows still to be read stay the same; a `false` without a failure means
     * there are none (or the budget allows no rows).
     */
    method StartReading() returns (ok: bool)
      requires Valid() && !hasDataSet && !databaseFailed
      modifies this`hasDataSet, this`tables, this`pos, this`databaseFailed, this`errorMessage, this`curTableIndex, this`curRowIndex
      ensures Valid() && Positioned() && Remaining() == old(Remaining())
      ensures ok ==> hasDataSet && !databaseFailed && errorMessage == old(errorMessage)
      ensures !ok ==> databaseFailed || recordsPerRetrieval <= 0 || Remaining() == []
    {
      ok := Rewind();
      RefillEnds(dbInfos, backend, recordsPerRetrieval, Pos(0, 0, 0));
      ok := ok && !databaseFailed;
    }

    /**
     * Lines 77-92: refill when the read position has run out of the buffer
     * (the corrected test of line 78), then skip empty blocks.
     */
    method SeekRow() returns (found: bool)
      requires Valid() && hasDataSet && !databaseFailed
      modifies this`hasDataSet, this`tables, this`pos, this`databaseFailed, this`errorMessage, this`curTableIndex, this`curRowIndex
      ensures Valid() && hasDataSet
      ensures found ==> !databaseFailed && errorMessage == old(errorMessage)
      ensures found ==> curTableIndex < |tables| && curRowIndex < |tables[curTableIndex].rows|
      ensures old(Positioned()) ==>
        if found then Positioned() && Remaining() == old(Remaining())
        else databaseFailed || (Positioned() && Remaining() == old(Remaining()) && (recordsPerRetrieval <= 0 || Remaining() == []))
    {
      if NeedsRefill(tables, curTableIndex, curRowIndex) {
        if Positioned() {
          RefillDiscardsNothing(tables, curTableIndex, curRowIndex);
        }
        found := RefillBuffer();
        if !found {
          return;
        }
      }
      NoRefillOnRow(tables, curTableIndex, curRowIndex);
      found := SkipEmptyBlocks();
    }

    /** Lines 86-92: step over empty blocks until the read position is on a row. */
    method SkipEmptyBlocks() returns (found: bool)
      requires Valid() && hasDataSet && !databaseFailed
      requires curTableIndex < |tables| && (curRowIndex < |tables[curTableIndex].rows| || curRowIndex == 0)
      modifies this`hasDataSet, this`tables, this`pos, this`databaseFailed, this`errorMessage, this`curTableIndex, this`curRowIndex
      ensures Valid() && hasDataSet
      ensures found ==> !databaseFailed && errorMessage == old(errorMessage)
      ensures found ==> curTableIndex < |tables| && curRowIndex < |tables[curTableIndex].rows|
      ensures old(Positioned()) ==>
        if found then Positioned() && Remaining() == old(Remaining())
        else databaseFailed || (Positioned() && Remaining() == old(Remaining()) && (recordsPerRetrieval <= 0 || Remaining() == []))
    {
      ghost var placed, rest := Positioned(), Remaining();
      while tables[curTableIndex].rows == []
        invariant Valid() && hasDataSet && !databaseFailed && errorMessage == old(errorMessage)
        invariant curTableIndex < |tables| && (curRowIndex < |tables[curTableIndex].rows| || curRowIndex == 0)
        invariant placed ==> Positioned() && Remaining() == rest
        decreases Work(dbInfos, backend, pos), |tables| - curTableIndex
      {
        found := PassEmptyBlock();
        if !found {
          return;
        }
      }
      found := true;
    }

    /**
     * One pass of the skip loop: the next block, and when the buffer runs out
     * either the refusal of line 89 (no database left) or the jump back to
     * the refill of line 78.
     */
    method PassEmptyBlock() returns (ok: bool)
      requires Valid() && hasDataSet && !databaseFailed
      requires curTableIndex < |tables| && tables[curTableIndex].rows == [] && curRowIndex == 0
      modifies this`hasDataSet, this`tables, this`pos, this`databaseFailed, this`errorMessage, this`curTableIndex, this`curRowIndex
      ensures Valid() && hasDataSet
      ensures ok ==> !databaseFailed && errorMessage == old(errorMessage)
      ensures ok ==> curTableIndex < |tables| && (curRowIndex < |tables[curTableIndex].rows| || curRowIndex == 0)
      ensures ok ==> (Work(dbInfos, backend, pos) < Work(dbInfos, backend, old(pos))
                      || (pos == old(pos) && tables == old(tables) && curTableIndex > old(curTableIndex)))
      ensures old(Positioned()) ==>
        if ok then Positioned() && Remaining() == old(Remaining())
        else databaseFailed || (Positioned() && Remaining() == old(Remaining()) && (recordsPerRetrieval <= 0 || Remaining() == []))
    {
      UnreadSkip(tables, curTableIndex);
      curTableIndex := curTableIndex + 1;
      if curTableIndex < |tables| {
        return true;
      }
      if pos.db >= |dbInfos| {
        RestFromEnd(dbInfos, backend, pos);
        return false;
      }
      // the jump back to line 77, where the refill test now holds
      ok := RefillBuffer();
    }

    /**
     * Lines 78-84 when the refill test holds: refill, refuse on a failure or
     * an empty buffer, and read from the start of the new buffer. Nothing
     * unread is discarded when the buffer was read out.
     */
    method RefillBuffer() returns (ok: bool)
      requires Valid() && hasDataSet && !databaseFailed
      modifies this`hasDataSet, this`tables, this`pos, this`databaseFailed, this`errorMessage, this`curTableIndex, this`curRowIndex
      ensures Valid() && hasDataSet
      ensures ok ==> !databaseFailed && errorMessage == old(errorMessage)
      ensures ok ==> |tables| > 0 && curTableIndex == 0 && curRowIndex == 0
      ensures ok ==> Work(dbInfos, backend, pos) < Work(dbInfos, backend, old(pos))
      ensures old(Unread(tables, curTableIndex, curRowIndex)) == [] ==>
        if ok then Positioned() && Remaining() == old(Remaining())
        else databaseFailed || (Positioned() && Remaining() == old(Remaining()) && (recordsPerRetrieval <= 0 || Remaining() == []))
    {
      ghost var p := pos;
      var more := GetMoreRecords();
      RefillCovers(dbInfos, backend, recordsPerRetrieval, p);
      RefillProgress(dbInfos, backend, recordsPerRetrieval, p);
      RefillEnds(dbInfos, backend, recordsPerRetrieval, p);
      if !more || databaseFailed || |tables| == 0 {
        return false;
      }
      curTableIndex, curRowIndex := 0, 0;
      UnreadAll(tables);
      ok := true;
    }

    /**
     * Lines 94-180: the row under the read position becomes the current
     * document. The per-document state is reset, the identity and display
     * name are built from the key columns, and the columns are read in order
     * (the fold of `Materialize`); a `DocID` that does not parse, or whose
     * ledger lookup fails, throws before the read position moves, otherwise the read position advances.
     */
    method EmitRow() returns (outcome: Outcome, ghost row: Entry)
      requires Valid() && curTableIndex < |tables| && curRowIndex < |tables[curTableIndex].rows|
      modifies this`indexedItems, this`docName, this`docDisplayName, this`docFields, this`docText, this`docIsFile
      modifies this`docBytes, this`haveDocBytes, this`curTableIndex, this`curRowIndex
      ensures Valid() && outcome != NoMore
      ensures row == Entry(tables[old(curTableIndex)].tableName, tables[old(curTableIndex)].columns,
                           tables[old(curTableIndex)].rows[old(curRowIndex)])
      ensures Indexed(row, old(indexedItems), outcome == Thrown)
      ensures outcome == Thrown ==> curTableIndex == old(curTableIndex) && curRowIndex == old(curRowIndex)
      ensures outcome == Emitted ==> (curTableIndex, curRowIndex) == AdvanceAfterEmit(tables, old(curTableIndex), old(curRowIndex))
    {
      var curTable := tables[curTableIndex];
      var e := Entry(curTable.tableName, curTable.columns, curTable.rows[curRowIndex]);
      row := e;
      ShapedEntry(dbInfos, curTable, curRowIndex);
      var thrown := LoadDocument(e);
      if thrown {
        return Thrown, row;
      }
      AdvanceRead();
      outcome := Emitted;
    }

    /**
     * Lines 94-170: the per-document state is reset, the identity and display
     * name are built from the key columns, and the columns are read in order;
     * the result is whether `int.Parse` threw.
     */
    method LoadDocument(e: Entry) returns (thrown: bool)
      requires ValidCatalog(dbInfos) && EntryShaped(dbInfos, e)
      modifies this`indexedItems, this`docName, this`docDisplayName, this`docFields, this`docText, this`docIsFile
      modifies this`docBytes, this`haveDocBytes
      ensures Indexed(e, old(indexedItems), thrown)
    {
      var name, acc := BuildDocument(dbInfos, backend.files, e);
      docName, docText, docIsFile := name, "", false;
      docDisplayName, docFields, docBytes, haveDocBytes := acc.displayName, acc.fields, acc.bytes, acc.haveBytes;
      indexedItems := indexedItems + acc.items;
      thrown := acc.thrown;
    }

    /** Lines 172-179: the next row, or the next block when this one is read out and another follows. */
    method AdvanceRead()
      requires curTableIndex < |tables| && curRowIndex < |tables[curTableIndex].rows|
      modifies this`curTableIndex, this`curRowIndex
      ensures (curTableIndex, curRowIndex) == AdvanceAfterEmit(tables, old(curTableIndex), old(curRowIndex))
    {
      curRowIndex := curRowIndex + 1;
      if curRowIndex >= |tables[curTableIndex].rows| && curTableIndex < |tables| - 1 {
        curTableIndex := curTableIndex + 1;
        curRowIndex := 0;
      }
    }

    /**
     * `CreateRemoveListForUpdateRequest` (lines 183-213): the manual entries
     * that mention a catalog table, then one identity per buffered row over
     * refills from the current refill position until a refill throws or buffers
     * nothing, or the failure flag is set (the loop is `DrainRefills`). `None`
     * is the exception of `Rows[curRowIndex]` on a block that is too short.
     * The state is the one the last refill left.
     */
    method CreateRemoveListForUpdateRequest(manual: Option<seq<string>>) returns (r: Option<seq<string>>)
      requires Valid()
      modifies this`hasDataSet, this`tables, this`pos, this`databaseFailed, this`errorMessage
      ensures Valid() && hasDataSet
      ensures var d := Drain(dbInfos, backend, recordsPerRetrieval, old(pos), curRowIndex, old(databaseFailed));
        var f := Refilled(dbInfos, backend, recordsPerRetrieval, d.last);
        && r == (if d.names.None? then None else Some(ManualList(dbInfos, manual) + d.names.value))
        && tables == f.blocks && pos == f.next
        && databaseFailed == (old(databaseFailed) || f.error.Some?)
        && errorMessage == (if f.error.Some? then AppendError(old(errorMessage), f.error.value) else old(errorMessage))
    {
      var docNamesToDelete := ManualList(dbInfos, manual);
      var names, last := DrainRefills(dbInfos, backend, recordsPerRetrieval, pos, curRowIndex, databaseFailed);
      hasDataSet := true;
      tables, pos := last.blocks, last.next;
      if last.error.Some? {
        errorMessage := AppendError(errorMessage, last.error.value);
        databaseFailed := true;
      }
      r := if names.None? then None else Some(docNamesToDelete + names.value);
    }

    /** Every position counter back to zero; the buffer, the flag and the message stay. */
    method Reset()
      requires Valid()
      modifies this`pos, this`curTableIndex, this`curRowIndex
      ensures Valid() && Positioned()
      ensures pos == Pos(0, 0, 0) && curTableIndex == 0 && curRowIndex == 0
      ensures Remaining() == Flatten(tables) + AllRows(dbInfos, backend)
    {
      pos := Pos(0, 0, 0);
      curTableIndex, curRowIndex := 0, 0;
      UnreadAll(tables);
    }

    /**
     * Restart from the first table of the first database and refill; refused
     * after a failure or for an empty catalog. After it, everything is still to
     * be read, whether or not the refill buffered anything.
     */
    method Rewind() returns (r: bool)
      requires Valid()
      modifies this`hasDataSet, this`tables, this`pos, this`databaseFailed, this`errorMessage, this`curTableIndex, this`curRowIndex
      ensures Valid()
      ensures old(databaseFailed) || dbInfos == [] ==> !r && unchanged(this)
      ensures !old(databaseFailed) && dbInfos != [] ==>
        var f := Refilled(dbInfos, backend, recordsPerRetrieval, Pos(0, 0, 0));
        && hasDataSet && curTableIndex == 0 && curRowIndex == 0
        && tables == f.blocks && pos == f.next
        && databaseFailed == f.error.Some?
        && errorMessage == (if f.error.Some? then AppendError(old(errorMessage), f.error.value) else old(errorMessage))
        && r == (f.error.None? && f.blocks != [])
        && Positioned() && Remaining() == AllRows(dbInfos, backend)
    {
      if databaseFailed || |dbInfos| == 0 {
        return false;
      }
      Reset();
      r := GetMoreRecords();
      r := r && !databaseFailed;
      RefillCovers(dbInfos, backend, recordsPerRetrieval, Pos(0, 0, 0));
      UnreadAll(tables);
    }
  }
}
