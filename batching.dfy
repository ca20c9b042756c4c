/**
 * The refill of `GetMoreRecords` as a specification: what each table would
 * return, the blocks one refill buffers under the row budget, where the
 * refill position ends up, and the rows still to come from a position.
 */
module Batching {
  import opened Wrappers
  import opened Strings
  import opened Catalog
  import opened Materializer

  /** The refill position: `dbInfoIndex`, `dbInfoEntityIndex`, `dbInfoRowOffset`. */
  datatype Pos = Pos(db: nat, table: nat, offset: nat)

  /** A stored row: the values of the selected fields and its `NeedsIndexing` mark. */
  datatype StoredRow = StoredRow(values: seq<Value>, needsIndexing: bool)

  /**
   * What the databases hold: `store[i][j]` is table `j` of database `i` in
   * key order. The query for that table at offset `o` throws with message
   * `faults[Pos(i, j, o)]`. `files` serves the `Image_Loc` reads.
   */
  datatype Backend = Backend(store: seq<seq<seq<StoredRow>>>, faults: map<Pos, string>, files: map<string, FileRead>)

  /** The backend has a table for every catalog table, with rows as wide as its field list. */
  ghost predicate BackendFits(dbs: seq<DbInfo>, be: Backend) {
    && |be.store| == |dbs|
    && (forall i :: 0 <= i < |dbs| ==> |be.store[i]| == |dbs[i].tables|)
    && (forall i, j, k :: HasTable(dbs, i, j) && 0 <= k < |be.store[i][j]| ==>
          |be.store[i][j][k].values| == |TableAt(dbs, i, j).fieldsToIndex|)
  }

  // ---------------------------------------------------------------- selection and windows

  /** `WHERE [NeedsIndexing] = 1`: the marked rows, in order. */
  function Marked(rows: seq<StoredRow>): (r: seq<seq<Value>>)
    ensures |r| <= |rows|
  {
    if rows == [] then []
    else (if rows[0].needsIndexing then [rows[0].values] else []) + Marked(rows[1..])
  }

  /** A row's values are selected exactly when some marked row carries them. */
  lemma {:induction false} MarkedMembers(rows: seq<StoredRow>, v: seq<Value>)
    ensures v in Marked(rows) <==> exists k :: 0 <= k < |rows| && rows[k].needsIndexing && rows[k].values == v
  {
    if rows != [] {
      MarkedMembers(rows[1..], v);
      if exists k :: 0 <= k < |rows| && rows[k].needsIndexing && rows[k].values == v {
        var k :| 0 <= k < |rows| && rows[k].needsIndexing && rows[k].values == v;
        if k > 0 {
          assert rows[1..][k - 1] == rows[k];
        }
      }
      if exists k :: 0 <= k < |rows[1..]| && rows[1..][k].needsIndexing && rows[1..][k].values == v {
        var k :| 0 <= k < |rows[1..]| && rows[1..][k].needsIndexing && rows[1..][k].values == v;
        assert rows[k + 1] == rows[1..][k];
      }
    }
  }

  /** The selection keeps the order of the rows: a row added at the end is selected last, if marked. */
  lemma {:induction false} MarkedAppend(rows: seq<StoredRow>, x: StoredRow)
    ensures Marked(rows + [x]) == Marked(rows) + (if x.needsIndexing then [x.values] else [])
  {
    if rows == [] {
      assert rows + [x] == [x] && [x][1..] == [];
    } else {
      assert (rows + [x])[1..] == rows[1..] + [x];
      MarkedAppend(rows[1..], x);
    }
  }

  /** Filtering keeps the rows as wide as they were. */
  lemma {:induction false} MarkedWidth(rows: seq<StoredRow>, w: nat)
    requires forall k :: 0 <= k < |rows| ==> |rows[k].values| == w
    ensures forall k :: 0 <= k < |Marked(rows)| ==> |Marked(rows)[k]| == w
  {
    if rows != [] {
      MarkedWidth(rows[1..], w);
    }
  }

  /** No `WHERE`: every row, in order. */
  function AllValues(rows: seq<StoredRow>): (r: seq<seq<Value>>)
    ensures |r| == |rows|
  {
    if rows == [] then [] else [rows[0].values] + AllValues(rows[1..])
  }

  lemma {:induction false} AllValuesWidth(rows: seq<StoredRow>, w: nat)
    requires forall k :: 0 <= k < |rows| ==> |rows[k].values| == w
    ensures forall k :: 0 <= k < |AllValues(rows)| ==> |AllValues(rows)[k]| == w
  {
    if rows != [] {
      AllValuesWidth(rows[1..], w);
    }
  }

  /**
   * The rows a refill query selects from table `j` of database `i`: the
   * marked rows when `UpdateMarkedAsNeedsIndexing` is set, none (`WHERE 0 = 1`)
   * when only `RemoveListOfDocuments` is, and all rows otherwise.
   */
  function Selected(dbs: seq<DbInfo>, be: Backend, i: nat, j: nat): seq<seq<Value>>
    requires HasTable(dbs, i, j)
  {
    var rows := if i < |be.store| && j < |be.store[i]| then be.store[i][j] else [];
    if dbs[i].updateMarkedAsNeedsIndexing then Marked(rows)
    else if dbs[i].removeListOfDocuments then []
    else AllValues(rows)
  }

  /** The selected rows of a fitting backend are as wide as the table's field list. */
  lemma SelectedWidth(dbs: seq<DbInfo>, be: Backend, i: nat, j: nat)
    requires BackendFits(dbs, be) && HasTable(dbs, i, j)
    ensures var r := Selected(dbs, be, i, j);
      forall k :: 0 <= k < |r| ==> |r[k]| == |TableAt(dbs, i, j).fieldsToIndex|
  {
    MarkedWidth(be.store[i][j], |TableAt(dbs, i, j).fieldsToIndex|);
    AllValuesWidth(be.store[i][j], |TableAt(dbs, i, j).fieldsToIndex|);
  }

  /** The rows from `off` on (`OFFSET off ROWS`); nothing past the end. */
  function Drop<T>(rows: seq<T>, off: nat): (r: seq<T>)
    ensures |r| == if off <= |rows| then |rows| - off else 0
  {
    if off <= |rows| then rows[off..] else []
  }

  /** `OFFSET off ROWS FETCH NEXT limit ROWS ONLY`. */
  function Window<T>(rows: seq<T>, off: nat, limit: nat): (r: seq<T>)
    ensures |r| <= limit
    ensures |r| < limit ==> r == Drop(rows, off)
    ensures r <= Drop(rows, off)
  {
    var d := Drop(rows, off);
    if limit < |d| then d[..limit] else d
  }

  /** A window filled to its limit leaves fewer rows after it than there were from its offset. */
  lemma WindowFull<T>(rows: seq<T>, off: nat, limit: nat)
    requires limit > 0 && |Window(rows, off, limit)| >= limit
    ensures |Drop(rows, off + |Window(rows, off, limit)|)| < |Drop(rows, off)|
  {
  }

  /** Taking a window and then the rows after it is the same as the rows from the offset. */
  lemma WindowThenDrop<T>(rows: seq<T>, off: nat, limit: nat)
    ensures Window(rows, off, limit) + Drop(rows, off + |Window(rows, off, limit)|) == Drop(rows, off)
  {
    var w := Window(rows, off, limit);
    if off <= |rows| {
      assert rows[off..] == rows[off..off + |w|] + rows[off + |w|..];
    }
  }

  // ---------------------------------------------------------------- entries

  /** The rows of a block together with the block's name and columns. */
  function Entries(tableName: string, columns: seq<string>, rows: seq<seq<Value>>): seq<Entry> {
    if rows == [] then [] else [Entry(tableName, columns, rows[0])] + Entries(tableName, columns, rows[1..])
  }

  lemma {:induction false} EntriesAppend(tableName: string, columns: seq<string>, a: seq<seq<Value>>, b: seq<seq<Value>>)
    ensures Entries(tableName, columns, a + b) == Entries(tableName, columns, a) + Entries(tableName, columns, b)
  {
    if a != [] {
      assert (a + b)[1..] == a[1..] + b;
      EntriesAppend(tableName, columns, a[1..], b);
    } else {
      assert a + b == b;
    }
  }

  function BlockEntries(b: Block): seq<Entry> {
    Entries(b.tableName, b.columns, b.rows)
  }

  /** Every buffered row, block by block, in buffer order. */
  function Flatten(blocks: seq<Block>): seq<Entry> {
    if blocks == [] then [] else BlockEntries(blocks[0]) + Flatten(blocks[1..])
  }

  lemma {:induction false} FlattenAppend(blocks: seq<Block>, b: Block)
    ensures Flatten(blocks + [b]) == Flatten(blocks) + BlockEntries(b)
  {
    if blocks != [] {
      assert (blocks + [b])[1..] == blocks[1..] + [b];
      FlattenAppend(blocks[1..], b);
    } else {
      assert [b][1..] == [];
    }
  }

  /** The total number of buffered rows. */
  function TotalRows(blocks: seq<Block>): nat {
    if blocks == [] then 0 else |blocks[0].rows| + TotalRows(blocks[1..])
  }

  lemma {:induction false} TotalRowsAppend(blocks: seq<Block>, b: Block)
    ensures TotalRows(blocks + [b]) == TotalRows(blocks) + |b.rows|
  {
    if blocks != [] {
      assert (blocks + [b])[1..] == blocks[1..] + [b];
      TotalRowsAppend(blocks[1..], b);
    } else {
      assert [b][1..] == [];
    }
  }

  /** The `DataTable` a refill builds for table `j` of database `i`. */
  function TableBlock(dbs: seq<DbInfo>, i: nat, j: nat, rows: seq<seq<Value>>): Block
    requires HasTable(dbs, i, j)
  {
    Block(Qualify(dbs[i].dbName, TableAt(dbs, i, j).tableName), TableAt(dbs, i, j).fieldsToIndex, rows)
  }

  // ---------------------------------------------------------------- what is still to come

  function TablesLeft(dbs: seq<DbInfo>, p: Pos): nat {
    if p.db < |dbs| && p.table < |dbs[p.db].tables| then |dbs[p.db].tables| - p.table else 0
  }

  /** The rows a cursor at `p` has still to fetch, in catalog order (database, table, key). */
  function RestFrom(dbs: seq<DbInfo>, be: Backend, p: Pos): seq<Entry>
    decreases |dbs| - p.db, TablesLeft(dbs, p)
  {
    if p.db >= |dbs| then []
    else if p.table >= |dbs[p.db].tables| then RestFrom(dbs, be, Pos(p.db + 1, 0, 0))
    else
      var t := TableBlock(dbs, p.db, p.table, Drop(Selected(dbs, be, p.db, p.table), p.offset));
      BlockEntries(t) + RestFrom(dbs, be, Pos(p.db, p.table + 1, 0))
  }

  /** From a catalog table, the rest is that table's rows from the offset on, then the tables after it. */
  lemma RestFromTable(dbs: seq<DbInfo>, be: Backend, p: Pos)
    requires HasTable(dbs, p.db, p.table)
    ensures RestFrom(dbs, be, p)
         == Entries(Qualify(dbs[p.db].dbName, TableAt(dbs, p.db, p.table).tableName), TableAt(dbs, p.db, p.table).fieldsToIndex,
                    Drop(Selected(dbs, be, p.db, p.table), p.offset))
            + RestFrom(dbs, be, Pos(p.db, p.table + 1, 0))
  {
  }

  /** Every row of every table, in catalog order. */
  function AllRows(dbs: seq<DbInfo>, be: Backend): seq<Entry>
  {
    RestFrom(dbs, be, Pos(0, 0, 0))
  }

  /** The refill measure: the rows still to fetch, plus one per table and database still to visit. */
  function Work(dbs: seq<DbInfo>, be: Backend, p: Pos): nat
    decreases |dbs| - p.db, TablesLeft(dbs, p)
  {
    if p.db >= |dbs| then 0
    else if p.table >= |dbs[p.db].tables| then 1 + Work(dbs, be, Pos(p.db + 1, 0, 0))
    else |Drop(Selected(dbs, be, p.db, p.table), p.offset)| + 1 + Work(dbs, be, Pos(p.db, p.table + 1, 0))
  }

  // ---------------------------------------------------------------- one refill

  /** What a refill leaves: the buffered blocks, the refill position and the fetch error, if one was thrown. */
  datatype Refill = Refill(blocks: seq<Block>, next: Pos, error: Option<string>)

  /** A fetch can be made at `p`: rows still fit the budget and `p` names a catalog table. */
  predicate CanFetch(dbs: seq<DbInfo>, budget: int, p: Pos, count: nat) {
    count < budget && HasTable(dbs, p.db, p.table)
  }

  /** The rows one fetch at `p` returns: the rest of the budget, from the offset on. */
  function FetchRows(dbs: seq<DbInfo>, be: Backend, budget: int, p: Pos, count: nat): seq<seq<Value>>
    requires CanFetch(dbs, budget, p, count)
  {
    Window(Selected(dbs, be, p.db, p.table), p.offset, budget - count)
  }

  /**
   * The refill position after a fetch of `n` rows: the next table at offset 0
   * while the budget is not reached, otherwise the same table `n` rows further.
   */
  function AfterFetch(budget: int, p: Pos, count: nat, n: nat): Pos {
    if count + n < budget then Pos(p.db, p.table + 1, 0) else Pos(p.db, p.table, p.offset + n)
  }

  /** `Work` at a catalog table: its rows from the offset on, one for the table, then the tables after it. */
  lemma WorkAtTable(dbs: seq<DbInfo>, be: Backend, p: Pos)
    requires HasTable(dbs, p.db, p.table)
    ensures Work(dbs, be, p) == |Drop(Selected(dbs, be, p.db, p.table), p.offset)| + 1 + Work(dbs, be, Pos(p.db, p.table + 1, 0))
  {
  }

  /** Moving further into a table's rows, short of its end, takes work off. */
  lemma WorkWithinTable(dbs: seq<DbInfo>, be: Backend, p: Pos, q: Pos)
    requires HasTable(dbs, p.db, p.table) && q.db == p.db && q.table == p.table
    requires |Drop(Selected(dbs, be, p.db, p.table), q.offset)| < |Drop(Selected(dbs, be, p.db, p.table), p.offset)|
    ensures Work(dbs, be, q) < Work(dbs, be, p)
  {
    WorkAtTable(dbs, be, p);
    WorkAtTable(dbs, be, q);
  }

  /** One fetch: within the budget, taking at least one unit of work, and staying in its database. */
  lemma FetchFacts(dbs: seq<DbInfo>, be: Backend, budget: int, p: Pos, count: nat, rows: seq<seq<Value>>, next: Pos)
    requires CanFetch(dbs, budget, p, count)
    requires rows == FetchRows(dbs, be, budget, p, count) && next == AfterFetch(budget, p, count, |rows|)
    ensures count + |rows| <= budget
    ensures Work(dbs, be, next) < Work(dbs, be, p)
    ensures next.db == p.db && next.table <= |dbs[p.db].tables|
  {
    var sel := Selected(dbs, be, p.db, p.table);
    assert rows == Window(sel, p.offset, budget - count);
    if count + |rows| < budget {
      assert next == Pos(p.db, p.table + 1, 0);
      WorkAtTable(dbs, be, p);
    } else {
      WindowFull(sel, p.offset, budget - count);
      WorkWithinTable(dbs, be, p, next);
    }
  }

  /** A prefix of a table's remaining rows, then the rest from just after it (`q`), is the rest from the offset. */
  lemma SplitRest(dbs: seq<DbInfo>, be: Backend, p: Pos, q: Pos, rows: seq<seq<Value>>)
    requires HasTable(dbs, p.db, p.table)
    requires q.db == p.db && q.table == p.table && q.offset == p.offset + |rows|
    requires rows + Drop(Selected(dbs, be, p.db, p.table), q.offset) == Drop(Selected(dbs, be, p.db, p.table), p.offset)
    ensures BlockEntries(TableBlock(dbs, p.db, p.table, rows)) + RestFrom(dbs, be, q) == RestFrom(dbs, be, p)
  {
    var sel := Selected(dbs, be, p.db, p.table);
    var name, cols := Qualify(dbs[p.db].dbName, TableAt(dbs, p.db, p.table).tableName), TableAt(dbs, p.db, p.table).fieldsToIndex;
    var rest := Drop(sel, q.offset);
    var after := RestFrom(dbs, be, Pos(p.db, p.table + 1, 0));
    RestFromTable(dbs, be, p);
    RestFromTable(dbs, be, q);
    JoinEntries(name, cols, rows, rest, Drop(sel, p.offset), after);
  }

  lemma JoinEntries(name: string, cols: seq<string>, a: seq<seq<Value>>, b: seq<seq<Value>>, ab: seq<seq<Value>>, after: seq<Entry>)
    requires a + b == ab
    ensures Entries(name, cols, a) + (Entries(name, cols, b) + after) == Entries(name, cols, ab) + after
  {
    EntriesAppend(name, cols, a, b);
    Associate(Entries(name, cols, a), Entries(name, cols, b), after);
  }

  /** A fetch covers exactly the rows it passes over. */
  lemma FetchCovers(dbs: seq<DbInfo>, be: Backend, budget: int, p: Pos, count: nat, rows: seq<seq<Value>>, next: Pos)
    requires CanFetch(dbs, budget, p, count)
    requires rows == FetchRows(dbs, be, budget, p, count) && next == AfterFetch(budget, p, count, |rows|)
    ensures BlockEntries(TableBlock(dbs, p.db, p.table, rows)) + RestFrom(dbs, be, next) == RestFrom(dbs, be, p)
  {
    var sel := Selected(dbs, be, p.db, p.table);
    WindowThenDrop(sel, p.offset, budget - count);
    if count + |rows| < budget {
      RestFromTable(dbs, be, p);
    } else {
      SplitRest(dbs, be, p, next, rows);
    }
  }

  /**
   * The loops of `GetMoreRecords` from position `p` with `count` rows and the
   * blocks `acc` already buffered. Each fetch asks for the rest of the budget;
   * a short fetch moves on to the next table at offset 0, a full one stays on
   * the table at the offset after the fetched rows; a database whose tables are
   * done moves on to the next database. A throwing fetch stops the refill.
   */
  function Fill(dbs: seq<DbInfo>, be: Backend, budget: int, p: Pos, count: nat, acc: seq<Block>): Refill
    decreases Work(dbs, be, p)
  {
    if !(count < budget && p.db < |dbs|) then Refill(acc, p, None)
    else if p.table >= |dbs[p.db].tables| then Fill(dbs, be, budget, Pos(p.db + 1, 0, 0), count, acc)
    else if p in be.faults then Refill(acc, p, Some(be.faults[p]))
    else
      var rows := FetchRows(dbs, be, budget, p, count);
      FetchFacts(dbs, be, budget, p, count, rows, AfterFetch(budget, p, count, |rows|));
      Fill(dbs, be, budget, AfterFetch(budget, p, count, |rows|), count + |rows|, acc + [TableBlock(dbs, p.db, p.table, rows)])
  }

  /** The refill `GetMoreRecords` performs from position `p`: an empty buffer and no rows counted. */
  function Refilled(dbs: seq<DbInfo>, be: Backend, budget: int, p: Pos): Refill
  {
    Fill(dbs, be, budget, p, 0, [])
  }

  function Max(a: int, b: int): int {
    if a < b then b else a
  }

  /** A refill never buffers more rows than the budget allows. */
  lemma {:induction false} FillBudget(dbs: seq<DbInfo>, be: Backend, budget: int, p: Pos, count: nat, acc: seq<Block>)
    requires TotalRows(acc) == count
    ensures TotalRows(Fill(dbs, be, budget, p, count, acc).blocks) <= Max(budget, count)
    decreases Work(dbs, be, p)
  {
    if count < budget && p.db < |dbs| {
      if p.table >= |dbs[p.db].tables| {
        FillBudget(dbs, be, budget, Pos(p.db + 1, 0, 0), count, acc);
      } else if p !in be.faults {
        var b, next, c2 := FetchStep(dbs, be, budget, p, count, acc);
        TotalRowsAppend(acc, b);
        FillBudget(dbs, be, budget, next, c2, acc + [b]);
      }
    }
  }

  /** Each refill buffers at most `recordsPerRetrieval` rows (none for a budget of zero or less). */
  lemma RefillBudget(dbs: seq<DbInfo>, be: Backend, budget: int, p: Pos)
    ensures TotalRows(Refilled(dbs, be, budget, p).blocks) <= Max(budget, 0)
  {
    FillBudget(dbs, be, budget, p, 0, []);
  }

  /** One fetch step of a refill, told as the refill from the position after it. */
  lemma FillFetchStep(dbs: seq<DbInfo>, be: Backend, budget: int, p: Pos, count: nat, acc: seq<Block>, rows: seq<seq<Value>>, next: Pos)
    requires CanFetch(dbs, budget, p, count) && p !in be.faults
    requires rows == FetchRows(dbs, be, budget, p, count) && next == AfterFetch(budget, p, count, |rows|)
    ensures Fill(dbs, be, budget, p, count, acc) == Fill(dbs, be, budget, next, count + |rows|, acc + [TableBlock(dbs, p.db, p.table, rows)])
  {
  }

  /**
   * One fetch step of a refill at `p`, with its block `b`, the position `next`
   * after it and the rows counted then, `c2`, named for the callers.
   */
  lemma FetchStep(dbs: seq<DbInfo>, be: Backend, budget: int, p: Pos, count: nat, acc: seq<Block>)
    returns (b: Block, next: Pos, c2: nat)
    requires CanFetch(dbs, budget, p, count) && p !in be.faults
    ensures b == TableBlock(dbs, p.db, p.table, FetchRows(dbs, be, budget, p, count))
    ensures c2 == count + |b.rows| && c2 <= budget && next == AfterFetch(budget, p, count, |b.rows|)
    ensures next.db == p.db && next.table <= |dbs[p.db].tables| && Work(dbs, be, next) < Work(dbs, be, p)
    ensures Fill(dbs, be, budget, p, count, acc) == Fill(dbs, be, budget, next, c2, acc + [b])
    ensures BlockEntries(b) + RestFrom(dbs, be, next) == RestFrom(dbs, be, p)
  {
    var rows := FetchRows(dbs, be, budget, p, count);
    b := TableBlock(dbs, p.db, p.table, rows);
    next := AfterFetch(budget, p, count, |rows|);
    c2 := count + |rows|;
    FetchFacts(dbs, be, budget, p, count, rows, next);
    FillFetchStep(dbs, be, budget, p, count, acc, rows, next);
    FetchCovers(dbs, be, budget, p, count, rows, next);
  }

  /**
   * Nothing is lost or repeated: the buffered rows followed by what is still
   * to come from the new position are what was to come from the old one.
   * This holds after a throwing fetch too, which stops where it was.
   */
  lemma {:induction false} FillCovers(dbs: seq<DbInfo>, be: Backend, budget: int, p: Pos, count: nat, acc: seq<Block>)
    ensures var f := Fill(dbs, be, budget, p, count, acc);
      Flatten(f.blocks) + RestFrom(dbs, be, f.next) == Flatten(acc) + RestFrom(dbs, be, p)
    decreases Work(dbs, be, p)
  {
    if count < budget && p.db < |dbs| {
      if p.table >= |dbs[p.db].tables| {
        FillCovers(dbs, be, budget, Pos(p.db + 1, 0, 0), count, acc);
      } else if p !in be.faults {
        FillCoversStep(dbs, be, budget, p, count, acc);
      }
    }
  }

  /** `FillCovers` at a position where a fetch is made. */
  lemma {:induction false} FillCoversStep(dbs: seq<DbInfo>, be: Backend, budget: int, p: Pos, count: nat, acc: seq<Block>)
    requires CanFetch(dbs, budget, p, count) && p !in be.faults
    ensures var f := Fill(dbs, be, budget, p, count, acc);
      Flatten(f.blocks) + RestFrom(dbs, be, f.next) == Flatten(acc) + RestFrom(dbs, be, p)
    decreases Work(dbs, be, p), 1
  {
    var b, next, c2 := FetchStep(dbs, be, budget, p, count, acc);
    FillCoversFetch(dbs, be, budget, p, c2, acc, b, next, Fill(dbs, be, budget, next, c2, acc + [b]));
  }

  /** The fetch case of `FillCovers`: `f` is the refill from `next`, the position after the fetched block `b`. */
  lemma {:induction false} FillCoversFetch(dbs: seq<DbInfo>, be: Backend, budget: int, p: Pos, count: nat, acc: seq<Block>,
                                           b: Block, next: Pos, f: Refill)
    requires Work(dbs, be, next) < Work(dbs, be, p)
    requires f == Fill(dbs, be, budget, next, count, acc + [b])
    requires BlockEntries(b) + RestFrom(dbs, be, next) == RestFrom(dbs, be, p)
    ensures Flatten(f.blocks) + RestFrom(dbs, be, f.next) == Flatten(acc) + RestFrom(dbs, be, p)
    decreases Work(dbs, be, p), 0
  {
    FillCovers(dbs, be, budget, next, count, acc + [b]);
    CoverFetchCombine(dbs, be, acc, b, next, p, f);
  }

  /** Joins the coverage of the rest of the fill with the coverage of one fetched block. */
  lemma CoverFetchCombine(dbs: seq<DbInfo>, be: Backend, acc: seq<Block>, b: Block, next: Pos, p: Pos, f: Refill)
    requires Flatten(f.blocks) + RestFrom(dbs, be, f.next) == Flatten(acc + [b]) + RestFrom(dbs, be, next)
    requires BlockEntries(b) + RestFrom(dbs, be, next) == RestFrom(dbs, be, p)
    ensures Flatten(f.blocks) + RestFrom(dbs, be, f.next) == Flatten(acc) + RestFrom(dbs, be, p)
  {
    FlattenAppend(acc, b);
    Regroup(Flatten(f.blocks) + RestFrom(dbs, be, f.next), Flatten(acc), BlockEntries(b), RestFrom(dbs, be, next), RestFrom(dbs, be, p));
  }

  lemma Regroup<T>(u: seq<T>, x: seq<T>, y: seq<T>, z: seq<T>, w: seq<T>)
    requires u == (x + y) + z && y + z == w
    ensures u == x + w
  {
    assert (x + y) + z == x + (y + z);
  }

  /**
   * A refill that ends without an error has either spent its budget or
   * passed the last database.
   */
  lemma {:induction false} FillStops(dbs: seq<DbInfo>, be: Backend, budget: int, p: Pos, count: nat, acc: seq<Block>)
    requires TotalRows(acc) == count
    ensures var f := Fill(dbs, be, budget, p, count, acc);
      f.error.None? ==> TotalRows(f.blocks) >= budget || f.next.db >= |dbs|
    decreases Work(dbs, be, p)
  {
    if count < budget && p.db < |dbs| {
      if p.table >= |dbs[p.db].tables| {
        FillStops(dbs, be, budget, Pos(p.db + 1, 0, 0), count, acc);
      } else if p !in be.faults {
        var b, next, c2 := FetchStep(dbs, be, budget, p, count, acc);
        TotalRowsAppend(acc, b);
        FillStops(dbs, be, budget, next, c2, acc + [b]);
      }
    }
  }

  /** Each buffered block takes at least one unit of work off the refill position. */
  lemma {:induction false} FillProgress(dbs: seq<DbInfo>, be: Backend, budget: int, p: Pos, count: nat, acc: seq<Block>)
    ensures var f := Fill(dbs, be, budget, p, count, acc);
      Work(dbs, be, f.next) + |f.blocks| <= Work(dbs, be, p) + |acc|
    decreases Work(dbs, be, p)
  {
    if count < budget && p.db < |dbs| {
      if p.table >= |dbs[p.db].tables| {
        FillProgress(dbs, be, budget, Pos(p.db + 1, 0, 0), count, acc);
      } else if p !in be.faults {
        var b, next, c2 := FetchStep(dbs, be, budget, p, count, acc);
        FillProgress(dbs, be, budget, next, c2, acc + [b]);
      }
    }
  }

  /** A database whose tables are done: one unit of work, and the refill goes on from the next database. */
  lemma PastTables(dbs: seq<DbInfo>, be: Backend, budget: int, p: Pos, count: nat, acc: seq<Block>)
    requires p.db < |dbs| && p.table >= |dbs[p.db].tables| && count < budget
    ensures Work(dbs, be, p) == 1 + Work(dbs, be, Pos(p.db + 1, 0, 0))
    ensures Fill(dbs, be, budget, p, count, acc) == Fill(dbs, be, budget, Pos(p.db + 1, 0, 0), count, acc)
  {
  }

  /** Past the last database nothing is left to fetch. */
  lemma RestFromEnd(dbs: seq<DbInfo>, be: Backend, p: Pos)
    requires p.db >= |dbs|
    ensures RestFrom(dbs, be, p) == [] && Work(dbs, be, p) == 0
  {
  }

  /** A refill buffers exactly the rows it moves the refill position past. */
  lemma RefillCovers(dbs: seq<DbInfo>, be: Backend, budget: int, p: Pos)
    ensures var f := Refilled(dbs, be, budget, p);
      Flatten(f.blocks) + RestFrom(dbs, be, f.next) == RestFrom(dbs, be, p)
  {
    FillCovers(dbs, be, budget, p, 0, []);
    assert Flatten([]) + RestFrom(dbs, be, p) == RestFrom(dbs, be, p);
  }

  /** A refill that buffers a block moves the refill position forward. */
  lemma RefillProgress(dbs: seq<DbInfo>, be: Backend, budget: int, p: Pos)
    ensures var f := Refilled(dbs, be, budget, p);
      f.blocks != [] ==> Work(dbs, be, f.next) < Work(dbs, be, p)
  {
    FillProgress(dbs, be, budget, p, 0, []);
  }

  /**
   * A refill that neither throws nor buffers anything has nothing left to
   * fetch, unless the budget allows no rows at all.
   */
  lemma RefillEnds(dbs: seq<DbInfo>, be: Backend, budget: int, p: Pos)
    ensures var f := Refilled(dbs, be, budget, p);
      f.error.None? && f.blocks == [] ==> budget <= 0 || RestFrom(dbs, be, f.next) == []
  {
    FillStops(dbs, be, budget, p, 0, []);
    var f := Refilled(dbs, be, budget, p);
    if f.error.None? && f.blocks == [] && budget > 0 {
      RestFromEnd(dbs, be, f.next);
    }
  }

  /** `dbInfoIndex` never passes `dbInfos.Count`, and a table index never passes its database's table count. */
  predicate PosValid(dbs: seq<DbInfo>, p: Pos) {
    p.db <= |dbs| && (p.db < |dbs| ==> p.table <= |dbs[p.db].tables|)
  }

  lemma {:induction false} FillKeepsPos(dbs: seq<DbInfo>, be: Backend, budget: int, p: Pos, count: nat, acc: seq<Block>)
    requires PosValid(dbs, p)
    ensures PosValid(dbs, Fill(dbs, be, budget, p, count, acc).next)
    decreases Work(dbs, be, p)
  {
    if count < budget && p.db < |dbs| {
      if p.table >= |dbs[p.db].tables| {
        FillKeepsPos(dbs, be, budget, Pos(p.db + 1, 0, 0), count, acc);
      } else if p !in be.faults {
        var b, next, c2 := FetchStep(dbs, be, budget, p, count, acc);
        FillKeepsPos(dbs, be, budget, next, c2, acc + [b]);
      }
    }
  }

  // ---------------------------------------------------------------- buffer shape

  /** A buffered block the lookups of `GetNextDoc` succeed on. */
  predicate BlockShaped(dbs: seq<DbInfo>, b: Block) {
    && KnownTable(dbs, b.tableName)
    && b.columns == TableOf(dbs, b.tableName).fieldsToIndex
    && (forall k :: 0 <= k < |b.rows| ==> |b.rows[k]| == |b.columns|)
  }

  predicate BlocksShaped(dbs: seq<DbInfo>, blocks: seq<Block>) {
    forall t :: 0 <= t < |blocks| ==> BlockShaped(dbs, blocks[t])
  }

  /** Every row of a shaped block of a valid catalog can be materialized. */
  lemma ShapedEntry(dbs: seq<DbInfo>, b: Block, k: nat)
    requires ValidCatalog(dbs) && BlockShaped(dbs, b) && k < |b.rows|
    ensures EntryShaped(dbs, Entry(b.tableName, b.columns, b.rows[k]))
  {
    var r := FindTable(dbs, b.tableName, 0).value;
    assert TableOk(TableAt(dbs, r.db, r.table));
  }

  lemma TableBlockShaped(dbs: seq<DbInfo>, i: nat, j: nat, rows: seq<seq<Value>>)
    requires ValidCatalog(dbs) && HasTable(dbs, i, j)
    requires forall k :: 0 <= k < |rows| ==> |rows[k]| == |TableAt(dbs, i, j).fieldsToIndex|
    ensures BlockShaped(dbs, TableBlock(dbs, i, j, rows))
  {
    FindOwnTable(dbs, i, j);
  }

  /** The rows of one fetch from a fitting backend are as wide as the table's field list. */
  lemma FetchWidth(dbs: seq<DbInfo>, be: Backend, budget: int, p: Pos, count: nat)
    requires BackendFits(dbs, be) && CanFetch(dbs, budget, p, count)
    ensures var rows := FetchRows(dbs, be, budget, p, count);
      forall k :: 0 <= k < |rows| ==> |rows[k]| == |TableAt(dbs, p.db, p.table).fieldsToIndex|
  {
    var sel := Selected(dbs, be, p.db, p.table);
    SelectedWidth(dbs, be, p.db, p.table);
    var rows := FetchRows(dbs, be, budget, p, count);
    assert forall k :: 0 <= k < |rows| ==> rows[k] == sel[p.offset + k];
  }

  lemma {:induction false} FillShaped(dbs: seq<DbInfo>, be: Backend, budget: int, p: Pos, count: nat, acc: seq<Block>)
    requires ValidCatalog(dbs) && BackendFits(dbs, be) && BlocksShaped(dbs, acc)
    ensures BlocksShaped(dbs, Fill(dbs, be, budget, p, count, acc).blocks)
    decreases Work(dbs, be, p)
  {
    if count < budget && p.db < |dbs| {
      if p.table >= |dbs[p.db].tables| {
        FillShaped(dbs, be, budget, Pos(p.db + 1, 0, 0), count, acc);
      } else if p !in be.faults {
        var b, next, c2 := FetchStep(dbs, be, budget, p, count, acc);
        FetchWidth(dbs, be, budget, p, count);
        TableBlockShaped(dbs, p.db, p.table, FetchRows(dbs, be, budget, p, count));
        assert BlocksShaped(dbs, acc + [b]);
        FillShaped(dbs, be, budget, next, c2, acc + [b]);
      }
    }
  }

  // ---------------------------------------------------------------- the read position

  /** The buffered rows not yet read from block `t`, row `r` on. */
  function Unread(buf: seq<Block>, t: nat, r: nat): seq<Entry> {
    if t >= |buf| then [] else Entries(buf[t].tableName, buf[t].columns, Drop(buf[t].rows, r)) + Flatten(buf[t + 1..])
  }

  lemma UnreadAll(buf: seq<Block>)
    ensures Unread(buf, 0, 0) == Flatten(buf)
  {
  }

  /** Skipping an empty block loses nothing. */
  lemma UnreadSkip(buf: seq<Block>, t: nat)
    requires t < |buf| && buf[t].rows == []
    ensures Unread(buf, t, 0) == Unread(buf, t + 1, 0)
  {
    if t + 1 < |buf| {
      assert buf[t + 1..][1..] == buf[t + 2..];
    }
  }

  /** Reading row `r` of block `t` takes exactly that row off the front. */
  lemma UnreadTake(buf: seq<Block>, t: nat, r: nat)
    requires t < |buf| && r < |buf[t].rows|
    ensures Unread(buf, t, r) == [Entry(buf[t].tableName, buf[t].columns, buf[t].rows[r])] + Unread(buf, t, r + 1)
  {
    var b := buf[t];
    var d := Drop(b.rows, r);
    assert d[0] == b.rows[r] && d[1..] == Drop(b.rows, r + 1);
    Associate([Entry(b.tableName, b.columns, b.rows[r])], Entries(b.tableName, b.columns, d[1..]), Flatten(buf[t + 1..]));
  }

  /** Moving past a read-out block loses nothing. */
  lemma UnreadNext(buf: seq<Block>, t: nat, r: nat)
    requires t + 1 < |buf| && r >= |buf[t].rows|
    ensures Unread(buf, t, r) == Unread(buf, t + 1, 0)
  {
    assert buf[t + 1..][1..] == buf[t + 2..];
  }

  /**
   * Where the read position may stand: inside the buffer or past it; at the
   * end of a block only when that block is empty or the last one.
   */
  predicate CursorOk(buf: seq<Block>, t: nat, r: nat) {
    t < |buf| ==> r <= |buf[t].rows| && (r == |buf[t].rows| ==> r == 0 || t == |buf| - 1)
  }

  /**
   * Line 78 as written: refill when the read position is past the buffer or
   * at the end of its block, an empty block included.
   */
  predicate NeedsRefillAsWritten(buf: seq<Block>, t: nat, r: nat) {
    t >= |buf| || r >= |buf[t].rows|
  }

  /**
   * Line 78 corrected: refill only past the buffer or after the last row of a
   * block that has been read from; an empty block at row 0 is left to the skip
   * loop that follows.
   */
  predicate NeedsRefill(buf: seq<Block>, t: nat, r: nat) {
    t >= |buf| || (r > 0 && r >= |buf[t].rows|)
  }

  /** With the corrected test a refill only discards a buffer that has been read out. */
  lemma RefillDiscardsNothing(buf: seq<Block>, t: nat, r: nat)
    requires CursorOk(buf, t, r) && NeedsRefill(buf, t, r)
    ensures Unread(buf, t, r) == []
  {
  }

  /** Without a refill, the read position stands on a row or on an empty block. */
  lemma NoRefillOnRow(buf: seq<Block>, t: nat, r: nat)
    requires !NeedsRefill(buf, t, r)
    ensures t < |buf| && (r < |buf[t].rows| || (buf[t].rows == [] && r == 0))
  {
  }

  /** The read position after a row is emitted (lines 172-178). */
  function AdvanceAfterEmit(buf: seq<Block>, t: nat, r: nat): (nat, nat)
    requires t < |buf|
  {
    if r + 1 >= |buf[t].rows| && t < |buf| - 1 then (t + 1, 0) else (t, r + 1)
  }

  lemma AdvanceKeepsCursor(buf: seq<Block>, t: nat, r: nat)
    requires t < |buf| && r < |buf[t].rows|
    ensures var (t', r') := AdvanceAfterEmit(buf, t, r);
      CursorOk(buf, t', r') && Unread(buf, t, r) == [Entry(buf[t].tableName, buf[t].columns, buf[t].rows[r])] + Unread(buf, t', r')
  {
    UnreadTake(buf, t, r);
    if r + 1 >= |buf[t].rows| && t < |buf| - 1 {
      UnreadNext(buf, t, r + 1);
    }
  }

  /**
   * Emitting the row under the cursor, or failing on it, keeps the order of
   * everything still to come, whatever follows the buffer.
   */
  lemma EmitKeepsOrder(buf: seq<Block>, t: nat, r: nat, rest: seq<Entry>)
    requires t < |buf| && r < |buf[t].rows|
    ensures var e := Entry(buf[t].tableName, buf[t].columns, buf[t].rows[r]);
      && (Unread(buf, t, r) + rest)[0] == e
      && var (t', r') := AdvanceAfterEmit(buf, t, r);
        CursorOk(buf, t', r') && Unread(buf, t, r) + rest == [e] + (Unread(buf, t', r') + rest)
  {
    var e := Entry(buf[t].tableName, buf[t].columns, buf[t].rows[r]);
    AdvanceKeepsCursor(buf, t, r);
    var (t', r') := AdvanceAfterEmit(buf, t, r);
    Associate([e], Unread(buf, t', r'), rest);
  }

  /**
   * The test as written discards unread rows: a buffer of blocks `A` (one
   * row), `B` (no rows) and `C` (one row), read past `A`, stands on `B` at
   * row 0, and line 78 refills although `C`'s row was never read.
   */
  lemma RefillAsWrittenDiscardsRows()
    ensures var row: seq<Value> := [Number(1)];
      var buf := [Block("[D.A]", ["Id"], [row]), Block("[D.B]", ["Id"], []), Block("[D.C]", ["Id"], [row])];
      var (t, r) := AdvanceAfterEmit(buf, 0, 0);
      && CursorOk(buf, t, r)
      && NeedsRefillAsWritten(buf, t, r)
      && Unread(buf, t, r) == [Entry("[D.C]", ["Id"], row)]
      && !NeedsRefill(buf, t, r)
  {
    var row: seq<Value> := [Number(1)];
    var buf := [Block("[D.A]", ["Id"], [row]), Block("[D.B]", ["Id"], []), Block("[D.C]", ["Id"], [row])];
    assert AdvanceAfterEmit(buf, 0, 0) == (1, 0);
    assert buf[2..] == [buf[2]];
    assert Flatten(buf[2..]) == BlockEntries(buf[2]) + Flatten([]);
  }

  // ---------------------------------------------------------------- failures

  /** What a `DbTableInfo` prints as: it does not override `ToString`. */
  const TableInfoText: string := "DtSearchIndexer.IndexerUtility.Models.DbTableInfo"

  const FetchErrorPrefix: string := "Error while attempting to get data from " + TableInfoText + ": "

  /** `ErrorMessage +=` on a failed fetch: a line break only after a message that is not blank. */
  function AppendError(errorMessage: string, msg: string): (r: string)
    ensures StartsWith(r, errorMessage)
    ensures !IsBlank(r)
  {
    var pre := errorMessage + (if IsBlank(errorMessage) then "" else "\r\n");
    var r := pre + FetchErrorPrefix + msg;
    var tail := FetchErrorPrefix + msg;
    assert r == pre + tail;
    assert tail[0] == 'E';
    assert r[|pre|] == tail[0];
    r
  }
}
