/**
 * The document materializer of `GetNextDoc`: the identity `db://[Db.Table]#k=v|k=v`,
 * the display name, the tab-delimited field blob, the binary payload and the
 * `IndexedItems` ledger entry of one buffered row.
 */
module Materializer {
  import opened Wrappers
  import opened Strings
  import opened Catalog

  /** What reading an `Image_Loc` file gives: its bytes, or an exception (caught). A missing key is a missing file. */
  datatype FileRead = Contents(bytes: seq<bv8>) | ReadFails

  /** The per-row properties of the data source being built column by column; `thrown` is `int.Parse` failing. */
  datatype DocAcc = DocAcc(
    displayName: string,
    fields: string,
    bytes: seq<bv8>,
    haveBytes: bool,
    items: seq<IndexedItem>,
    thrown: bool)

  /** A row that the lookups of `GetNextDoc` succeed on. */
  predicate EntryShaped(dbs: seq<DbInfo>, e: Entry) {
    && KnownTable(dbs, e.tableName)
    && e.columns == TableOf(dbs, e.tableName).fieldsToIndex
    && RowShaped(e)
    && (forall k :: k in TableOf(dbs, e.tableName).keyColumns ==> k in e.columns)
  }

  /** `curTable.Columns[k]`: the position of column `k`. */
  function ColumnIndex(columns: seq<string>, k: string): (r: nat)
    requires k in columns
    ensures r < |columns| && columns[r] == k
    ensures forall i :: 0 <= i < r ==> columns[i] != k
  {
    if columns[0] == k then 0 else 1 + ColumnIndex(columns[1..], k)
  }

  lemma ColumnIndexOfDistinct(columns: seq<string>, i: nat)
    requires i < |columns| && Distinct(columns)
    ensures ColumnIndex(columns, columns[i]) == i
  {
  }

  /** One `Col=Val` element of an identity (the whole element is trimmed). */
  function KeyPair(e: Entry, k: string): string
    requires k in e.columns && |e.row| == |e.columns|
  {
    Trim(k + "=" + Render(e.row[ColumnIndex(e.columns, k)]))
  }

  function KeyColumns(dbs: seq<DbInfo>, e: Entry): seq<string>
    requires KnownTable(dbs, e.tableName)
  {
    TableOf(dbs, e.tableName).keyColumns
  }

  /** The `Col=Val` elements over the key columns `keys`, in their order. */
  function KeyPairsOf(e: Entry, keys: seq<string>): (r: seq<string>)
    requires |e.row| == |e.columns| && forall k :: k in keys ==> k in e.columns
    ensures |r| == |keys|
  {
    if keys == [] then [] else [KeyPair(e, keys[0])] + KeyPairsOf(e, keys[1..])
  }

  /** The `Col=Val` elements over the configured key columns, in configured order. */
  function KeyPairs(dbs: seq<DbInfo>, e: Entry): seq<string>
    requires EntryShaped(dbs, e)
  {
    KeyPairsOf(e, KeyColumns(dbs, e))
  }

  /** `DocName`: `db://[Db.Table]#k1=v1|k2=v2...`. */
  function DocName(dbs: seq<DbInfo>, e: Entry): string
    requires EntryShaped(dbs, e)
  {
    "db://" + e.tableName + "#" + Join("|", KeyPairs(dbs, e))
  }

  /** Element `i` is the pair of key column `i`. */
  lemma {:induction false} KeyPairsAt(e: Entry, keys: seq<string>, i: nat)
    requires |e.row| == |e.columns| && forall k :: k in keys ==> k in e.columns
    requires i < |keys|
    ensures KeyPairsOf(e, keys)[i] == KeyPair(e, keys[i])
  {
    if i > 0 {
      assert keys[1..][i - 1] == keys[i];
      KeyPairsAt(e, keys[1..], i - 1);
    }
  }

  /** The pairs depend on the key values only. */
  lemma {:induction false} KeyPairsOnlyKeys(e: Entry, e': Entry, keys: seq<string>)
    requires |e.row| == |e.columns| && forall k :: k in keys ==> k in e.columns
    requires |e'.row| == |e'.columns| && forall k :: k in keys ==> k in e'.columns
    requires forall k :: k in keys ==> e.row[ColumnIndex(e.columns, k)] == e'.row[ColumnIndex(e'.columns, k)]
    ensures KeyPairsOf(e, keys) == KeyPairsOf(e', keys)
  {
    if keys != [] {
      KeyPairsOnlyKeys(e, e', keys[1..]);
    }
  }

  /** The identity depends on the table and the key values only, never on the other columns. */
  lemma DocNameOnlyKeys(dbs: seq<DbInfo>, e: Entry, e': Entry)
    requires EntryShaped(dbs, e) && EntryShaped(dbs, e')
    requires e.tableName == e'.tableName
    requires forall k :: k in KeyColumns(dbs, e) ==>
               e.row[ColumnIndex(e.columns, k)] == e'.row[ColumnIndex(e'.columns, k)]
    ensures DocName(dbs, e) == DocName(dbs, e')
  {
    KeyPairsOnlyKeys(e, e', KeyColumns(dbs, e));
  }

  /** `Split('.').First().Substring(1)` of a `[Db.Table]` name: the database label. */
  function DbLabel(tableName: string): string
    requires StartsWith(tableName, "[")
  {
    var first := BeforeFirst(tableName, '.');
    assert first != [] by { assert tableName[0] == '['; }
    first[1..]
  }

  /** `DocDisplayName` before any `DB` column is seen: `Db|[DB]|#k1=v1&k2=v2`. */
  function DisplayBase(dbs: seq<DbInfo>, e: Entry): string
    requires EntryShaped(dbs, e)
  {
    var r := FindTable(dbs, e.tableName, 0).value;
    assert StartsWith(e.tableName, "[") by {
      assert e.tableName == Qualify(dbs[r.db].dbName, TableAt(dbs, r.db, r.table).tableName);
    }
    DbLabel(e.tableName) + "|[DB]|#" + Join("&", KeyPairs(dbs, e))
  }

  /** A value as it enters the field blob: tabs become spaces, then it is trimmed. */
  function CleanValue(v: Value): (r: string)
    ensures '\t' !in r
  {
    var s := ReplaceAll(Render(v), "\t", " ");
    ReplaceCharRemoves(Render(v), '\t', " ");
    var r := Trim(s);
    TrimSpec(s);
    assert forall i :: 0 <= i < |r| ==> r[i] in s;
    r
  }

  /** The index name of the database a fetched table belongs to. */
  function OwnerIndexName(dbs: seq<DbInfo>, tableName: string): string
    requires KnownTable(dbs, tableName)
  {
    IndexName(dbs[FindTable(dbs, tableName, 0).value.db].indexPath)
  }

  /**
   * The `IndexName` of a ledger entry as line 139 finds it: the one database
   * owning a table of the bare name, then the last path segment of its
   * `IndexPath`; `None` where that `.Single` throws.
   */
  function LedgerIndex(dbs: seq<DbInfo>, tableName: string): Option<string> {
    match SingleOwner(dbs, RawName(tableName))
    case Some(i) => Some(IndexName(dbs[i].indexPath))
    case None => None
  }

  /**
   * A table whose name holds no `.` or `]` and that no other database names:
   * the ledger lookup finds the database it was fetched from.
   */
  predicate LedgerResolves(dbs: seq<DbInfo>, tableName: string) {
    && KnownTable(dbs, tableName)
    && var t := FindTable(dbs, tableName, 0).value;
    && '.' !in TableAt(dbs, t.db, t.table).tableName && ']' !in TableAt(dbs, t.db, t.table).tableName
    && IsOnlyOwner(dbs, TableAt(dbs, t.db, t.table).tableName, t.db)
  }

  /** Such a table's ledger entries are recorded under the index name of its own database. */
  lemma LedgerOfOwnTable(dbs: seq<DbInfo>, tableName: string)
    requires LedgerResolves(dbs, tableName)
    ensures LedgerIndex(dbs, tableName) == Some(OwnerIndexName(dbs, tableName))
  {
    var t := FindTable(dbs, tableName, 0).value;
    OwnerOfQualified(dbs, t.db, t.table);
  }

  /**
   * Two databases that each hold a table of the same bare name form a valid
   * catalog, yet the ledger lookup of either table throws: `GetNextDoc`
   * indexes their rows as long as they have no `DocID` column.
   */
  lemma SharedBareName(d1: DbInfo, d2: DbInfo, t: DbTableInfo)
    requires d1.tables == [t] && d2.tables == [t] && d1.dbName != d2.dbName && TableOk(t)
    requires '.' !in t.tableName && ']' !in t.tableName
    ensures ValidCatalog([d1, d2])
    ensures LedgerIndex([d1, d2], Qualify(d1.dbName, t.tableName)) == None
  {
    var dbs := [d1, d2];
    forall i, j, i', j' | HasTable(dbs, i, j) && HasTable(dbs, i', j') && QualifiedAt(dbs, i, j) == QualifiedAt(dbs, i', j')
      ensures i == i' && j == j'
    {
      assert j == 0 && j' == 0;
      QualifyInjective(dbs[i].dbName, dbs[i'].dbName, t.tableName);
    }
    RawNameOfQualified(d1.dbName, t.tableName);
    assert dbs[0].tables[0].tableName == t.tableName && dbs[1].tables[0].tableName == t.tableName;
    assert OwnsTable(dbs[0], t.tableName) && OwnsTable(dbs[1], t.tableName);
  }

  function StartDoc(dbs: seq<DbInfo>, e: Entry): DocAcc
    requires EntryShaped(dbs, e)
  {
    DocAcc(DisplayBase(dbs, e), "", [], false, [], false)
  }

  /** A row whose values line up with its distinct column names. */
  predicate RowShaped(e: Entry) {
    |e.row| == |e.columns| && Distinct(e.columns)
  }

  /** The cleaned text of every cell of a row. */
  function CleanRow(row: seq<Value>): (r: seq<string>)
    ensures |r| == |row|
    ensures forall i :: 0 <= i < |r| ==> '\t' !in r[i]
    ensures forall i :: 0 <= i < |r| ==> r[i] == CleanValue(row[i])
  {
    seq(|row|, i requires 0 <= i < |row| => CleanValue(row[i]))
  }

  /**
   * The body of the column loop of `GetNextDoc` for column `i`, over the
   * column names and the cleaned cell texts; `ix` is the index name a ledger
   * entry is recorded under.
   */
  function ColumnStep(files: map<string, FileRead>, cols: seq<string>, vals: seq<string>, ix: Option<string>, i: nat, acc: DocAcc): DocAcc
    requires |vals| == |cols| && i < |cols|
  {
    var name := cols[i];
    var val := vals[i];
    var acc1 := acc.(fields := acc.fields + name + "\t" + val + "\t");
    if name == "Date_Entered" then acc1
    else if name == "DB" then acc1.(displayName := ReplaceAll(acc1.displayName, "[DB]", Trim(val)))
    else if name == "DocID" then
      if DocIdFails(ix, val) then acc1.(thrown := true)
      else acc1.(items := acc1.items + [IndexedItem(ix.value, ParseInt32(val).value)])
    else if name == "Image_Loc" then
      if val !in files then acc1
      else match files[val]
        case ReadFails => acc1.(bytes := [], haveBytes := false)
        case Contents(b) => if |b| > 0 then acc1.(bytes := b, haveBytes := true) else acc1
    else acc1
  }

  /**
   * The `DocID` column throws: the index-name lookup finds no single owner, or
   * `int.Parse` refuses the cell.
   */
  predicate DocIdFails(ix: Option<string>, val: string) {
    ix.None? || ParseInt32(val).None?
  }

  /** What one column does to each part of the state. */
  lemma StepFacts(files: map<string, FileRead>, cols: seq<string>, vals: seq<string>, ix: Option<string>, i: nat, acc: DocAcc)
    requires |vals| == |cols| && i < |cols|
    ensures var a := ColumnStep(files, cols, vals, ix, i, acc);
      && a.fields == acc.fields + cols[i] + "\t" + vals[i] + "\t"
      && (a.thrown <==> acc.thrown || (cols[i] == "DocID" && DocIdFails(ix, vals[i])))
      && a.items == (if cols[i] == "DocID" && !DocIdFails(ix, vals[i])
                     then acc.items + [IndexedItem(ix.value, ParseInt32(vals[i]).value)]
                     else acc.items)
      && (cols[i] != "DB" ==> a.displayName == acc.displayName)
      && (cols[i] != "Image_Loc" ==> a.bytes == acc.bytes && a.haveBytes == acc.haveBytes)
  {
  }

  /** The state after the first `n` columns from `start`; a thrown exception stops the loop where it happened. */
  function FoldColumns(files: map<string, FileRead>, cols: seq<string>, vals: seq<string>, ix: Option<string>, start: DocAcc, n: nat): DocAcc
    requires |vals| == |cols| && n <= |cols|
  {
    if n == 0 then start
    else
      var a := FoldColumns(files, cols, vals, ix, start, n - 1);
      if a.thrown then a else ColumnStep(files, cols, vals, ix, n - 1, a)
  }

  /** The document `GetNextDoc` builds from one row. */
  function Materialize(dbs: seq<DbInfo>, files: map<string, FileRead>, e: Entry): DocAcc
    requires ValidCatalog(dbs) && EntryShaped(dbs, e)
  {
    FoldColumns(files, e.columns, CleanRow(e.row), LedgerIndex(dbs, e.tableName), StartDoc(dbs, e), |e.columns|)
  }

  // ---------------------------------------------------------------- the field blob

  /** Reference definition of the blob: `name TAB value TAB` for the first `n` columns, in order. */
  function FieldText(cols: seq<string>, vals: seq<string>, n: nat): string
    requires |vals| == |cols| && n <= |cols|
  {
    if n == 0 then "" else FieldText(cols, vals, n - 1) + cols[n - 1] + "\t" + vals[n - 1] + "\t"
  }

  /** The names and cleaned values of the first `n` columns, interleaved. */
  function NamesAndValues(cols: seq<string>, vals: seq<string>, n: nat): seq<string>
    requires |vals| == |cols| && n <= |cols|
  {
    if n == 0 then [] else NamesAndValues(cols, vals, n - 1) + [cols[n - 1], vals[n - 1]]
  }

  /** The state after `n` columns: a blob of the processed columns, and a throw only at a `DocID` column. */
  lemma {:induction false} FoldFields(files: map<string, FileRead>, cols: seq<string>, vals: seq<string>, ix: Option<string>, start: DocAcc, n: nat)
    requires |vals| == |cols| && n <= |cols| && !start.thrown && start.fields == ""
    requires Distinct(cols)
    ensures var a := FoldColumns(files, cols, vals, ix, start, n);
      && (!a.thrown ==> a.fields == FieldText(cols, vals, n))
      && (a.thrown ==> DocIdReached(cols, n) && a.fields == FieldText(cols, vals, DocIdAt(cols).value + 1))
  {
    if n > 0 {
      FoldFields(files, cols, vals, ix, start, n - 1);
      ReachedStep(cols, n);
      FoldStep(files, cols, vals, ix, start, n);
    }
  }

  /** One more column: a thrown state stays as it is; otherwise the blob grows and only a `DocID` column can throw. */
  lemma FoldStep(files: map<string, FileRead>, cols: seq<string>, vals: seq<string>, ix: Option<string>, start: DocAcc, n: nat)
    requires |vals| == |cols| && 0 < n <= |cols|
    ensures var a, b := FoldColumns(files, cols, vals, ix, start, n - 1), FoldColumns(files, cols, vals, ix, start, n);
      && (a.thrown ==> b == a)
      && (!a.thrown ==> b.fields == a.fields + cols[n - 1] + "\t" + vals[n - 1] + "\t")
      && (!a.thrown && b.thrown ==> cols[n - 1] == "DocID")
  {
    var a := FoldColumns(files, cols, vals, ix, start, n - 1);
    if !a.thrown {
      StepFacts(files, cols, vals, ix, n - 1, a);
    }
  }

  /** Splitting the blob at tabs gives back every column name and value (when none holds a tab). */
  lemma {:induction false} FieldTextSplits(cols: seq<string>, vals: seq<string>, n: nat, rest: string)
    requires |vals| == |cols| && n <= |cols|
    requires forall i :: 0 <= i < |cols| ==> '\t' !in cols[i] && '\t' !in vals[i]
    ensures Split(FieldText(cols, vals, n) + rest, '\t') == NamesAndValues(cols, vals, n) + Split(rest, '\t')
  {
    if n > 0 {
      var name, val := cols[n - 1], vals[n - 1];
      var tail := name + ['\t'] + (val + ['\t'] + rest);
      FieldTextSplits(cols, vals, n - 1, tail);
      FieldSplitStep(FieldText(cols, vals, n - 1), name, val, rest, NamesAndValues(cols, vals, n - 1));
    } else {
      assert FieldText(cols, vals, n) + rest == rest;
    }
  }

  /** One more `name TAB value TAB` on the blob adds the name and the value to its split. */
  lemma FieldSplitStep(f: string, name: string, val: string, rest: string, nv: seq<string>)
    requires '\t' !in name && '\t' !in val
    requires Split(f + (name + ['\t'] + (val + ['\t'] + rest)), '\t') == nv + Split(name + ['\t'] + (val + ['\t'] + rest), '\t')
    ensures Split(f + name + "\t" + val + "\t" + rest, '\t') == (nv + [name, val]) + Split(rest, '\t')
  {
    RegroupFive(f, name, ['\t'], val, ['\t'], rest);
    SplitAround(val, '\t', rest);
    SplitNoSeparator(val, '\t');
    SplitAround(name, '\t', val + ['\t'] + rest);
    SplitNoSeparator(name, '\t');
    var s := Split(rest, '\t');
    assert [name] + ([val] + s) == [name, val] + s;
    Associate(nv, [name, val], s);
  }

  lemma RegroupFive<T>(f: seq<T>, a: seq<T>, b: seq<T>, c: seq<T>, d: seq<T>, e: seq<T>)
    ensures ((((f + a) + b) + c) + d) + e == f + ((a + b) + ((c + d) + e))
  {
  }

  /** The blob of a whole row splits at tabs into its column names and cleaned values. */
  lemma RowFieldsSplit(e: Entry)
    requires |e.row| == |e.columns|
    requires forall i :: 0 <= i < |e.columns| ==> '\t' !in e.columns[i]
    ensures Split(FieldText(e.columns, CleanRow(e.row), |e.columns|), '\t')
         == NamesAndValues(e.columns, CleanRow(e.row), |e.columns|) + [""]
  {
    var vals := CleanRow(e.row);
    FieldTextSplits(e.columns, vals, |e.columns|, "");
    assert FieldText(e.columns, vals, |e.columns|) + "" == FieldText(e.columns, vals, |e.columns|);
    assert Split("", '\t') == [""];
  }

  // ---------------------------------------------------------------- the ledger

  /** The position of the `DocID` column, when there is one. */
  function DocIdAt(cols: seq<string>): Option<nat> {
    if "DocID" in cols then Some(ColumnIndex(cols, "DocID")) else None
  }

  /** The `DocID` column lies among the first `n` columns. */
  predicate DocIdReached(cols: seq<string>, n: nat) {
    DocIdAt(cols).Some? && DocIdAt(cols).value < n
  }

  lemma ReachedStep(cols: seq<string>, n: nat)
    requires Distinct(cols) && 0 < n <= |cols|
    ensures DocIdReached(cols, n) <==> DocIdReached(cols, n - 1) || cols[n - 1] == "DocID"
    ensures cols[n - 1] == "DocID" ==> !DocIdReached(cols, n - 1) && DocIdAt(cols) == Some(n - 1)
  {
    if cols[n - 1] == "DocID" {
      ColumnIndexOfDistinct(cols, n - 1);
    }
  }

  /** The text of the `DocID` cell, for a row that has one. */
  function DocIdText(cols: seq<string>, vals: seq<string>): string
    requires |vals| == |cols| && DocIdAt(cols).Some?
  {
    vals[DocIdAt(cols).value]
  }

  /** Once `int.Parse` has thrown, no later column is read. */
  lemma {:induction false} FoldStaysThrown(files: map<string, FileRead>, cols: seq<string>, vals: seq<string>, ix: Option<string>, start: DocAcc, n: nat, m: nat)
    requires |vals| == |cols| && n <= m <= |cols| && FoldColumns(files, cols, vals, ix, start, n).thrown
    ensures FoldColumns(files, cols, vals, ix, start, m) == FoldColumns(files, cols, vals, ix, start, n)
    decreases m
  {
    if m > n {
      FoldStaysThrown(files, cols, vals, ix, start, n, m - 1);
    }
  }

  lemma {:induction false} FoldThrows(files: map<string, FileRead>, cols: seq<string>, vals: seq<string>, ix: Option<string>, start: DocAcc, n: nat)
    requires |vals| == |cols| && Distinct(cols) && n <= |cols| && !start.thrown
    ensures FoldColumns(files, cols, vals, ix, start, n).thrown
        <==> DocIdReached(cols, n) && DocIdFails(ix, DocIdText(cols, vals))
  {
    if n > 0 {
      FoldThrows(files, cols, vals, ix, start, n - 1);
      ReachedStep(cols, n);
      var a := FoldColumns(files, cols, vals, ix, start, n - 1);
      if !a.thrown {
        StepFacts(files, cols, vals, ix, n - 1, a);
      }
    }
  }

  /**
   * Until a throw, the ledger gains one entry at the `DocID` column (its parsed
   * value, under the index name) and none elsewhere.
   */
  lemma {:induction false} FoldItems(files: map<string, FileRead>, cols: seq<string>, vals: seq<string>, ix: Option<string>, start: DocAcc, n: nat)
    requires |vals| == |cols| && Distinct(cols) && n <= |cols| && !start.thrown
    requires !FoldColumns(files, cols, vals, ix, start, n).thrown
    ensures var items := FoldColumns(files, cols, vals, ix, start, n).items;
      && (DocIdReached(cols, n) ==>
            && !DocIdFails(ix, DocIdText(cols, vals))
            && items == start.items + [IndexedItem(ix.value, ParseInt32(DocIdText(cols, vals)).value)])
      && (!DocIdReached(cols, n) ==> items == start.items)
  {
    FoldThrows(files, cols, vals, ix, start, n);
    if n > 0 {
      var a := FoldColumns(files, cols, vals, ix, start, n - 1);
      assert !a.thrown;
      FoldItems(files, cols, vals, ix, start, n - 1);
      StepFacts(files, cols, vals, ix, n - 1, a);
      ReachedStep(cols, n);
    }
  }

  /** Without `DB` and `Image_Loc` columns the display name stays the start one and the payload is untouched. */
  lemma {:induction false} FoldPlainRow(files: map<string, FileRead>, cols: seq<string>, vals: seq<string>, ix: Option<string>, start: DocAcc, n: nat)
    requires |vals| == |cols| && n <= |cols|
    requires "DB" !in cols && "Image_Loc" !in cols
    ensures var a := FoldColumns(files, cols, vals, ix, start, n);
      a.displayName == start.displayName && a.bytes == start.bytes && a.haveBytes == start.haveBytes
  {
    if n > 0 {
      FoldPlainRow(files, cols, vals, ix, start, n - 1);
      assert cols[n - 1] in cols;
      var a := FoldColumns(files, cols, vals, ix, start, n - 1);
      if !a.thrown {
        StepFacts(files, cols, vals, ix, n - 1, a);
      }
    }
  }

  // ---------------------------------------------------------------- whole rows

  /**
   * What the column loop leaves for a whole row with names `cols` and cell
   * texts `vals`: it throws exactly when the row has a `DocID` cell and either
   * no index name `ix` was found for it or the cell does not parse; otherwise
   * its ledger entry is that cell's value under `ix` (none without a `DocID`
   * column) and its blob holds every column; a throw
   * leaves the blob up to and including the `DocID` column.
   */
  predicate RowOutcome(a: DocAcc, cols: seq<string>, vals: seq<string>, ix: Option<string>)
    requires |vals| == |cols|
  {
    && (a.thrown <==> DocIdAt(cols).Some? && DocIdFails(ix, DocIdText(cols, vals)))
    && (!a.thrown && DocIdAt(cols).Some? ==> a.items == [IndexedItem(ix.value, ParseInt32(DocIdText(cols, vals)).value)])
    && (DocIdAt(cols).None? ==> a.items == [])
    && (!a.thrown ==> a.fields == FieldText(cols, vals, |cols|))
    && (a.thrown ==> a.fields == FieldText(cols, vals, DocIdAt(cols).value + 1))
  }

  /** The column loop over a whole row, from a fresh document, has the outcome `RowOutcome` describes. */
  lemma FoldRow(files: map<string, FileRead>, cols: seq<string>, vals: seq<string>, ix: Option<string>, start: DocAcc)
    requires |vals| == |cols| && Distinct(cols) && !start.thrown && start.fields == "" && start.items == []
    ensures RowOutcome(FoldColumns(files, cols, vals, ix, start, |cols|), cols, vals, ix)
  {
    var n := |cols|;
    FoldThrows(files, cols, vals, ix, start, n);
    FoldFields(files, cols, vals, ix, start, n);
    if !FoldColumns(files, cols, vals, ix, start, n).thrown {
      FoldItems(files, cols, vals, ix, start, n);
    }
  }

  /**
   * A materialized row: the outcome of its cleaned cells under the index name
   * the ledger lookup finds, which is the owning database's when the table's
   * bare name resolves.
   */
  lemma MaterializeRow(dbs: seq<DbInfo>, files: map<string, FileRead>, e: Entry)
    requires ValidCatalog(dbs) && EntryShaped(dbs, e)
    ensures RowOutcome(Materialize(dbs, files, e), e.columns, CleanRow(e.row), LedgerIndex(dbs, e.tableName))
    ensures LedgerResolves(dbs, e.tableName)
        ==> RowOutcome(Materialize(dbs, files, e), e.columns, CleanRow(e.row), Some(OwnerIndexName(dbs, e.tableName)))
  {
    FoldRow(files, e.columns, CleanRow(e.row), LedgerIndex(dbs, e.tableName), StartDoc(dbs, e));
    if LedgerResolves(dbs, e.tableName) {
      LedgerOfOwnTable(dbs, e.tableName);
    }
  }

  /** Without `DB` and `Image_Loc` columns a document is named by its base display name and carries no bytes. */
  lemma MaterializePlainRow(dbs: seq<DbInfo>, files: map<string, FileRead>, e: Entry)
    requires ValidCatalog(dbs) && EntryShaped(dbs, e)
    requires "DB" !in e.columns && "Image_Loc" !in e.columns
    ensures var a := Materialize(dbs, files, e);
      a.displayName == DisplayBase(dbs, e) && a.bytes == [] && !a.haveBytes
  {
    FoldPlainRow(files, e.columns, CleanRow(e.row), LedgerIndex(dbs, e.tableName), StartDoc(dbs, e), |e.columns|);
  }
}
