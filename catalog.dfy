/**
 * The source catalog (`DbInfo`, `DbTableInfo`), the values a fetched row holds,
 * the table blocks of the buffer (`DataTable`) and the lookups the data source
 * performs on the catalog.
 */
module Catalog {
  import opened Wrappers
  import opened Strings

  datatype DbTableInfo = DbTableInfo(tableName: string, fieldsToIndex: seq<string>, keyColumns: seq<string>)

  /** `DbContext` is not part of the model: the rows each table would return live in the fetch oracle. */
  datatype DbInfo = DbInfo(
    dbName: string,
    tables: seq<DbTableInfo>,
    storedFields: seq<string>,
    indexPath: string,
    createOrRecreateFullIndex: bool,
    updateMarkedAsNeedsIndexing: bool,
    updateExistingSavedIndexes: bool,
    removeMissingDocuments: bool,
    removeListOfDocuments: bool)

  datatype DateTime = DateTime(year: nat, month: nat, day: nat, hour: nat, minute: nat, second: nat)

  /** The value of one cell: text, an integer, a `DateTime`, or `DBNull`. */
  datatype Value = Text(text: string) | Number(number: int) | Date(date: DateTime) | Null

  /** A fetched `DataTable`: its name `[Db.Table]`, its column names and its rows. */
  datatype Block = Block(tableName: string, columns: seq<string>, rows: seq<seq<Value>>)

  /** One row together with the name and columns of the block it came from. */
  datatype Entry = Entry(tableName: string, columns: seq<string>, row: seq<Value>)

  /** An `IndexedItem` of the ledger. */
  datatype IndexedItem = IndexedItem(indexName: string, docId: int)

  /** The `[Db.Table]` name the data source gives a fetched table. */
  function Qualify(dbName: string, tableName: string): string {
    "[" + dbName + "." + tableName + "]"
  }

  // ---------------------------------------------------------------- dates

  /** `n` in decimal, left-padded with zeros to `width` digits. */
  function Pad(n: nat, width: nat): (r: string)
    ensures |r| >= width
  {
    var s := NatToString(n);
    if |s| >= width then s else seq(width - |s|, _ => '0') + s
  }

  /**
   * A padded number is all digits, reads back as the number, and is exactly
   * `width` long unless the number needs more digits than that.
   */
  lemma PadDigits(n: nat, width: nat)
    ensures AllDigits(Pad(n, width)) && DigitsValue(Pad(n, width)) == n
    ensures |Pad(n, width)| == if |NatToString(n)| >= width then |NatToString(n)| else width
  {
    var s := NatToString(n);
    DigitsOfNat(n);
    if |s| < width {
      LeadingZerosValue(width - |s|, s);
    }
  }

  predicate IsMidnight(d: DateTime) {
    d.hour == 0 && d.minute == 0 && d.second == 0
  }

  /** `ToShortDateString()` in the invariant culture: `MM/dd/yyyy`. */
  function ShortDate(d: DateTime): string {
    Pad(d.month, 2) + "/" + Pad(d.day, 2) + "/" + Pad(d.year, 4)
  }

  /** The ` HH:mm:ss` that `ToString()` adds after the date. */
  function TimeOfDay(d: DateTime): (r: string)
    ensures |r| >= 9 && r[0] == ' '
  {
    " " + Pad(d.hour, 2) + ":" + Pad(d.minute, 2) + ":" + Pad(d.second, 2)
  }

  /** ` HH:mm:ss`: nine characters, colons at 3 and 6, and each field reads back as its part of the time. */
  lemma TimeOfDayFields(d: DateTime)
    requires d.hour < 100 && d.minute < 100 && d.second < 100
    ensures var r := TimeOfDay(d);
      && |r| == 9 && r[0] == ' ' && r[3] == ':' && r[6] == ':'
      && AllDigits(r[1..3]) && DigitsValue(r[1..3]) == d.hour
      && AllDigits(r[4..6]) && DigitsValue(r[4..6]) == d.minute
      && AllDigits(r[7..9]) && DigitsValue(r[7..9]) == d.second
  {
    ShortNatToString(d.hour);
    ShortNatToString(d.minute);
    ShortNatToString(d.second);
    PadDigits(d.hour, 2);
    PadDigits(d.minute, 2);
    PadDigits(d.second, 2);
    var h, m, s := Pad(d.hour, 2), Pad(d.minute, 2), Pad(d.second, 2);
    var r := TimeOfDay(d);
    assert r == " " + h + ":" + m + ":" + s;
    assert r[1..3] == h && r[4..6] == m && r[7..9] == s;
  }

  /** `ToString()` in the invariant culture: `MM/dd/yyyy HH:mm:ss`. */
  function LongDate(d: DateTime): string {
    ShortDate(d) + TimeOfDay(d)
  }

  /** `DateToString`: the date-only form exactly at midnight; the date part always leads. */
  function DateToString(d: DateTime): (r: string)
    ensures r == ShortDate(d) <==> IsMidnight(d)
    ensures StartsWith(r, ShortDate(d))
  {
    var short := ShortDate(d);
    if IsMidnight(d) then
      PrefixOfConcat(short, "");
      assert short + "" == short;
      short
    else
      PrefixOfConcat(short, TimeOfDay(d));
      LongDate(d)
  }

  /** How a cell is written into an identity or the field blob. */
  function Render(v: Value): string {
    match v
    case Text(s) => s
    case Number(n) => IntToString(n)
    case Date(d) => DateToString(d)
    case Null => ""
  }

  // ---------------------------------------------------------------- catalog shape

  predicate Distinct(xs: seq<string>) {
    forall i, j :: 0 <= i < j < |xs| ==> xs[i] != xs[j]
  }

  /** What the column loop needs of one table: key columns among the selected fields, and no field selected twice. */
  predicate TableOk(t: DbTableInfo) {
    && (forall k :: k in t.keyColumns ==> k in t.fieldsToIndex)
    && Distinct(t.fieldsToIndex)
  }

  predicate HasTable(dbs: seq<DbInfo>, i: int, j: int) {
    0 <= i < |dbs| && 0 <= j < |dbs[i].tables|
  }

  function TableAt(dbs: seq<DbInfo>, i: int, j: int): DbTableInfo
    requires HasTable(dbs, i, j)
  {
    dbs[i].tables[j]
  }

  /** The `[Db.Table]` name a table is fetched under. */
  function QualifiedAt(dbs: seq<DbInfo>, i: int, j: int): string
    requires HasTable(dbs, i, j)
  {
    Qualify(dbs[i].dbName, TableAt(dbs, i, j).tableName)
  }

  /**
   * The catalog the `.Single` lookups of a fetched table (lines 109 and 112)
   * succeed on: every table well formed and no `[Db.Table]` name used twice.
   * The same bare table name may appear in several databases; the ledger
   * lookup by bare name is modelled with its failure (`SingleOwner`).
   */
  ghost predicate ValidCatalog(dbs: seq<DbInfo>) {
    && (forall i, j :: HasTable(dbs, i, j) ==> TableOk(TableAt(dbs, i, j)))
    && (forall i, j, i', j' ::
          HasTable(dbs, i, j) && HasTable(dbs, i', j') && QualifiedAt(dbs, i, j) == QualifiedAt(dbs, i', j')
          ==> i == i' && j == j')
  }

  lemma QualifySplit(db: string, t: string)
    requires '.' !in t && ']' !in t
    ensures AfterLast(Qualify(db, t), '.') == t + "]"
  {
    assert Qualify(db, t) == ("[" + db) + ['.'] + (t + "]");
    AfterLastOf("[" + db, '.', t + "]");
  }

  // ---------------------------------------------------------------- lookups

  datatype TableRef = TableRef(db: nat, table: nat)

  /** The first table of `ts` (from `j` on) whose qualified name under `db` is `name`. */
  function FindInDb(db: string, ts: seq<DbTableInfo>, name: string, j: nat): (r: Option<nat>)
    ensures r.Some? ==> j <= r.value < |ts| && Qualify(db, ts[r.value].tableName) == name
    ensures r.None? ==> forall k :: j <= k < |ts| ==> Qualify(db, ts[k].tableName) != name
    decreases |ts| - j
  {
    if j >= |ts| then None
    else if Qualify(db, ts[j].tableName) == name then Some(j)
    else FindInDb(db, ts, name, j + 1)
  }

  /** The catalog entry of a fetched table, found by its `[Db.Table]` name. */
  function FindTable(dbs: seq<DbInfo>, name: string, i: nat): (r: Option<TableRef>)
    ensures r.Some? ==> i <= r.value.db && HasTable(dbs, r.value.db, r.value.table)
                        && Qualify(dbs[r.value.db].dbName, TableAt(dbs, r.value.db, r.value.table).tableName) == name
    ensures r.None? ==> forall a, b :: i <= a && HasTable(dbs, a, b) ==> Qualify(dbs[a].dbName, TableAt(dbs, a, b).tableName) != name
    decreases |dbs| - i
  {
    if i >= |dbs| then None
    else match FindInDb(dbs[i].dbName, dbs[i].tables, name, 0)
      case Some(j) => Some(TableRef(i, j))
      case None => FindTable(dbs, name, i + 1)
  }

  /** In a valid catalog the lookup of a table's own name finds exactly that table. */
  lemma FindOwnTable(dbs: seq<DbInfo>, i: nat, j: nat)
    requires ValidCatalog(dbs) && HasTable(dbs, i, j)
    ensures FindTable(dbs, Qualify(dbs[i].dbName, TableAt(dbs, i, j).tableName), 0) == Some(TableRef(i, j))
  {
    var r := FindTable(dbs, QualifiedAt(dbs, i, j), 0);
    assert r.Some?;
    assert QualifiedAt(dbs, r.value.db, r.value.table) == QualifiedAt(dbs, i, j);
  }

  /** A block name that belongs to the catalog. */
  predicate KnownTable(dbs: seq<DbInfo>, name: string) {
    FindTable(dbs, name, 0).Some?
  }

  function TableOf(dbs: seq<DbInfo>, name: string): DbTableInfo
    requires KnownTable(dbs, name)
  {
    var r := FindTable(dbs, name, 0).value;
    TableAt(dbs, r.db, r.table)
  }

  /** `curTable.TableName.Split('.').Last().Replace("]", "")`: the bare table name. */
  function RawName(qualified: string): string {
    ReplaceAll(AfterLast(qualified, '.'), "]", "")
  }

  predicate OwnsTable(db: DbInfo, raw: string) {
    exists b :: 0 <= b < |db.tables| && db.tables[b].tableName == raw
  }

  /** The first catalog entry, from `i` on, with a table of that bare name. */
  function FindOwner(dbs: seq<DbInfo>, raw: string, i: nat): (r: Option<nat>)
    ensures r.Some? ==> i <= r.value < |dbs| && OwnsTable(dbs[r.value], raw)
    ensures r.Some? ==> forall a :: i <= a < r.value ==> !OwnsTable(dbs[a], raw)
    ensures r.None? ==> forall a :: i <= a < |dbs| ==> !OwnsTable(dbs[a], raw)
    decreases |dbs| - i
  {
    if i >= |dbs| then None
    else if OwnsTable(dbs[i], raw) then Some(i)
    else FindOwner(dbs, raw, i + 1)
  }

  /**
   * `dbInfos.Single(dbi => dbi.Tables.Any(t => t.TableName == raw))` at the
   * ledger (line 139): the one database owning a table of that bare name;
   * `None` where `Single` throws, because no database or more than one does.
   */
  function SingleOwner(dbs: seq<DbInfo>, raw: string): (r: Option<nat>)
    ensures r.Some? <==> exists a :: 0 <= a < |dbs| && OwnsTable(dbs[a], raw) && IsOnlyOwner(dbs, raw, a)
    ensures r.Some? ==> r.value < |dbs| && OwnsTable(dbs[r.value], raw) && IsOnlyOwner(dbs, raw, r.value)
  {
    match FindOwner(dbs, raw, 0)
    case None => None
    case Some(i) =>
      if FindOwner(dbs, raw, i + 1).None? then Some(i)
      else
        var i' := FindOwner(dbs, raw, i + 1).value;
        assert forall a :: 0 <= a < |dbs| && OwnsTable(dbs[a], raw) ==> !IsOnlyOwner(dbs, raw, a) by {
          forall a | 0 <= a < |dbs| && OwnsTable(dbs[a], raw)
            ensures !IsOnlyOwner(dbs, raw, a)
          {
            if a == i { assert i' != a && OwnsTable(dbs[i'], raw); } else { assert i != a; }
          }
        }
        None
  }

  /** No database but `a` owns a table named `raw`. */
  predicate IsOnlyOwner(dbs: seq<DbInfo>, raw: string, a: nat) {
    forall b :: 0 <= b < |dbs| && b != a ==> !OwnsTable(dbs[b], raw)
  }

  /**
   * The bare name of a fetched table, when it holds no `.` or `]` and no other
   * database has a table of that name, leads back to the table's own database.
   */
  lemma OwnerOfQualified(dbs: seq<DbInfo>, i: nat, j: nat)
    requires HasTable(dbs, i, j)
    requires '.' !in TableAt(dbs, i, j).tableName && ']' !in TableAt(dbs, i, j).tableName
    requires IsOnlyOwner(dbs, TableAt(dbs, i, j).tableName, i)
    ensures RawName(QualifiedAt(dbs, i, j)) == TableAt(dbs, i, j).tableName
    ensures SingleOwner(dbs, TableAt(dbs, i, j).tableName) == Some(i)
  {
    var t := TableAt(dbs, i, j).tableName;
    RawNameOfQualified(dbs[i].dbName, t);
    assert OwnsTable(dbs[i], t) by { assert dbs[i].tables[j].tableName == t; }
  }

  /** Tables of one name under different databases get different `[Db.Table]` names. */
  lemma QualifyInjective(a: string, b: string, t: string)
    requires Qualify(a, t) == Qualify(b, t)
    ensures a == b
  {
    assert |a| == |b|;
    assert a == Qualify(a, t)[1..1 + |a|];
  }

  /** The bare name recovered from `[Db.Table]`, for a name without `.` or `]`. */
  lemma RawNameOfQualified(db: string, t: string)
    requires '.' !in t && ']' !in t
    ensures RawName(Qualify(db, t)) == t
  {
    QualifySplit(db, t);
    ReplaceCharAppend(t, "]", ']', "");
    ReplaceCharAbsent(t, ']', "");
    assert ReplaceAll("]", "]", "") == "";
    assert t + "" == t;
  }

  /** `IndexPath.Split('\\', '/').Last()`: the index's own directory name. */
  function IndexName(indexPath: string): string {
    LastSegment(indexPath, {'\\', '/'})
  }
}
