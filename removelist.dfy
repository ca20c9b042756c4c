/**
 * The identity part of `CreateRemoveListForUpdateRequest`: the manual list
 * kept when an entry mentions a catalog table, and the identities the refill
 * loop collects from every buffered block. Every row of a block is named
 * after the row at the read position `curRowIndex`, not after itself.
 */
module RemoveList {
  import opened Wrappers
  import opened Strings
  import opened Catalog
  import opened Materializer
  import opened Batching

  // ---------------------------------------------------------------- the manual list

  /** The qualified names `[Db.Table]` of one database's tables, in order. */
  function DbTableNames(dbName: string, ts: seq<DbTableInfo>): (r: seq<string>)
    ensures |r| == |ts|
  {
    if ts == [] then [] else [Qualify(dbName, ts[0].tableName)] + DbTableNames(dbName, ts[1..])
  }

  /** `indexTables`: the qualified names of every catalog table, database by database. */
  function IndexTables(dbs: seq<DbInfo>): seq<string> {
    if dbs == [] then [] else DbTableNames(dbs[0].dbName, dbs[0].tables) + IndexTables(dbs[1..])
  }

  /** `indexTables.Any(it => dl.Contains(it))`. */
  predicate MentionsAny(entry: string, tables: seq<string>) {
    tables != [] && (Contains(entry, tables[0]) || MentionsAny(entry, tables[1..]))
  }

  /** `MentionsAny` holds exactly when some table name occurs in the entry. */
  lemma {:induction false} MentionsAnySpec(entry: string, tables: seq<string>)
    ensures MentionsAny(entry, tables) <==> exists t :: t in tables && Contains(entry, t)
  {
    if tables != [] {
      MentionsAnySpec(entry, tables[1..]);
      assert forall t :: t in tables <==> t == tables[0] || t in tables[1..];
    }
  }

  /** `manualDocList.Where(...)`: the entries that mention a table, in order and with their repeats. */
  function KeepMentioning(manual: seq<string>, tables: seq<string>): seq<string> {
    if manual == [] then []
    else (if MentionsAny(manual[0], tables) then [manual[0]] else []) + KeepMentioning(manual[1..], tables)
  }

  /**
   * The filter keeps every copy of an entry that mentions a table and drops
   * every other: nothing is de-duplicated.
   */
  lemma {:induction false} KeepMentioningCounts(manual: seq<string>, tables: seq<string>)
    ensures forall x :: multiset(KeepMentioning(manual, tables))[x] == if MentionsAny(x, tables) then multiset(manual)[x] else 0
  {
    if manual != [] {
      KeepMentioningCounts(manual[1..], tables);
      assert manual == [manual[0]] + manual[1..];
    }
  }

  /** The kept entries keep their order: they are a subsequence of the list. */
  lemma {:induction false} KeepMentioningOrder(manual: seq<string>, tables: seq<string>)
    ensures |KeepMentioning(manual, tables)| <= |manual|
    ensures KeepMentioning(manual, tables) == manual <==> forall i :: 0 <= i < |manual| ==> MentionsAny(manual[i], tables)
  {
    if manual != [] {
      KeepMentioningOrder(manual[1..], tables);
      if !MentionsAny(manual[0], tables) {
        assert |KeepMentioning(manual, tables)| < |manual|;
      } else {
        assert forall i :: 1 <= i < |manual| ==> manual[i] == manual[1..][i - 1];
      }
    }
  }

  /** `manualDocList?.Where(...)?.ToList() ?? new List<string>()`. */
  function ManualList(dbs: seq<DbInfo>, manual: Option<seq<string>>): seq<string> {
    match manual
    case None => []
    case Some(m) => KeepMentioning(m, IndexTables(dbs))
  }

  // ---------------------------------------------------------------- identities of the buffer

  /** `n` copies of `x`. */
  function Repeat(x: string, n: nat): (r: seq<string>)
    ensures |r| == n
  {
    if n == 0 then [] else Repeat(x, n - 1) + [x]
  }

  lemma {:induction false} RepeatAt(x: string, n: nat, i: nat)
    requires i < n
    ensures Repeat(x, n)[i] == x
  {
    if i < n - 1 {
      RepeatAt(x, n - 1, i);
    }
  }

  /**
   * What the inner `for j` loop adds for one block: one identity per row, each
   * built from `Rows[curRowIndex]`; `None` is the `IndexOutOfRangeException`
   * of a non-empty block with fewer rows than `curRowIndex`.
   */
  function BlockNames(dbs: seq<DbInfo>, b: Block, cR: nat): Option<seq<string>>
    requires ValidCatalog(dbs) && BlockShaped(dbs, b)
  {
    if b.rows == [] then Some([])
    else if cR >= |b.rows| then None
    else
      ShapedEntry(dbs, b, cR);
      Some(Repeat(DocName(dbs, Entry(b.tableName, b.columns, b.rows[cR])), |b.rows|))
  }

  /** What the outer `for i` loop adds for the whole buffer, block by block. */
  function BlocksNames(dbs: seq<DbInfo>, blocks: seq<Block>, cR: nat): Option<seq<string>>
    requires ValidCatalog(dbs) && BlocksShaped(dbs, blocks)
  {
    if blocks == [] then Some([])
    else
      match BlockNames(dbs, blocks[0], cR)
      case None => None
      case Some(ns) =>
        match BlocksNames(dbs, blocks[1..], cR)
        case None => None
        case Some(rest) => Some(ns + rest)
  }

  /** The identity of `e`'s table: every identity built from one of its rows starts with it. */
  function NamePrefix(tableName: string): string {
    "db://" + tableName + "#"
  }

  /** Each name belongs to the table of the row at the same place, and there is one name per row. */
  predicate NamesFollow(ns: seq<string>, es: seq<Entry>) {
    |ns| == |es| && forall i :: 0 <= i < |ns| ==> StartsWith(ns[i], NamePrefix(es[i].tableName))
  }

  lemma NamesFollowAppend(a: seq<string>, b: seq<string>, x: seq<Entry>, y: seq<Entry>)
    requires NamesFollow(a, x) && NamesFollow(b, y)
    ensures NamesFollow(a + b, x + y)
  {
    forall i | 0 <= i < |a + b|
      ensures StartsWith((a + b)[i], NamePrefix((x + y)[i].tableName))
    {
      if i >= |a| {
        assert (a + b)[i] == b[i - |a|] && (x + y)[i] == y[i - |a|];
      }
    }
  }

  lemma {:induction false} EntriesTables(tableName: string, columns: seq<string>, rows: seq<seq<Value>>, i: nat)
    requires i < |rows|
    ensures |Entries(tableName, columns, rows)| == |rows|
    ensures Entries(tableName, columns, rows)[i].tableName == tableName
  {
    if i > 0 {
      EntriesTables(tableName, columns, rows[1..], i - 1);
    } else if |rows| > 1 {
      EntriesTables(tableName, columns, rows[1..], 0);
    }
  }

  lemma {:induction false} EntriesLength(tableName: string, columns: seq<string>, rows: seq<seq<Value>>)
    ensures |Entries(tableName, columns, rows)| == |rows|
  {
    if rows != [] {
      EntriesLength(tableName, columns, rows[1..]);
    }
  }

  /** A block's names are one per row, all of the block's table. */
  lemma BlockNamesFollow(dbs: seq<DbInfo>, b: Block, cR: nat)
    requires ValidCatalog(dbs) && BlockShaped(dbs, b) && BlockNames(dbs, b, cR).Some?
    ensures NamesFollow(BlockNames(dbs, b, cR).value, BlockEntries(b))
  {
    EntriesLength(b.tableName, b.columns, b.rows);
    if b.rows != [] {
      var ns := BlockNames(dbs, b, cR).value;
      var name := DocName(dbs, Entry(b.tableName, b.columns, b.rows[cR]));
      assert name == NamePrefix(b.tableName) + Join("|", KeyPairs(dbs, Entry(b.tableName, b.columns, b.rows[cR])));
      forall i | 0 <= i < |ns|
        ensures StartsWith(ns[i], NamePrefix(BlockEntries(b)[i].tableName))
      {
        RepeatAt(name, |b.rows|, i);
        EntriesTables(b.tableName, b.columns, b.rows, i);
        assert name[..|NamePrefix(b.tableName)|] == NamePrefix(b.tableName);
      }
    }
  }

  /** Every row of a block gets the identity of the row at `curRowIndex`. */
  lemma BlockNamesQuirk(dbs: seq<DbInfo>, b: Block, cR: nat, j: nat)
    requires ValidCatalog(dbs) && BlockShaped(dbs, b) && cR < |b.rows| && j < |b.rows|
    ensures EntryShaped(dbs, Entry(b.tableName, b.columns, b.rows[cR]))
    ensures BlockNames(dbs, b, cR).Some?
    ensures BlockNames(dbs, b, cR).value[j] == DocName(dbs, Entry(b.tableName, b.columns, b.rows[cR]))
  {
    ShapedEntry(dbs, b, cR);
    RepeatAt(DocName(dbs, Entry(b.tableName, b.columns, b.rows[cR])), |b.rows|, j);
  }

  /** A non-empty block too short for `Rows[curRowIndex]`. */
  predicate ShortBlock(b: Block, cR: nat) {
    0 < |b.rows| <= cR
  }

  lemma ShapedTail(dbs: seq<DbInfo>, blocks: seq<Block>)
    requires blocks != [] && BlocksShaped(dbs, blocks)
    ensures BlockShaped(dbs, blocks[0]) && BlocksShaped(dbs, blocks[1..])
  {
    forall t | 0 <= t < |blocks[1..]|
      ensures BlockShaped(dbs, blocks[1..][t])
    {
      assert blocks[1..][t] == blocks[t + 1];
    }
  }

  /** Some block of the buffer is too short. */
  predicate AnyShort(blocks: seq<Block>, cR: nat) {
    blocks != [] && (ShortBlock(blocks[0], cR) || AnyShort(blocks[1..], cR))
  }

  lemma {:induction false} AnyShortSpec(blocks: seq<Block>, cR: nat)
    ensures AnyShort(blocks, cR) <==> exists t :: 0 <= t < |blocks| && ShortBlock(blocks[t], cR)
  {
    if blocks != [] {
      AnyShortSpec(blocks[1..], cR);
      if exists t :: 0 <= t < |blocks[1..]| && ShortBlock(blocks[1..][t], cR) {
        var t :| 0 <= t < |blocks[1..]| && ShortBlock(blocks[1..][t], cR);
        assert blocks[t + 1] == blocks[1..][t];
      }
      if exists t :: 0 <= t < |blocks| && ShortBlock(blocks[t], cR) {
        var t :| 0 <= t < |blocks| && ShortBlock(blocks[t], cR);
        if t > 0 {
          assert blocks[1..][t - 1] == blocks[t];
        }
      }
    }
  }

  lemma {:induction false} BlocksNamesShort(dbs: seq<DbInfo>, blocks: seq<Block>, cR: nat)
    requires ValidCatalog(dbs) && BlocksShaped(dbs, blocks)
    ensures BlocksNames(dbs, blocks, cR).None? <==> AnyShort(blocks, cR)
  {
    if blocks != [] {
      ShapedTail(dbs, blocks);
      BlocksNamesShort(dbs, blocks[1..], cR);
    }
  }

  /** The loop throws exactly when the buffer holds a non-empty block shorter than `curRowIndex + 1`. */
  lemma BlocksNamesThrow(dbs: seq<DbInfo>, blocks: seq<Block>, cR: nat)
    requires ValidCatalog(dbs) && BlocksShaped(dbs, blocks)
    ensures BlocksNames(dbs, blocks, cR).None? <==> exists t :: 0 <= t < |blocks| && ShortBlock(blocks[t], cR)
  {
    BlocksNamesShort(dbs, blocks, cR);
    AnyShortSpec(blocks, cR);
  }

  /** The buffer's names follow its rows, one by one. */
  lemma {:induction false} BlocksNamesFollow(dbs: seq<DbInfo>, blocks: seq<Block>, cR: nat)
    requires ValidCatalog(dbs) && BlocksShaped(dbs, blocks) && BlocksNames(dbs, blocks, cR).Some?
    ensures NamesFollow(BlocksNames(dbs, blocks, cR).value, Flatten(blocks))
  {
    if blocks != [] {
      ShapedTail(dbs, blocks);
      BlocksNamesFollow(dbs, blocks[1..], cR);
      var b := blocks[0];
      BlockNamesFollow(dbs, b, cR);
      NamesFollowAppend(BlockNames(dbs, b, cR).value, BlocksNames(dbs, blocks[1..], cR).value, BlockEntries(b), Flatten(blocks[1..]));
    }
  }

  // ---------------------------------------------------------------- the refill loop

  /** What the `while (GetMoreRecords() && !bDatabaseFailed)` loop leaves: the collected names (`None` for the exception) and where its last refill started. */
  datatype Drained = Drained(names: Option<seq<string>>, last: Pos)

  /**
   * The loop from refill position `p`: refill; stop if the refill threw, buffered
   * nothing, or the failure flag was already set; otherwise name the buffer and go on.
   */
  function Drain(dbs: seq<DbInfo>, be: Backend, budget: int, p: Pos, cR: nat, failed: bool): Drained
    requires ValidCatalog(dbs) && BackendFits(dbs, be)
    decreases Work(dbs, be, p)
  {
    var f := Refilled(dbs, be, budget, p);
    if failed || f.error.Some? || f.blocks == [] then Drained(Some([]), p)
    else
      FillShaped(dbs, be, budget, p, 0, []);
      match BlocksNames(dbs, f.blocks, cR)
      case None => Drained(None, p)
      case Some(ns) =>
        RefillProgress(dbs, be, budget, p);
        var d := Drain(dbs, be, budget, f.next, cR, false);
        Drained(if d.names.None? then None else Some(ns + d.names.value), d.last)
  }

  /** The names collected before a run of the loop, put in front of what the run collects. */
  function Prepend(prefix: seq<string>, d: Drained): Drained {
    Drained(if d.names.None? then None else Some(prefix + d.names.value), d.last)
  }

  lemma PrependNothing(d: Drained)
    ensures Prepend([], d) == d
  {
    if d.names.Some? {
      assert [] + d.names.value == d.names.value;
    }
  }

  lemma PrependTwice(a: seq<string>, b: seq<string>, d: Drained)
    ensures Prepend(a, Prepend(b, d)) == Prepend(a + b, d)
  {
    if d.names.Some? {
      Associate(a, b, d.names.value);
    }
  }

  /**
   * A loop that neither throws nor meets a failure names every row still to
   * fetch from `p` (once each, by the table it comes from), unless the budget
   * allows no rows at all.
   */
  lemma {:induction false} DrainNamesAll(dbs: seq<DbInfo>, be: Backend, budget: int, p: Pos, cR: nat)
    requires ValidCatalog(dbs) && BackendFits(dbs, be) && budget > 0
    requires var d := Drain(dbs, be, budget, p, cR, false);
      d.names.Some? && Refilled(dbs, be, budget, d.last).error.None?
    ensures NamesFollow(Drain(dbs, be, budget, p, cR, false).names.value, RestFrom(dbs, be, p))
    decreases Work(dbs, be, p)
  {
    var f := Refilled(dbs, be, budget, p);
    RefillCovers(dbs, be, budget, p);
    if f.error.Some? || f.blocks == [] {
      RefillEnds(dbs, be, budget, p);
      assert Flatten(f.blocks) == [];
      assert RestFrom(dbs, be, p) == [];
    } else {
      FillShaped(dbs, be, budget, p, 0, []);
      var ns := BlocksNames(dbs, f.blocks, cR).value;
      RefillProgress(dbs, be, budget, p);
      DrainNamesAll(dbs, be, budget, f.next, cR);
      BlocksNamesFollow(dbs, f.blocks, cR);
      var d := Drain(dbs, be, budget, f.next, cR, false);
      NamesFollowAppend(ns, d.names.value, Flatten(f.blocks), RestFrom(dbs, be, f.next));
    }
  }

  /** At the first row no block is too short, so a loop started there never throws. */
  lemma {:induction false} DrainFromFirstRow(dbs: seq<DbInfo>, be: Backend, budget: int, p: Pos, failed: bool)
    requires ValidCatalog(dbs) && BackendFits(dbs, be)
    ensures Drain(dbs, be, budget, p, 0, failed).names.Some?
    decreases Work(dbs, be, p)
  {
    var f := Refilled(dbs, be, budget, p);
    if !(failed || f.error.Some? || f.blocks == []) {
      FillShaped(dbs, be, budget, p, 0, []);
      BlocksNamesThrow(dbs, f.blocks, 0);
      RefillProgress(dbs, be, budget, p);
      DrainFromFirstRow(dbs, be, budget, f.next, false);
    }
  }

  /** The names of two runs of blocks, one after the other; a throw in either is a throw. */
  lemma {:induction false} BlocksNamesAppend(dbs: seq<DbInfo>, xs: seq<Block>, ys: seq<Block>, cR: nat)
    requires ValidCatalog(dbs) && BlocksShaped(dbs, xs) && BlocksShaped(dbs, ys)
    ensures BlocksShaped(dbs, xs + ys)
    ensures BlocksNames(dbs, xs + ys, cR) ==
      if BlocksNames(dbs, xs, cR).Some? && BlocksNames(dbs, ys, cR).Some?
      then Some(BlocksNames(dbs, xs, cR).value + BlocksNames(dbs, ys, cR).value)
      else None
  {
    if xs == [] {
      assert xs + ys == ys;
      if BlocksNames(dbs, ys, cR).Some? {
        assert [] + BlocksNames(dbs, ys, cR).value == BlocksNames(dbs, ys, cR).value;
      }
    } else {
      assert (xs + ys)[0] == xs[0] && (xs + ys)[1..] == xs[1..] + ys;
      BlocksNamesAppend(dbs, xs[1..], ys, cR);
      match BlockNames(dbs, xs[0], cR)
      case None =>
      case Some(a) =>
        if BlocksNames(dbs, xs[1..], cR).Some? && BlocksNames(dbs, ys, cR).Some? {
          Associate(a, BlocksNames(dbs, xs[1..], cR).value, BlocksNames(dbs, ys, cR).value);
        }
    }
  }

  /** The inner loops over the buffer: `for i` over the blocks, then `NameRows`. */
  method CollectNames(dbs: seq<DbInfo>, blocks: seq<Block>, cR: nat) returns (ns: Option<seq<string>>)
    requires ValidCatalog(dbs) && BlocksShaped(dbs, blocks)
    ensures ns == BlocksNames(dbs, blocks, cR)
  {
    var acc: seq<string> := [];
    var i := 0;
    while i < |blocks|
      invariant 0 <= i <= |blocks|
      invariant BlocksNames(dbs, blocks[..i], cR) == Some(acc)
    {
      var mine := NameRows(dbs, blocks[i], cR);
      CollectStep(dbs, blocks, i, cR, acc);
      if mine.None? {
        return None;
      }
      acc := acc + mine.value;
      i := i + 1;
    }
    assert blocks[..i] == blocks;
    ns := Some(acc);
  }

  /** One block more: its names follow the others', and a throw ends the whole. */
  lemma CollectStep(dbs: seq<DbInfo>, blocks: seq<Block>, i: nat, cR: nat, acc: seq<string>)
    requires ValidCatalog(dbs) && BlocksShaped(dbs, blocks) && i < |blocks|
    requires BlocksNames(dbs, blocks[..i], cR) == Some(acc)
    ensures BlockShaped(dbs, blocks[i])
    ensures BlockNames(dbs, blocks[i], cR).None? ==> BlocksNames(dbs, blocks, cR) == None
    ensures BlockNames(dbs, blocks[i], cR).Some? ==>
      BlocksNames(dbs, blocks[..i + 1], cR) == Some(acc + BlockNames(dbs, blocks[i], cR).value)
  {
    if BlockNames(dbs, blocks[i], cR).None? {
      CollectThrows(dbs, blocks, i, cR);
    } else {
      CollectAppends(dbs, blocks, i, cR);
    }
  }

  lemma CollectThrows(dbs: seq<DbInfo>, blocks: seq<Block>, i: nat, cR: nat)
    requires ValidCatalog(dbs) && BlocksShaped(dbs, blocks) && i < |blocks|
    requires BlockNames(dbs, blocks[i], cR).None?
    ensures BlocksNames(dbs, blocks, cR) == None
  {
    assert blocks == blocks[..i] + blocks[i..] && blocks[i..][0] == blocks[i];
    BlocksNamesAppend(dbs, blocks[..i], blocks[i..], cR);
  }

  lemma CollectAppends(dbs: seq<DbInfo>, blocks: seq<Block>, i: nat, cR: nat)
    requires ValidCatalog(dbs) && BlocksShaped(dbs, blocks) && i < |blocks|
    requires BlockNames(dbs, blocks[i], cR).Some? && BlocksNames(dbs, blocks[..i], cR).Some?
    ensures BlocksNames(dbs, blocks[..i + 1], cR)
      == Some(BlocksNames(dbs, blocks[..i], cR).value + BlockNames(dbs, blocks[i], cR).value)
  {
    var b := blocks[i];
    SingleBlockNames(dbs, b, cR);
    assert blocks[..i + 1] == blocks[..i] + [b];
    BlocksNamesAppend(dbs, blocks[..i], [b], cR);
  }

  /** A buffer of one block names what that block names. */
  lemma SingleBlockNames(dbs: seq<DbInfo>, b: Block, cR: nat)
    requires ValidCatalog(dbs) && BlockShaped(dbs, b) && BlocksShaped(dbs, [b])
    requires BlockNames(dbs, b, cR).Some?
    ensures BlocksNames(dbs, [b], cR) == BlockNames(dbs, b, cR)
  {
    var mine := BlockNames(dbs, b, cR);
    assert [b][1..] == [];
    assert mine.value + [] == mine.value;
  }

  /** The `for j` loop over one block: each row is named after `Rows[curRowIndex]`, which throws when out of range. */
  method NameRows(dbs: seq<DbInfo>, b: Block, cR: nat) returns (ns: Option<seq<string>>)
    requires ValidCatalog(dbs) && BlockShaped(dbs, b)
    ensures ns == BlockNames(dbs, b, cR)
  {
    var acc: seq<string> := [];
    var j := 0;
    while j < |b.rows|
      invariant 0 <= j <= |b.rows|
      invariant j > 0 ==> (cR < |b.rows| && EntryShaped(dbs, Entry(b.tableName, b.columns, b.rows[cR]))
        && acc == Repeat(DocName(dbs, Entry(b.tableName, b.columns, b.rows[cR])), j))
      invariant j == 0 ==> acc == []
    {
      if cR >= |b.rows| {
        // `curTable.Rows[curRowIndex]` throws
        return None;
      }
      var curRow := b.rows[cR];
      ShapedEntry(dbs, b, cR);
      acc := acc + [DocName(dbs, Entry(b.tableName, b.columns, curRow))];
      j := j + 1;
    }
    ns := Some(acc);
  }
}
