/**
 * The string side of the two lookups by identity: the dtSearch request of
 * `GetDocId`, and the guard, the name parse and the `WHERE` builder of
 * `GetDocByName`. An identity is `db://[Db.Table]#k1=v1|k2=v2...`.
 */
module Lookup {
  import opened Wrappers
  import opened Strings
  import opened Catalog
  import opened Materializer

  // ---------------------------------------------------------------- string facts

  /** Replacing one character by text that lacks `c` brings in no `c`. */
  lemma {:induction false} ReplaceCharKeepsOut(s: string, d: char, rep: string, c: char)
    requires c !in s && c !in rep
    ensures c !in ReplaceAll(s, [d], rep)
    decreases |s|
  {
    if |s| >= 1 {
      ReplaceCharKeepsOut(s[1..], d, rep, c);
    }
  }

  /** A join of parts that lack `c`, with a separator that lacks `c`, lacks `c`. */
  lemma {:induction false} JoinKeepsOut(sep: string, parts: seq<string>, c: char)
    requires c !in sep && forall i :: 0 <= i < |parts| ==> c !in parts[i]
    ensures c !in Join(sep, parts)
  {
    if |parts| > 1 {
      JoinKeepsOut(sep, parts[1..], c);
    }
  }

  /** Joining one more part. */
  lemma {:induction false} JoinSnoc(sep: string, parts: seq<string>, x: string)
    ensures Join(sep, parts + [x]) == if parts == [] then x else Join(sep, parts) + sep + x
  {
    if |parts| == 1 {
      assert parts + [x] == [parts[0], x];
    } else if |parts| > 1 {
      assert (parts + [x])[1..] == parts[1..] + [x];
      JoinSnoc(sep, parts[1..], x);
    }
  }

  // ---------------------------------------------------------------- identifiers

  /**
   * `GetEscapedValue`, that is `SqlCommandBuilder.QuoteIdentifier` of the SQL
   * Server provider: the name in brackets, each `]` doubled.
   */
  function QuoteIdentifier(s: string): string {
    "[" + ReplaceAll(s, "]", "]]") + "]"
  }

  lemma QuotePlain(s: string)
    requires ']' !in s
    ensures QuoteIdentifier(s) == "[" + s + "]"
  {
    ReplaceCharAbsent(s, ']', "]]");
  }

  // ---------------------------------------------------------------- GetDocId

  /** The `Col=Val` elements of an identity: the text after its last `#`, cut at each `|`. */
  function FieldVals(name: string): seq<string> {
    Split(AfterLast(name, '#'), '|')
  }

  /** The dtSearch request of `GetDocId` (line 393): `=` becomes `::`, then the elements are joined with ` AND `. */
  function SearchRequest(name: string): string {
    Join(" AND ", FieldVals(ReplaceAll(name, "=", "::")))
  }

  /** One `Col=Val` element as a dtSearch field condition `Col::Val`. */
  function SearchTerm(pair: string): string {
    ReplaceAll(pair, "=", "::")
  }

  function SearchTerms(pairs: seq<string>): (r: seq<string>)
    ensures |r| == |pairs|
  {
    if pairs == [] then [] else [SearchTerm(pairs[0])] + SearchTerms(pairs[1..])
  }

  /** The elements of an identity: `#`-free and `|`-free texts. */
  predicate PlainPairs(pairs: seq<string>) {
    forall i :: 0 <= i < |pairs| ==> '#' !in pairs[i] && '|' !in pairs[i]
  }

  /** The elements come back out of an identity one by one, whatever precedes the `#`. */
  lemma FieldValsOfIdentity(prefix: string, pairs: seq<string>)
    requires |pairs| >= 1 && PlainPairs(pairs)
    ensures FieldVals(prefix + "#" + Join("|", pairs)) == pairs
  {
    JoinKeepsOut("|", pairs, '#');
    AfterLastOf(prefix, '#', Join("|", pairs));
    SplitJoin(pairs, '|');
  }

  /** Rewriting `=` inside a join of `|`-free elements rewrites each element. */
  lemma {:induction false} SearchTermsJoin(pairs: seq<string>)
    requires PlainPairs(pairs)
    ensures ReplaceAll(Join("|", pairs), "=", "::") == Join("|", SearchTerms(pairs))
    ensures PlainPairs(SearchTerms(pairs))
  {
    if pairs == [] {
      assert ReplaceAll("", "=", "::") == "";
    } else if |pairs| == 1 {
      ReplaceCharKeepsOut(pairs[0], '=', "::", '#');
      ReplaceCharKeepsOut(pairs[0], '=', "::", '|');
    } else {
      var rest := Join("|", pairs[1..]);
      SearchTermsJoin(pairs[1..]);
      ReplaceCharAppend(pairs[0] + "|", rest, '=', "::");
      ReplaceCharAppend(pairs[0], "|", '=', "::");
      ReplaceCharAbsent("|", '=', "::");
      ReplaceCharKeepsOut(pairs[0], '=', "::", '#');
      ReplaceCharKeepsOut(pairs[0], '=', "::", '|');
      var terms := SearchTerms(pairs);
      assert terms[0] == SearchTerm(pairs[0]) && terms[1..] == SearchTerms(pairs[1..]);
    }
  }

  /**
   * The request for an identity is the conjunction of its elements, each
   * `Col=Val` as `Col::Val`, in key order; an identity without key columns
   * gives the empty request.
   */
  lemma SearchRequestOfIdentity(prefix: string, pairs: seq<string>)
    requires PlainPairs(pairs)
    ensures SearchRequest(prefix + "#" + Join("|", pairs)) == Join(" AND ", SearchTerms(pairs))
  {
    var joined := Join("|", pairs);
    SearchTermsJoin(pairs);
    ReplaceCharAppend(prefix + "#", joined, '=', "::");
    ReplaceCharAppend(prefix, "#", '=', "::");
    ReplaceCharAbsent("#", '=', "::");
    var p' := ReplaceAll(prefix, "=", "::");
    assert ReplaceAll(prefix + "#" + joined, "=", "::") == p' + "#" + Join("|", SearchTerms(pairs));
    if pairs == [] {
      AfterLastOf(p', '#', "");
      assert Split("", '|') == [""];
    } else {
      FieldValsOfIdentity(p', SearchTerms(pairs));
    }
  }

  /** The request for a document's own identity searches its key columns. */
  lemma SearchRequestOfDocName(dbs: seq<DbInfo>, e: Entry)
    requires EntryShaped(dbs, e) && PlainPairs(KeyPairs(dbs, e))
    ensures SearchRequest(DocName(dbs, e)) == Join(" AND ", SearchTerms(KeyPairs(dbs, e)))
  {
    assert DocName(dbs, e) == ("db://" + e.tableName) + "#" + Join("|", KeyPairs(dbs, e));
    SearchRequestOfIdentity("db://" + e.tableName, KeyPairs(dbs, e));
  }

  // ---------------------------------------------------------------- GetDocByName

  /** The guard of line 410: an identity starts with `db://` and holds a `#`. */
  predicate NameAccepted(name: string) {
    StartsWith(name, "db://") && Contains(name, "#")
  }

  /** Every identity `GetNextDoc` builds passes the guard. */
  lemma DocNameAccepted(dbs: seq<DbInfo>, e: Entry)
    requires EntryShaped(dbs, e)
    ensures NameAccepted(DocName(dbs, e))
  {
    assert DocName(dbs, e) == "db://" + e.tableName + "#" + Join("|", KeyPairs(dbs, e));
    IdentityAccepted(e.tableName, Join("|", KeyPairs(dbs, e)));
  }

  /** Any `db://` name with a `#` after it passes the guard. */
  lemma IdentityAccepted(q: string, rest: string)
    ensures NameAccepted("db://" + q + "#" + rest)
  {
    var name := "db://" + q + "#" + rest;
    assert name[..5] == "db://";
    assert name[5 + |q|..5 + |q| + 1] == "#";
    assert OccursAt(name, "#", 5 + |q|);
  }

  /** As written (line 414): the `[Db.Table]` part is taken as what lies after the last `/`, up to its first `#`. */
  function TargetAsWritten(name: string): string {
    BeforeFirst(AfterLast(name, '/'), '#')
  }

  /** Corrected: the text between the `db://` prefix and the first `#`. */
  function Target(name: string): string
    requires StartsWith(name, "db://")
  {
    BeforeFirst(name[5..], '#')
  }

  /** The corrected parse gives back the table part of any identity. */
  lemma TargetOfIdentity(q: string, rest: string)
    requires '#' !in q
    ensures StartsWith("db://" + q + "#" + rest, "db://")
    ensures Target("db://" + q + "#" + rest) == q
  {
    var name := "db://" + q + "#" + rest;
    assert name[..5] == "db://";
    assert name[5..] == q + ['#'] + rest;
    BeforeFirstOf(q, '#', rest);
  }

  /** The parse as written agrees with the corrected one when no `/` follows the prefix. */
  lemma TargetAsWrittenWithoutSlash(q: string, rest: string)
    requires '#' !in q && '/' !in q && '/' !in rest
    ensures TargetAsWritten("db://" + q + "#" + rest) == q
  {
    var tail := q + "#" + rest;
    assert "db://" + q + "#" + rest == "db:/" + ['/'] + tail;
    assert '/' !in tail;
    AfterLastOf("db:/", '/', tail);
    assert tail == q + ['#'] + rest;
    BeforeFirstOf(q, '#', rest);
  }

  /** As written, a `/` in the key values (every `DateTime` key has one) takes over the parse. */
  lemma TargetAsWrittenAfterSlash(front: string, back: string)
    requires '/' !in back && '#' !in back
    ensures TargetAsWritten(front + "/" + back) == back
  {
    AfterLastOf(front, '/', back);
    BeforeFirstWhole(back, '#');
  }

  /**
   * An identity whose key values hold a `/` (every `DateTime` key does, as
   * `MM/dd/yyyy`): as written, the parse returns the text after the last `/`,
   * never the bracketed table part the corrected parse returns.
   */
  lemma TargetAsWrittenMisparses(q: string, front: string, back: string)
    requires |q| > 0 && q[0] == '[' && '#' !in q
    requires '/' !in back && '#' !in back && '[' !in back
    ensures var name := "db://" + q + "#" + front + "/" + back;
      && TargetAsWritten(name) == back
      && StartsWith(name, "db://") && Target(name) == q
      && TargetAsWritten(name) != Target(name)
  {
    var name := "db://" + q + "#" + front + "/" + back;
    assert name == ("db://" + q + "#" + front) + "/" + back;
    TargetAsWrittenAfterSlash("db://" + q + "#" + front, back);
    assert name == "db://" + q + "#" + (front + "/" + back);
    TargetOfIdentity(q, front + "/" + back);
    assert q[0] in q;
  }

  /** The identity `db://[D.T]#Day=01/02/2020` is parsed as written to the table part `2020`. */
  lemma TargetAsWrittenMisparsesDate()
    ensures TargetAsWritten("db://[D.T]#Day=01/02/2020") == "2020"
  {
    var q, front, back := "[D.T]", "Day=01/02", "2020";
    assert '/' !in back && '#' !in back && '[' !in back;
    assert "db://[D.T]#Day=01/02/2020" == "db://" + q + "#" + front + "/" + back;
    TargetAsWrittenMisparses(q, front, back);
  }

  /** Lines 414-415: the escaped table name, from the escaped target after its last `.`, its `]` removed. */
  function ParsedTable(target: string): string {
    QuoteIdentifier(ReplaceAll(AfterLast(QuoteIdentifier(target), '.'), "]", ""))
  }

  /** Lines 414 and 416: the escaped database name, from the escaped target before its first `.`, its `[` removed. */
  function ParsedDb(target: string): string {
    QuoteIdentifier(ReplaceAll(BeforeFirst(QuoteIdentifier(target), '.'), "[", ""))
  }

  /** A bracket- and dot-free name. */
  predicate PlainName(s: string) {
    '.' !in s && '[' !in s && ']' !in s
  }

  /** Escaping `[Db.Table]` doubles its closing bracket only. */
  lemma QuoteQualified(db: string, t: string)
    requires ']' !in db && ']' !in t
    ensures QuoteIdentifier(Qualify(db, t)) == ("[[" + db) + ['.'] + (t + "]]]")
  {
    var front := "[" + db + "." + t;
    assert Qualify(db, t) == front + "]";
    assert ']' !in front;
    ReplaceCharAppend(front, "]", ']', "]]");
    ReplaceCharAbsent(front, ']', "]]");
    assert ReplaceAll("]", "]", "]]") == "]]";
  }

  /** `[Db.Table]` parses back to the escaped `[Table]`. */
  lemma ParseQualifiedTable(db: string, t: string)
    requires ']' !in db && '.' !in t && ']' !in t
    ensures ParsedTable(Qualify(db, t)) == "[" + t + "]"
  {
    QuoteQualified(db, t);
    assert '.' !in t + "]]]";
    AfterLastOf("[[" + db, '.', t + "]]]");
    ReplaceCharAppend(t, "]]]", ']', "");
    ReplaceCharAbsent(t, ']', "");
    assert ReplaceAll("]]]", "]", "") == "";
    assert t + "" == t;
    QuotePlain(t);
  }

  /** `[Db.Table]` parses back to the escaped `[Db]`. */
  lemma ParseQualifiedDb(db: string, t: string)
    requires PlainName(db) && ']' !in t
    ensures ParsedDb(Qualify(db, t)) == "[" + db + "]"
  {
    QuoteQualified(db, t);
    assert '.' !in "[[" + db;
    BeforeFirstOf("[[" + db, '.', t + "]]]");
    ReplaceCharAppend("[[", db, '[', "");
    ReplaceCharAbsent(db, '[', "");
    assert ReplaceAll("[[", "[", "") == "";
    assert "" + db == db;
    QuotePlain(db);
  }

  /** One term of the `WHERE` clause: the escaped column of element `i` against parameter `@p{i}`. */
  function WhereTerm(fieldVal: string, i: nat): string {
    QuoteIdentifier(BeforeFirst(fieldVal, '=')) + " = @p" + NatToString(i)
  }

  /** The terms of the first `n` elements. */
  function WhereTerms(fieldVals: seq<string>, n: nat): (r: seq<string>)
    requires n <= |fieldVals|
    ensures |r| == n
  {
    if n == 0 then [] else WhereTerms(fieldVals, n - 1) + [WhereTerm(fieldVals[n - 1], n - 1)]
  }

  /**
   * The `foreach` of lines 420-424: each element appends its term, after
   * `" AND "` once the builder holds text.
   */
  method BuildWhere(fieldVals: seq<string>) returns (parmWhere: string)
    ensures parmWhere == Join(" AND ", WhereTerms(fieldVals, |fieldVals|))
  {
    parmWhere := "";
    var i := 0;
    while i < |fieldVals|
      invariant 0 <= i <= |fieldVals|
      invariant parmWhere == Join(" AND ", WhereTerms(fieldVals, i))
      invariant |parmWhere| > 0 <==> i > 0
    {
      var term := WhereTerm(fieldVals[i], i);
      JoinSnoc(" AND ", WhereTerms(fieldVals, i), term);
      parmWhere := parmWhere + (if |parmWhere| > 0 then " AND " else "") + term;
      i := i + 1;
    }
  }

  /** For `Col=Val` elements with `=`-free column names, term `i` names column `i`. */
  lemma {:induction false} WhereTermsOfPairs(keys: seq<string>, vals: seq<string>, pairs: seq<string>, n: nat)
    requires |keys| == |vals| == |pairs| && n <= |pairs|
    requires forall i :: 0 <= i < |pairs| ==> pairs[i] == keys[i] + "=" + vals[i] && '=' !in keys[i]
    ensures forall i :: 0 <= i < n ==> WhereTerms(pairs, n)[i] == QuoteIdentifier(keys[i]) + " = @p" + NatToString(i)
  {
    if n > 0 {
      WhereTermsOfPairs(keys, vals, pairs, n - 1);
      assert pairs[n - 1] == keys[n - 1] + ['='] + vals[n - 1];
      BeforeFirstOf(keys[n - 1], '=', vals[n - 1]);
    }
  }

  /** What `GetDocByName` sends: the escaped database name it looks up and the command text. */
  datatype Query = Query(dbName: string, commandText: string)

  /**
   * Lines 409-432 with the corrected parse of the table part: `None` for a
   * name the guard refuses, else the database name and
   * `SELECT * FROM {table} WHERE {parmWhere}`.
   */
  method DocByNameQuery(name: string) returns (q: Option<Query>)
    ensures q.None? <==> !NameAccepted(name)
    ensures q.Some? ==>
      var target := Target(name);
      q.value == Query(ParsedDb(target),
        "SELECT * FROM " + ParsedTable(target) + " WHERE " + Join(" AND ", WhereTerms(FieldVals(name), |FieldVals(name)|)))
  {
    if !StartsWith(name, "db://") || !ContainsChar(name, '#') {
      return None;
    }
    var target := Target(name);
    var table := ParsedTable(target);
    var dbName := ParsedDb(target);
    var fieldVals := FieldVals(name);
    var parmWhere := BuildWhere(fieldVals);
    q := Some(Query(dbName, "SELECT * FROM " + table + " WHERE " + parmWhere));
  }

  /** `Contains("#")` for a one-character needle. */
  function ContainsChar(s: string, c: char): (r: bool)
    ensures r <==> Contains(s, [c])
  {
    if c in s then
      var i :| 0 <= i < |s| && s[i] == c;
      assert OccursAt(s, [c], i);
      true
    else
      assert forall i :: 0 <= i <= |s| - 1 ==> !OccursAt(s, [c], i) by {
        forall i | 0 <= i <= |s| - 1
          ensures !OccursAt(s, [c], i)
        {
          assert s[i..i + 1][0] == s[i];
        }
      }
      false
  }

  /**
   * The query for a document's identity selects from its table, one
   * parameter per key column, in key order.
   */
  lemma DocByNameOfIdentity(db: string, t: string, keys: seq<string>, vals: seq<string>, pairs: seq<string>)
    requires PlainName(db) && '#' !in db && '.' !in t && ']' !in t && '#' !in t
    requires |keys| == |vals| == |pairs| >= 1 && PlainPairs(pairs)
    requires forall i :: 0 <= i < |pairs| ==> pairs[i] == keys[i] + "=" + vals[i] && '=' !in keys[i]
    ensures var name := "db://" + Qualify(db, t) + "#" + Join("|", pairs);
      && NameAccepted(name)
      && ParsedTable(Target(name)) == "[" + t + "]"
      && ParsedDb(Target(name)) == "[" + db + "]"
      && FieldVals(name) == pairs
      && forall i :: 0 <= i < |pairs| ==>
           WhereTerms(FieldVals(name), |pairs|)[i] == QuoteIdentifier(keys[i]) + " = @p" + NatToString(i)
  {
    var q := Qualify(db, t);
    assert '#' !in q;
    TargetOfIdentity(q, Join("|", pairs));
    IdentityAccepted(q, Join("|", pairs));
    assert "db://" + q + "#" + Join("|", pairs) == ("db://" + q) + "#" + Join("|", pairs);
    FieldValsOfIdentity("db://" + q, pairs);
    ParseQualifiedTable(db, t);
    ParseQualifiedDb(db, t);
    WhereTermsOfPairs(keys, vals, pairs, |pairs|);
  }
}
