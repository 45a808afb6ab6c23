/**
 `insert` and `update`: the column/value lists each statement carries, the
 literal each value becomes, and the success rule each applies. The
 statement's execution is the database's: `insert` receives the key the
 database reports, `update` the affected-row count.

 To say what a literal means, the module also reads a single-quoted MySQL
 string literal the way the server does (backslash escapes, doubled quotes).
 */
module Writes {
  import opened PhpValue
  import opened Strings
  import opened Descriptor
  import opened Entity
  import opened Assoc

  /** A value as it appears in a statement: `NULL` or `'body'`. */
  datatype Literal = SqlNull | Quoted(body: string)

  function LiteralSql(l: Literal): string {
    match l
    case SqlNull => "NULL"
    case Quoted(body) => "'" + body + "'"
  }

  // ------------------------------------------------------------ addslashes

  /** `addslashes`: a backslash before `'`, `"` and `\`, and NUL written as `\0`. */
  function AddSlashes(s: string): string {
    if |s| == 0 then "" else Escape(s[0]) + AddSlashes(s[1..])
  }

  /** The `addslashes` escape of one character. */
  function Escape(c: char): string {
    if c == '\'' || c == '"' || c == '\\' then ['\\', c] else if c == '\0' then "\\0" else [c]
  }

  // ------------------------------------------------- reading a SQL literal

  /** What MySQL makes of the escape sequence `\c`. */
  function Unescape(c: char): string {
    if c == '0' then "\0"
    else if c == 'n' then "\n"
    else if c == 'r' then "\r"
    else if c == 't' then "\t"
    else if c == 'b' then [8 as char]
    else if c == 'Z' then [26 as char]
    else if c == '%' || c == '_' then ['\\', c]
    else [c]
  }

  function Prepend(s: string, o: Option<(string, string)>): Option<(string, string)> {
    match o
    case None => None
    case Some((body, rest)) => Some((s + body, rest))
  }

  /**
   Reads the inside of a quoted literal up to its closing quote: the decoded
   text and what follows the closing quote; `None` if the literal never ends.
   */
  function ReadBody(t: string): Option<(string, string)>
    decreases |t|
  {
    if |t| == 0 then None
    else if t[0] == '\\' then
      if |t| < 2 then None else Prepend(Unescape(t[1]), ReadBody(t[2..]))
    else if t[0] == '\'' then
      if |t| >= 2 && t[1] == '\'' then Prepend("'", ReadBody(t[2..])) else Some(("", t[1..]))
    else Prepend([t[0]], ReadBody(t[1..]))
  }

  /** Reads a literal that starts with a quote. */
  function ReadQuoted(sql: string): Option<(string, string)> {
    if |sql| > 0 && sql[0] == '\'' then ReadBody(sql[1..]) else None
  }

  /**
   An `addslashes`-escaped text between quotes reads back as exactly that text,
   whatever follows the closing quote (other than a second quote).
   */
  lemma {:induction false} EscapedBodyRoundTrip(x: string, rest: string)
    requires |rest| == 0 || rest[0] != '\''
    ensures ReadBody(AddSlashes(x) + "'" + rest) == Some((x, rest))
    decreases |x|
  {
    var t := AddSlashes(x) + "'" + rest;
    if |x| == 0 {
      assert t == "'" + rest;
      assert t[1..] == rest;
    } else {
      var tail := AddSlashes(x[1..]) + "'" + rest;
      EscapedBodyRoundTrip(x[1..], rest);
      assert AddSlashes(x) == Escape(x[0]) + AddSlashes(x[1..]);
      assert t == Escape(x[0]) + tail;
      EscapeReadsBack(x[0], tail);
      assert x == [x[0]] + x[1..];
    }
  }

  /** Reading past one escaped character yields that character. */
  lemma EscapeReadsBack(c: char, tail: string)
    ensures ReadBody(Escape(c) + tail) == Prepend([c], ReadBody(tail))
  {
    var t := Escape(c) + tail;
    if |Escape(c)| == 2 {
      assert t[0] == '\\' && t[2..] == tail;
      assert Unescape(t[1]) == [c];
    } else {
      assert t[0] == c && t[1..] == tail;
    }
  }

  /** The quoted literal of an escaped text reads back as the text. */
  lemma EscapedLiteralRoundTrip(x: string, rest: string)
    requires |rest| == 0 || rest[0] != '\''
    ensures ReadQuoted(LiteralSql(Quoted(AddSlashes(x))) + rest) == Some((x, rest))
  {
    var body := AddSlashes(x);
    var inner := body + "'" + rest;
    var sql := "'" + body + "'" + rest;
    assert LiteralSql(Quoted(body)) + rest == sql;
    assert sql == "'" + inner;
    assert sql[0] == '\'' && sql[1..] == inner;
    EscapedBodyRoundTrip(x, rest);
  }

  /** No quote and no backslash: the text the server reads is the text itself. */
  predicate Plain(a: string) {
    forall k :: 0 <= k < |a| ==> a[k] != '\'' && a[k] != '\\'
  }

  /** Plain characters are read as they stand. */
  lemma {:induction false} PlainBodyReadsBack(a: string, tail: string)
    requires Plain(a)
    ensures ReadBody(a + tail) == Prepend(a, ReadBody(tail))
    decreases |a|
  {
    if |a| == 0 {
      assert a + tail == tail;
      match ReadBody(tail)
      case None =>
      case Some((body, rest)) => assert a + body == body;
    } else {
      var t := a + tail;
      assert t[0] == a[0] && t[1..] == a[1..] + tail;
      PlainBodyReadsBack(a[1..], tail);
      match ReadBody(tail)
      case None =>
      case Some((body, rest)) =>
        assert [a[0]] + (a[1..] + body) == a + body;
    }
  }

  /** A quoted plain text reads back as itself. */
  lemma PlainLiteralReadsBack(a: string, rest: string)
    requires Plain(a)
    requires |rest| == 0 || rest[0] != '\''
    ensures ReadQuoted(LiteralSql(Quoted(a)) + rest) == Some((a, rest))
  {
    var tail := "'" + rest;
    assert LiteralSql(Quoted(a)) + rest == "'" + (a + tail);
    PlainBodyReadsBack(a, tail);
    assert tail[1..] == rest;
    assert a + "" == a;
  }

  /** A quote after a plain text (not doubled) ends the literal there; the text after it is left over. */
  lemma QuoteCutsLiteral(a: string, b: string, rest: string)
    requires Plain(a) && |b| > 0 && b[0] != '\''
    ensures ReadQuoted(LiteralSql(Quoted(a + "'" + b)) + rest) == Some((a, b + "'" + rest))
  {
    var tail := "'" + (b + "'" + rest);
    assert LiteralSql(Quoted(a + "'" + b)) + rest == "'" + (a + tail);
    PlainBodyReadsBack(a, tail);
    assert tail[1] == b[0] && tail[1..] == b + "'" + rest;
    assert a + "" == a;
  }

  /**
   The server reads the literal `l` as `text`, whatever follows it in the
   statement (other than a second quote).
   */
  ghost predicate ReadsBack(l: Literal, text: string) {
    forall rest :: |rest| == 0 || rest[0] != '\'' ==> ReadQuoted(LiteralSql(l) + rest) == Some((text, rest))
  }

  // ----------------------------------------------------------------- insert

  /** The literal `insert` writes for one column, as the code does it: quoted, not escaped. */
  function InsertLiteral(et: EntityType, rec: Record, c: Column): Literal {
    var v := Field(rec, c.name);
    if v == Null || (c.name == PkName(et) && IsBlank(v)) then SqlNull else Quoted(Text(v))
  }

  /** The same literal with the value escaped, as `update` does and as a literal needs. */
  function InsertLiteralEscaped(et: EntityType, rec: Record, c: Column): Literal {
    var v := Field(rec, c.name);
    if v == Null || (c.name == PkName(et) && IsBlank(v)) then SqlNull else Quoted(AddSlashes(Text(v)))
  }

  /** `INSERT INTO table (columns) VALUES (values)`, as lists. */
  datatype InsertStatement = InsertStatement(table: string, columns: seq<string>, values: seq<Literal>)

  /**
   The INSERT as the code builds it, one column and one value per descriptor
   column: NULL for a NULL field or a blank key, otherwise the field's text
   between quotes exactly as it stands.
   */
  function InsertStatementOf(et: EntityType, rec: Record): (r: InsertStatement)
    ensures r.table == et.desc.table && r.columns == ColumnNames(et.desc)
    ensures |r.values| == |et.desc.columns|
    ensures forall i :: 0 <= i < |r.values| ==>
      var c := et.desc.columns[i];
      var v := Field(rec, c.name);
      && (r.values[i] == SqlNull <==> v == Null || (c.name == PkName(et) && IsBlank(v)))
      && (r.values[i] != SqlNull ==> r.values[i] == Quoted(Text(v)))
  {
    var cols := et.desc.columns;
    InsertStatement(et.desc.table, ColumnNames(et.desc),
      seq(|cols|, i requires 0 <= i < |cols| => InsertLiteral(et, rec, cols[i])))
  }

  /**
   As written, a field whose text holds no quote and no backslash reads back
   as its text; a field whose text has a quote (not doubled, with no backslash
   before it) is cut at that quote.
   */
  lemma InsertUnescapedReading(et: EntityType, rec: Record, i: nat, rest: string, k: nat)
    requires i < |et.desc.columns|
    requires |rest| == 0 || rest[0] != '\''
    ensures var v := Field(rec, et.desc.columns[i].name);
      var l := InsertStatementOf(et, rec).values[i];
      && (l != SqlNull && Plain(Text(v)) ==> ReadQuoted(LiteralSql(l) + rest) == Some((Text(v), rest)))
      && (l != SqlNull && k + 1 < |Text(v)| && Text(v)[k] == '\'' && Text(v)[k + 1] != '\'' && Plain(Text(v)[..k])
          ==> ReadQuoted(LiteralSql(l) + rest) == Some((Text(v)[..k], Text(v)[k + 1..] + "'" + rest)))
  {
    var t := Text(Field(rec, et.desc.columns[i].name));
    if Plain(t) {
      PlainLiteralReadsBack(t, rest);
    }
    if k + 1 < |t| && t[k] == '\'' && t[k + 1] != '\'' && Plain(t[..k]) {
      assert t == t[..k] + "'" + t[k + 1..];
      QuoteCutsLiteral(t[..k], t[k + 1..], rest);
    }
  }

  /**
   The INSERT with every value escaped: every value reads back as the field's
   text, and it is NULL exactly for a NULL field or a blank key.
   */
  function InsertStatementEscaped(et: EntityType, rec: Record): (r: InsertStatement)
    ensures r.table == et.desc.table && r.columns == ColumnNames(et.desc)
    ensures |r.values| == |et.desc.columns|
    ensures forall i :: 0 <= i < |r.values| ==>
      var c := et.desc.columns[i];
      var v := Field(rec, c.name);
      (r.values[i] == SqlNull <==> v == Null || (c.name == PkName(et) && IsBlank(v)))
    ensures forall i :: 0 <= i < |r.values| && r.values[i] != SqlNull ==>
      ReadsBack(r.values[i], Text(Field(rec, et.desc.columns[i].name)))
  {
    var cols := et.desc.columns;
    var values := seq(|cols|, i requires 0 <= i < |cols| => InsertLiteralEscaped(et, rec, cols[i]));
    EscapedValuesReadBack(et, rec, cols, values);
    InsertStatement(et.desc.table, ColumnNames(et.desc), values)
  }

  /** Every escaped literal that is not NULL reads back as the field's text. */
  lemma EscapedValuesReadBack(et: EntityType, rec: Record, cols: seq<Column>, values: seq<Literal>)
    requires |values| == |cols|
    requires forall i :: 0 <= i < |cols| ==> values[i] == InsertLiteralEscaped(et, rec, cols[i])
    ensures forall i :: 0 <= i < |values| && values[i] != SqlNull ==>
      ReadsBack(values[i], Text(Field(rec, cols[i].name)))
  {
    forall i | 0 <= i < |values| && values[i] != SqlNull
      ensures ReadsBack(values[i], Text(Field(rec, cols[i].name)))
    {
      EscapedReadsBack(Text(Field(rec, cols[i].name)));
    }
  }

  /** The quoted `addslashes` of any text reads back as the text. */
  lemma EscapedReadsBack(x: string)
    ensures ReadsBack(Quoted(AddSlashes(x)), x)
  {
    forall rest | |rest| == 0 || rest[0] != '\''
      ensures ReadQuoted(LiteralSql(Quoted(AddSlashes(x))) + rest) == Some((x, rest))
    {
      EscapedLiteralRoundTrip(x, rest);
    }
  }

  /**
   As written, a value holding a quote does not survive: `O'Brien` in a
   non-key column becomes `'O'Brien'`, which the server reads as `O` followed
   by stray text.
   */
  lemma InsertUnescapedQuoteBreaks(et: EntityType, rec: Record, i: nat)
    requires i < |et.desc.columns|
    requires et.desc.columns[i].name != PkName(et)
    requires Field(rec, et.desc.columns[i].name) == Str("O'Brien")
    ensures InsertStatementOf(et, rec).values[i] == Quoted("O'Brien")
    ensures ReadQuoted(LiteralSql(InsertStatementOf(et, rec).values[i]) + ",") == Some(("O", "Brien',"))
    ensures ReadQuoted(LiteralSql(InsertStatementEscaped(et, rec).values[i]) + ",") == Some(("O'Brien", ","))
  {
    assert Text(Str("O'Brien")) == "O'Brien";
    QuoteEndsLiteral();
    EscapedLiteralRoundTrip("O'Brien", ",");
  }

  /** `'O'Brien',` read as a literal: the second quote closes it. */
  lemma QuoteEndsLiteral()
    ensures ReadQuoted(LiteralSql(Quoted("O'Brien")) + ",") == Some(("O", "Brien',"))
  {
    var sql := LiteralSql(Quoted("O'Brien")) + ",";
    assert sql == "'O'Brien',";
    var body := sql[1..];
    assert body == "O'Brien',";
    assert body[0] == 'O' && body[1..] == "'Brien',";
    var after := body[1..];
    assert after[0] == '\'' && after[1] == 'B' && after[1..] == "Brien',";
    assert ReadBody(after) == Some(("", "Brien',"));
    assert ReadBody(body) == Prepend("O", ReadBody(after));
    assert "O" + "" == "O";
    assert ReadQuoted(sql) == ReadBody(body);
  }

  /** The statement text: the lists built by appending `item,` and cutting the last comma. */
  function RenderInsert(s: InsertStatement): string {
    var cols := seq(|s.columns|, i requires 0 <= i < |s.columns| => "`" + s.columns[i] + "`");
    var vals := seq(|s.values|, i requires 0 <= i < |s.values| => LiteralSql(s.values[i]));
    "INSERT INTO " + s.table + " (" + DropLast(Suffixed(cols, ","), 1) + ") VALUES ("
      + DropLast(Suffixed(vals, ","), 1) + ");"
  }

  /** The rendered lists are the comma-joined column names and literals. */
  lemma RenderInsertJoins(s: InsertStatement)
    requires |s.columns| > 0 && |s.values| > 0
    ensures RenderInsert(s) ==
      "INSERT INTO " + s.table + " ("
      + Join(seq(|s.columns|, i requires 0 <= i < |s.columns| => "`" + s.columns[i] + "`"), ",")
      + ") VALUES ("
      + Join(seq(|s.values|, i requires 0 <= i < |s.values| => LiteralSql(s.values[i])), ",") + ");"
  {
    DropLastSuffixedIsJoin(seq(|s.columns|, i requires 0 <= i < |s.columns| => "`" + s.columns[i] + "`"), ",");
    DropLastSuffixedIsJoin(seq(|s.values|, i requires 0 <= i < |s.values| => LiteralSql(s.values[i])), ",");
  }

  /** The record after binding `data` (only when `data` is not empty). */
  function BindIfAny(et: EntityType, rec: Record, data: Assoc<string, Value>): (r: Record)
    requires Keyed(data)
    ensures r.persisted == rec.persisted && r.errors == rec.errors
  {
    if |data| > 0 then rec.(fields := Bind(et.desc, rec.fields, data)) else rec
  }

  /**
   `insert`, given the key the database reports for the new row: the key is
   stored, `persisted` holds iff that key is not blank, and the key is
   returned.
   */
  function Insert(et: EntityType, rec: Record, data: Assoc<string, Value>, reportedKey: Value): (r: (Record, Value))
    requires Keyed(data)
    ensures r.1 == reportedKey && PkValue(et, r.0) == reportedKey
    ensures r.0.persisted <==> !IsBlank(reportedKey)
    ensures forall k :: k != PkName(et) ==> Field(r.0, k) == Field(BindIfAny(et, rec, data), k)
    ensures r.0.errors == rec.errors
  {
    var bound := BindIfAny(et, rec, data);
    var stored := bound.(fields := bound.fields[PkName(et) := reportedKey]);
    (stored.(persisted := !IsBlank(reportedKey)), reportedKey)
  }

  // ----------------------------------------------------------------- update

  /** `UPDATE table SET col = literal, ... WHERE pk = 'key'`. */
  datatype UpdateStatement = UpdateStatement(table: string, assignments: seq<(string, Literal)>, key: string)

  /** The SET entries for `cols`, skipping the key: NULL for a NULL field, else the escaped text. */
  function Assignments(pk: string, cols: seq<Column>, rec: Record): (r: Assoc<string, Literal>)
    ensures forall c :: c in Keys(r) <==> c in NamesOf(cols) && c != pk
    ensures forall k :: 0 <= k < |r| ==>
      r[k].1 == if Field(rec, r[k].0) == Null then SqlNull else Quoted(AddSlashes(Text(Field(rec, r[k].0))))
    ensures |r| <= |cols|
  {
    if |cols| == 0 then []
    else
      var c := cols[0];
      var rest := Assignments(pk, cols[1..], rec);
      assert NamesOf(cols) == [c.name] + NamesOf(cols[1..]);
      if c.name == pk then rest
      else
        var v := Field(rec, c.name);
        var r := [(c.name, if v == Null then SqlNull else Quoted(AddSlashes(Text(v))))] + rest;
        assert r[1..] == rest;
        assert Keys(r) == [c.name] + Keys(rest);
        r
  }

  function UpdateStatementOf(et: EntityType, rec: Record): UpdateStatement {
    UpdateStatement(et.desc.table, Assignments(PkName(et), et.desc.columns, rec), Text(PkValue(et, rec)))
  }

  /**
   The SET list covers every non-key column and nothing else, and each of its
   literals reads back as the field's text.
   */
  lemma UpdateSetsEveryOtherColumn(et: EntityType, rec: Record, rest: string)
    requires |rest| == 0 || rest[0] != '\''
    ensures var a := UpdateStatementOf(et, rec).assignments;
      && (forall c :: c in Keys(a) <==> HasColumn(et.desc, c) && c != PkName(et))
      && (forall k :: 0 <= k < |a| && a[k].1 != SqlNull ==>
            ReadQuoted(LiteralSql(a[k].1) + rest) == Some((Text(Field(rec, a[k].0)), rest)))
  {
    var a := UpdateStatementOf(et, rec).assignments;
    forall k | 0 <= k < |a| && a[k].1 != SqlNull
      ensures ReadQuoted(LiteralSql(a[k].1) + rest) == Some((Text(Field(rec, a[k].0)), rest))
    {
      EscapedLiteralRoundTrip(Text(Field(rec, a[k].0)), rest);
    }
  }

  /**
   `update`, given the affected-row count: the key is returned only when rows
   were affected (NULL otherwise), and `persisted` is set only when the
   returned key is truthy.
   */
  function Update(et: EntityType, rec: Record, data: Assoc<string, Value>, affected: nat): (r: (Record, Value))
    requires Keyed(data)
    ensures r.1 == if affected > 0 then PkValue(et, BindIfAny(et, rec, data)) else Null
    ensures affected == 0 ==> r.0 == BindIfAny(et, rec, data)
    ensures r.0.persisted == (rec.persisted || Truthy(r.1))
    ensures r.0.fields == BindIfAny(et, rec, data).fields
  {
    var bound := BindIfAny(et, rec, data);
    var id := if affected > 0 then PkValue(et, bound) else Null;
    if Truthy(id) then (bound.(persisted := true), id) else (bound, id)
  }
}
