/**
 The database collaborator, reduced to an in-memory store: each table is a
 sequence of rows, each row a map from column name to value. A `WHERE
 col = 'text'` condition holds of a row whose `col` is not NULL and whose
 text is `text`.
 */
module Database {
  import opened PhpValue

  type Row = map<string, Value>

  type Store = map<string, seq<Row>>

  function Rows(st: Store, table: string): seq<Row> {
    if table in st then st[table] else []
  }

  /** `$row[$col]`: a missing column reads as NULL. */
  function RowField(row: Row, col: string): Value {
    if col in row then row[col] else Null
  }

  /** The row satisfies `col = 'text'`. */
  predicate Matches(row: Row, col: string, text: string) {
    col in row && row[col] != Null && Text(row[col]) == text
  }

  /** The rows of `rows` that satisfy `col = 'text'`, in order. */
  function Where(rows: seq<Row>, col: string, text: string): (r: seq<Row>)
    ensures |r| <= |rows|
    ensures forall k :: 0 <= k < |r| ==> Matches(r[k], col, text) && r[k] in rows
    ensures forall row :: row in rows && Matches(row, col, text) ==> row in r
  {
    if |rows| == 0 then []
    else if Matches(rows[0], col, text) then [rows[0]] + Where(rows[1..], col, text)
    else Where(rows[1..], col, text)
  }

  /** The rows of `rows` that do NOT satisfy `col = 'text'`, in order. */
  function WhereNot(rows: seq<Row>, col: string, text: string): (r: seq<Row>)
    ensures |r| + |Where(rows, col, text)| == |rows|
    ensures forall k :: 0 <= k < |r| ==> !Matches(r[k], col, text) && r[k] in rows
    ensures forall row :: row in rows && !Matches(row, col, text) ==> row in r
  {
    if |rows| == 0 then []
    else if Matches(rows[0], col, text) then WhereNot(rows[1..], col, text)
    else [rows[0]] + WhereNot(rows[1..], col, text)
  }

  /** `SELECT * FROM table WHERE col = 'text'`. */
  function SelectAll(st: Store, table: string, col: string, text: string): seq<Row> {
    Where(Rows(st, table), col, text)
  }

  /** `rows[i]` is the first row of `rows` that satisfies `col = 'text'`. */
  predicate FirstMatchAt(rows: seq<Row>, col: string, text: string, i: int) {
    && 0 <= i < |rows|
    && Matches(rows[i], col, text)
    && forall j :: 0 <= j < i ==> !Matches(rows[j], col, text)
  }

  /** The first row of `Where` is the first matching row of `rows`. */
  lemma {:induction false} WhereStartsAtFirstMatch(rows: seq<Row>, col: string, text: string, i: int)
    requires FirstMatchAt(rows, col, text, i)
    ensures |Where(rows, col, text)| > 0 && Where(rows, col, text)[0] == rows[i]
  {
    if i > 0 {
      assert !Matches(rows[0], col, text);
      WhereStartsAtFirstMatch(rows[1..], col, text, i - 1);
    }
  }

  /** `select1Row`: the first row satisfying `col = 'text'`, if any. */
  function SelectFirst(st: Store, table: string, col: string, text: string): (r: Option<Row>)
    ensures r.Some? ==> r.value in Rows(st, table) && Matches(r.value, col, text)
    ensures r.None? <==> forall row :: row in Rows(st, table) ==> !Matches(row, col, text)
    ensures forall i :: FirstMatchAt(Rows(st, table), col, text, i) ==> r == Some(Rows(st, table)[i])
  {
    WhereStartsAtFirstMatches(Rows(st, table), col, text);
    var found := SelectAll(st, table, col, text);
    if |found| == 0 then None else Some(found[0])
  }

  lemma WhereStartsAtFirstMatches(rows: seq<Row>, col: string, text: string)
    ensures forall i :: FirstMatchAt(rows, col, text, i) ==> Where(rows, col, text)[0] == rows[i]
  {
    forall i | FirstMatchAt(rows, col, text, i) ensures Where(rows, col, text)[0] == rows[i] {
      WhereStartsAtFirstMatch(rows, col, text, i);
    }
  }

  /** Whenever some row satisfies `col = 'text'`, a first such row exists. */
  lemma {:induction false} FirstMatchExists(rows: seq<Row>, col: string, text: string, row: Row)
    requires row in rows && Matches(row, col, text)
    ensures exists i :: FirstMatchAt(rows, col, text, i)
  {
    if Matches(rows[0], col, text) {
      assert FirstMatchAt(rows, col, text, 0);
    } else {
      FirstMatchExists(rows[1..], col, text, row);
      var i :| FirstMatchAt(rows[1..], col, text, i);
      assert FirstMatchAt(rows, col, text, i + 1);
    }
  }

  /** `DELETE FROM table WHERE col = 'text'`: the new store and the affected-row count. */
  function DeleteWhere(st: Store, table: string, col: string, text: string): (r: (Store, nat))
    ensures r.1 == |SelectAll(st, table, col, text)|
    ensures Rows(r.0, table) == WhereNot(Rows(st, table), col, text)
    ensures forall t :: t != table ==> Rows(r.0, t) == Rows(st, t)
    ensures SubStore(r.0, st)
  {
    if table !in st then (st, 0)
    else
      var kept := WhereNot(st[table], col, text);
      (st[table := kept], |st[table]| - |kept|)
  }

  /** Every row of `a` is a row of `b`, table by table: `a` is `b` with rows removed. */
  predicate SubStore(a: Store, b: Store) {
    forall t :: t in a ==> t in b && forall row :: row in a[t] ==> row in b[t]
  }

  lemma SubStoreTransitive(a: Store, b: Store, c: Store)
    requires SubStore(a, b) && SubStore(b, c)
    ensures SubStore(a, c)
  {
  }
}
