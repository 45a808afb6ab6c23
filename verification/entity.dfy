/**
 The entity: the per-type declarations an entity class makes (descriptor,
 relations, search columns, constraints), the per-instance state (fields,
 `persisted`, `errors`), and the state changes of construction, `load`,
 `bind`, `getBy` and `iterator`.
 */
module Entity {
  import opened PhpValue
  import opened Descriptor
  import opened Database
  import opened Assoc

  /** An inclusive `min`/`max` pair of a constraint. */
  datatype Range = Range(min: int, max: int)

  /** The `value`, `length` and `values` entries a column constraint may carry. */
  datatype Constraint = Constraint(value: Option<Range>, length: Option<Range>, values: Option<seq<Value>>)

  /**
   A declared relation to the entity type `model`, whose rows point at this
   entity through their column `foreignKey`.
   */
  datatype Relation = Relation(model: string, foreignKey: string, oneToMany: bool, cascade: bool)

  datatype EntityType = EntityType(
    desc: TableDescriptor,
    relations: seq<Relation>,
    searchColumns: seq<string>,
    constraints: map<string, Constraint>)

  /** The messages `validate` and `delete` append to `errors`, one constructor per message. */
  datatype Error =
    | Required(column: string)
    | NotUnique(column: string)
    | OutOfRange(column: string, value: Value, range: Range)
    | BadLength(column: string, range: Range)
    | NotAllowed(column: string, value: Value, allowed: seq<Value>)
    | Logic(message: string)
    | Blocked(model: string, count: nat)

  datatype Record = Record(fields: map<string, Value>, persisted: bool, errors: seq<Error>)

  /** `$this->$c`: an unset property reads as NULL. */
  function Field(r: Record, c: string): Value {
    if c in r.fields then r.fields[c] else Null
  }

  function PkName(et: EntityType): string {
    et.desc.primaryKey
  }

  function PkValue(et: EntityType, r: Record): Value {
    Field(r, PkName(et))
  }

  /** The row `load` reads: the first one whose primary key has the record's key text. */
  function KeyRow(et: EntityType, key: string, st: Store): Option<Row> {
    SelectFirst(st, et.desc.table, PkName(et), key)
  }

  // ------------------------------------------------------------------ load

  /**
   `load`: when a row has the record's key, every column of the first such
   row is copied into the fields; `persisted` is set iff a row was found and
   its key is not blank.
   */
  function Load(et: EntityType, rec: Record, st: Store): (r: Record)
    ensures r.errors == rec.errors
    ensures forall i :: FirstMatchAt(Rows(st, et.desc.table), PkName(et), Text(PkValue(et, rec)), i) ==>
      var row := Rows(st, et.desc.table)[i];
      && r.fields == rec.fields + row
      && (r.persisted <==> !IsBlank(RowField(row, PkName(et))))
    ensures r.persisted ==>
      exists row :: row in Rows(st, et.desc.table) && Matches(row, PkName(et), Text(PkValue(et, rec)))
    ensures (forall row :: row in Rows(st, et.desc.table) ==> !Matches(row, PkName(et), Text(PkValue(et, rec))))
      ==> r == rec.(persisted := false)
    ensures Text(PkValue(et, r)) == Text(PkValue(et, rec))
  {
    match KeyRow(et, Text(PkValue(et, rec)), st)
    case None => rec.(persisted := false)
    case Some(row) =>
      rec.(fields := rec.fields + row, persisted := !IsBlank(RowField(row, PkName(et))))
  }

  /** Loading a loaded record again changes nothing: the key it loads by is unchanged. */
  lemma LoadIdempotent(et: EntityType, rec: Record, st: Store)
    ensures Load(et, Load(et, rec, st), st) == Load(et, rec, st)
  {
    var r := Load(et, rec, st);
    assert KeyRow(et, Text(PkValue(et, r)), st) == KeyRow(et, Text(PkValue(et, rec)), st);
    match KeyRow(et, Text(PkValue(et, rec)), st)
    case None =>
    case Some(row) =>
      assert r.fields + row == rec.fields + row;
  }

  /** Loading by a truthy key succeeds exactly when some row has that key. */
  lemma LoadByTruthyKey(et: EntityType, key: Value, st: Store)
    requires Truthy(key)
    ensures Load(et, Record(map[PkName(et) := key], false, []), st).persisted <==>
      exists row :: row in Rows(st, et.desc.table) && Matches(row, PkName(et), Text(key))
  {
    var rows := Rows(st, et.desc.table);
    if exists row :: row in rows && Matches(row, PkName(et), Text(key)) {
      var row :| row in rows && Matches(row, PkName(et), Text(key));
      FirstMatchExists(rows, PkName(et), Text(key), row);
      var i :| FirstMatchAt(rows, PkName(et), Text(key), i);
      SameTextAsTruthyNotBlank(key, RowField(rows[i], PkName(et)));
    }
  }

  // -------------------------------------------------------- default values

  /** The default a column receives: the explicit one when set (`isset`), else the descriptor's. */
  function DefaultFor(c: Column, defaults: map<string, Value>): Value {
    if c.name in defaults && defaults[c.name] != Null then defaults[c.name] else c.default
  }

  predicate DistinctNames(cols: seq<Column>) {
    forall i, j :: 0 <= i < j < |cols| ==> cols[i].name != cols[j].name
  }

  /** `setDefaultValues`: every column except the primary key receives its default. */
  function SetDefaults(cols: seq<Column>, pk: string, fields: map<string, Value>, defaults: map<string, Value>)
    : (r: map<string, Value>)
    requires DistinctNames(cols)
    ensures forall i :: 0 <= i < |cols| && cols[i].name != pk ==>
      cols[i].name in r && r[cols[i].name] == DefaultFor(cols[i], defaults)
    ensures forall k :: k == pk || k !in NamesOf(cols) ==>
      (k in r <==> k in fields) && (k in fields ==> r[k] == fields[k])
    ensures r.Keys >= fields.Keys
  {
    if |cols| == 0 then fields
    else
      var c := cols[0];
      var f := if c.name != pk then fields[c.name := DefaultFor(c, defaults)] else fields;
      assert NamesOf(cols) == [c.name] + NamesOf(cols[1..]);
      assert c.name !in NamesOf(cols[1..]);
      SetDefaults(cols[1..], pk, f, defaults)
  }

  // ------------------------------------------------------------ construction

  /**
   The constructor: the key is stored, a load is attempted only for a truthy
   key, and when no load happened or it failed every non-key column gets its
   default.
   */
  function New(et: EntityType, key: Value, defaults: map<string, Value>, st: Store): (r: Record)
    requires Valid(et.desc)
    ensures r.errors == []
    ensures r.persisted <==>
      Truthy(key) && exists row :: row in Rows(st, et.desc.table) && Matches(row, PkName(et), Text(key))
    ensures forall i :: Truthy(key) && FirstMatchAt(Rows(st, et.desc.table), PkName(et), Text(key), i) ==>
      r.fields == map[PkName(et) := key] + Rows(st, et.desc.table)[i]
    ensures !r.persisted ==> forall i :: 0 <= i < |et.desc.columns| && et.desc.columns[i].name != PkName(et) ==>
      Field(r, et.desc.columns[i].name) == DefaultFor(et.desc.columns[i], defaults)
    ensures !r.persisted ==> PkValue(et, r) == key
    ensures Text(PkValue(et, r)) == Text(key)
  {
    var pk := PkName(et);
    var blank := Record(map[pk := key], false, []);
    if Truthy(key) then LoadByTruthyKey(et, key, st); NewFrom(et, Load(et, blank, st), defaults)
    else NewFrom(et, blank, defaults)
  }

  /** The last step of the constructor: a record that was not loaded gets the defaults. */
  function NewFrom(et: EntityType, tried: Record, defaults: map<string, Value>): (r: Record)
    requires Valid(et.desc)
    ensures tried.persisted ==> r == tried
    ensures !tried.persisted ==> r == tried.(fields := SetDefaults(et.desc.columns, PkName(et), tried.fields, defaults))
  {
    if tried.persisted then tried
    else tried.(fields := SetDefaults(et.desc.columns, PkName(et), tried.fields, defaults))
  }

  /** A constructed record that was loaded loads back to itself. */
  lemma ConstructedRecordReloads(et: EntityType, key: Value, defaults: map<string, Value>, st: Store)
    requires Valid(et.desc)
    ensures var r := New(et, key, defaults, st);
      r.persisted ==> Load(et, r, st) == r
  {
    LoadIdempotent(et, Record(map[PkName(et) := key], false, []), st);
  }

  // ------------------------------------------------------------------ getBy

  /** The key `getBy` reads: the key of the first row with `col = 'text'`, or `''`. */
  function KeyOfFirst(et: EntityType, col: string, text: string, st: Store): (id: Value)
    ensures (forall row :: row in Rows(st, et.desc.table) ==> !Matches(row, col, text)) ==> id == Str("")
    ensures forall i :: FirstMatchAt(Rows(st, et.desc.table), col, text, i) ==>
      id == RowField(Rows(st, et.desc.table)[i], PkName(et))
  {
    match SelectFirst(st, et.desc.table, col, text)
    case None => Str("")
    case Some(row) => RowField(row, PkName(et))
  }

  /**
   `getBy`: always builds a record, even when no row has `col = 'text'`; that
   record then has the empty key and is not persisted. Otherwise it is built
   from the key of the first matching row, and is persisted exactly when
   that key is truthy.
   */
  function GetBy(et: EntityType, col: string, text: string, st: Store): (r: Record)
    requires Valid(et.desc)
    ensures (forall row :: row in Rows(st, et.desc.table) ==> !Matches(row, col, text)) ==>
      !r.persisted && PkValue(et, r) == Str("")
    ensures forall i :: FirstMatchAt(Rows(st, et.desc.table), col, text, i) ==>
      var key := RowField(Rows(st, et.desc.table)[i], PkName(et));
      && (r.persisted <==> Truthy(key))
      && Text(PkValue(et, r)) == Text(key)
    ensures r.persisted ==> exists row :: row in Rows(st, et.desc.table) && Matches(row, col, text)
  {
    var key := KeyOfFirst(et, col, text, st);
    FirstRowKeyFound(et, col, text, st);
    New(et, key, map[], st)
  }

  /** A truthy key of a matching row is the key of a row, so constructing by it loads. */
  lemma FirstRowKeyFound(et: EntityType, col: string, text: string, st: Store)
    ensures var key := KeyOfFirst(et, col, text, st);
      Truthy(key) ==> exists row :: row in Rows(st, et.desc.table) && Matches(row, PkName(et), Text(key))
  {
    var key := KeyOfFirst(et, col, text, st);
    match SelectFirst(st, et.desc.table, col, text)
    case None =>
    case Some(row) =>
      if Truthy(key) {
        assert Matches(row, PkName(et), Text(key));
      }
  }

  /**
   A record `getBy` found is found again by its own key: the lookup by
   primary key yields the same record.
   */
  lemma GetByKeyRoundTrip(et: EntityType, col: string, text: string, st: Store)
    requires Valid(et.desc)
    ensures var r := GetBy(et, col, text, st);
      r.persisted ==> GetBy(et, PkName(et), Text(PkValue(et, r)), st) == r
  {
    var r := GetBy(et, col, text, st);
    if r.persisted {
      var pk, rows := PkName(et), Rows(st, et.desc.table);
      var key := KeyOfFirst(et, col, text, st);
      var row :| row in rows && Matches(row, pk, Text(key));
      FirstMatchExists(rows, pk, Text(key), row);
      var i :| FirstMatchAt(rows, pk, Text(key), i);
      NewByStoredKey(et, key, st, i);
      var key2 := KeyOfFirst(et, pk, Text(PkValue(et, r)), st);
      TruthyByText(key);
      TruthyByText(key2);
      NewByStoredKey(et, key2, st, i);
    }
  }

  /**
   The record `getBy` builds when row `i` is the first with `col = 'text'`:
   persisted iff that row's key is truthy, and then exactly row `j`, the
   first row with that key, which its own load reads back.
   */
  lemma GetByFoundRow(et: EntityType, col: string, text: string, st: Store, i: int, j: int)
    requires Valid(et.desc)
    requires FirstMatchAt(Rows(st, et.desc.table), col, text, i)
    requires FirstMatchAt(Rows(st, et.desc.table), PkName(et), Text(RowField(Rows(st, et.desc.table)[i], PkName(et))), j)
    ensures var r := GetBy(et, col, text, st);
      && (r.persisted <==> Truthy(RowField(Rows(st, et.desc.table)[i], PkName(et))))
      && (r.persisted ==> r == Record(Rows(st, et.desc.table)[j], true, []))
  {
    var key := KeyOfFirst(et, col, text, st);
    if Truthy(key) {
      NewByStoredKey(et, key, st, j);
    }
  }

  /** Constructing by a truthy key stored in the first row with that key yields exactly that row. */
  lemma NewByStoredKey(et: EntityType, key: Value, st: Store, i: int)
    requires Valid(et.desc) && Truthy(key)
    requires FirstMatchAt(Rows(st, et.desc.table), PkName(et), Text(key), i)
    ensures New(et, key, map[], st) == Record(Rows(st, et.desc.table)[i], true, [])
  {
    var row := Rows(st, et.desc.table)[i];
    assert map[PkName(et) := key] + row == row;
  }

  // ------------------------------------------------------------------- bind

  /**
   `bind`: every key of `data` that names a descriptor column is assigned,
   any other key is ignored.
   */
  function Bind(d: TableDescriptor, fields: map<string, Value>, data: Assoc<string, Value>): (r: map<string, Value>)
    requires Keyed(data)
    ensures forall k :: HasColumn(d, k) && Lookup(data, k).Some? ==> k in r && r[k] == Lookup(data, k).value
    ensures forall k :: !(HasColumn(d, k) && Lookup(data, k).Some?) ==>
      (k in r <==> k in fields) && (k in fields ==> r[k] == fields[k])
    decreases |data|
  {
    if |data| == 0 then fields
    else
      var (k, v) := data[0];
      var f := if HasColumn(d, k) then fields[k := v] else fields;
      assert forall k' :: Lookup(data, k') == if k' == k then Some(v) else Lookup(data[1..], k');
      assert k !in Keys(data[1..]);
      Bind(d, f, data[1..])
  }

  /** Binding the same data twice leaves the state of binding it once. */
  lemma BindIdempotent(d: TableDescriptor, fields: map<string, Value>, data: Assoc<string, Value>)
    requires Keyed(data)
    ensures Bind(d, Bind(d, fields, data), data) == Bind(d, fields, data)
  {
  }

  /** Binding a key that is no column changes nothing. */
  lemma BindIgnoresUnknown(d: TableDescriptor, fields: map<string, Value>, data: Assoc<string, Value>, k: string, v: Value)
    requires Keyed(data) && !HasColumn(d, k) && k !in Keys(data)
    ensures Keyed(data + [(k, v)])
    ensures Bind(d, fields, data + [(k, v)]) == Bind(d, fields, data)
  {
    var data' := data + [(k, v)];
    assert Keys(data') == Keys(data) + [k];
    var a := Bind(d, fields, data');
    var b := Bind(d, fields, data);
    forall k' ensures (k' in a <==> k' in b) && (k' in a ==> a[k'] == b[k']) {
      LookupAppend(data, k, v, k');
    }
  }

  // --------------------------------------------------------------- iterator

  /**
   `iterator`: the fields as an array keyed by column name, for every
   descriptor column, or for the requested names when some are given.
   */
  function Iterator(et: EntityType, rec: Record, names: seq<string>): (r: Assoc<string, Value>)
    requires Valid(et.desc)
    ensures Keyed(r)
    ensures |names| == 0 ==> Keys(r) == ColumnNames(et.desc)
    ensures |names| > 0 ==> forall k :: k in Keys(r) <==> k in names
    ensures |names| > 0 ==> Subsequence(Keys(r), names)
    ensures forall k :: k in Keys(r) ==> Lookup(r, k) == Some(Field(rec, k))
  {
    if |names| == 0 then ColumnPairs(et.desc, rec)
    else
      PairsOfInOrder(names, rec, []);
      PairsOf(names, rec, [])
  }

  /** Every descriptor column's name paired with the record's field. */
  function ColumnPairs(d: TableDescriptor, rec: Record): (r: Assoc<string, Value>)
    requires Valid(d)
    ensures Keys(r) == ColumnNames(d) && Keyed(r)
    ensures forall k :: k in Keys(r) ==> Lookup(r, k) == Some(Field(rec, k))
  {
    var cols := d.columns;
    var r := seq(|cols|, i requires 0 <= i < |cols| => (cols[i].name, Field(rec, cols[i].name)));
    assert Keys(r) == ColumnNames(d);
    forall k | k in Keys(r) ensures Lookup(r, k) == Some(Field(rec, k)) {
      var i :| 0 <= i < |r| && Keys(r)[i] == k;
      LookupEntry(r, i);
    }
    r
  }

  function PairsOf(names: seq<string>, rec: Record, acc: Assoc<string, Value>): (r: Assoc<string, Value>)
    requires Keyed(acc)
    requires forall k :: k in Keys(acc) ==> Lookup(acc, k) == Some(Field(rec, k))
    ensures Keyed(r)
    ensures forall k :: k in Keys(r) <==> k in Keys(acc) || k in names
    ensures forall k :: k in Keys(r) ==> Lookup(r, k) == Some(Field(rec, k))
    decreases |names|
  {
    if |names| == 0 then acc
    else
      assert names == [names[0]] + names[1..];
      PairsOf(names[1..], rec, Put(acc, names[0], Field(rec, names[0])))
  }

  /**
   The keys already there stay first, and the requested names are added
   after them in the order they are first named.
   */
  lemma {:induction false} PairsOfInOrder(names: seq<string>, rec: Record, acc: Assoc<string, Value>)
    requires Keyed(acc)
    requires forall k :: k in Keys(acc) ==> Lookup(acc, k) == Some(Field(rec, k))
    ensures var r := PairsOf(names, rec, acc);
      Keys(acc) <= Keys(r) && Subsequence(Keys(r)[|acc|..], names)
    decreases |names|
  {
    var r := PairsOf(names, rec, acc);
    if |names| == 0 {
      assert Keys(r)[|acc|..] == [];
    } else {
      var acc' := Put(acc, names[0], Field(rec, names[0]));
      PairsOfInOrder(names[1..], rec, acc');
      assert r == PairsOf(names[1..], rec, acc');
      PrefixStep(Keys(r), Keys(acc), Keys(acc'), names);
    }
  }

}
