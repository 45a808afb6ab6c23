/**
 `validate`: the entity's own logic rules first, then, column by column in
 descriptor order, the not-null, primary-key, unique-key, range, length and
 allowed-values checks. The record is valid iff no error was collected.
 */
module Validation {
  import opened PhpValue
  import opened Descriptor
  import opened Database
  import opened Entity
  import opened Strings

  const NoConstraint := Constraint(None, None, None)

  /** The constraint applied to a column: the explicit one when given, else the entity's own. */
  function EffectiveConstraint(et: EntityType, explicit: map<string, Constraint>, col: string): Constraint {
    if col in explicit then explicit[col]
    else if col in et.constraints then et.constraints[col]
    else NoConstraint
  }

  /** A non-auto-increment NOT NULL column whose field is unset or blank once trimmed. */
  predicate MissingRequired(c: Column, rec: Record) {
    !c.autoIncrement && c.notNull && BlankAfterTrim(Field(rec, c.name))
  }

  /** A primary-key column whose value a stored row already has, on a record not yet stored. */
  predicate PrimaryTaken(et: EntityType, rec: Record, c: Column, st: Store)
    requires Valid(et.desc)
  {
    c.key == Primary && GetBy(et, c.name, Text(Field(rec, c.name)), st).persisted && !rec.persisted
  }

  /** A unique-key column whose value a stored row with a different key already has. */
  predicate UniqueTaken(et: EntityType, rec: Record, c: Column, st: Store)
    requires Valid(et.desc)
  {
    c.key == Unique &&
      var other := GetBy(et, c.name, Text(Field(rec, c.name)), st);
      other.persisted && !LooseEq(PkValue(et, other), PkValue(et, rec))
  }

  predicate OutsideRange(v: Value, rg: Range) {
    LooseLess(v, rg.min) || LooseGreater(v, rg.max)
  }

  /** The byte length `strlen` reports lies outside the range. */
  predicate BadLengthFor(v: Value, rg: Range) {
    Strlen(Text(v)) < rg.min || Strlen(Text(v)) > rg.max
  }

  /** The position of a constraint error among the checks: range, then length, then values. */
  function CheckOrder(e: Error): nat {
    match e
    case OutOfRange(_, _, _) => 0
    case BadLength(_, _) => 1
    case _ => 2
  }

  /**
   The range, length and allowed-values errors of one value, in that order;
   `ConstraintErrorsPerKind` says which are reported.
   */
  function ConstraintErrors(col: string, v: Value, k: Constraint): (r: seq<Error>)
    ensures forall j :: 0 <= j < |r| ==> r[j].OutOfRange? || r[j].BadLength? || r[j].NotAllowed?
    ensures forall j :: 0 <= j < |r| ==> r[j].column == col
    ensures |r| <= 3
  {
    Collect(col, v, k,
      k.value.Some? && OutsideRange(v, k.value.value),
      k.length.Some? && BadLengthFor(v, k.length.value),
      k.values.Some? && !LooseIn(v, k.values.value))
  }

  /** The errors of the failed checks, given which of the three failed. */
  function Collect(col: string, v: Value, k: Constraint, outside: bool, badLength: bool, notAllowed: bool)
    : (r: seq<Error>)
    requires outside ==> k.value.Some?
    requires badLength ==> k.length.Some?
    requires notAllowed ==> k.values.Some?
    ensures forall j :: 0 <= j < |r| ==> r[j].OutOfRange? || r[j].BadLength? || r[j].NotAllowed?
    ensures forall j :: 0 <= j < |r| ==> r[j].column == col
    ensures |r| <= 3
  {
    (if outside then [OutOfRange(col, v, k.value.value)] else [])
    + (if badLength then [BadLength(col, k.length.value)] else [])
    + (if notAllowed then [NotAllowed(col, v, k.values.value)] else [])
  }

  /** Each kind of error is collected exactly when its check failed, at most once, in check order. */
  lemma CollectPerKind(col: string, v: Value, k: Constraint, outside: bool, badLength: bool, notAllowed: bool)
    requires outside ==> k.value.Some?
    requires badLength ==> k.length.Some?
    requires notAllowed ==> k.values.Some?
    ensures var r := Collect(col, v, k, outside, badLength, notAllowed);
      && ((exists j :: 0 <= j < |r| && r[j].OutOfRange?) <==> outside)
      && ((exists j :: 0 <= j < |r| && r[j].BadLength?) <==> badLength)
      && ((exists j :: 0 <= j < |r| && r[j].NotAllowed?) <==> notAllowed)
      && (forall j :: 0 < j < |r| ==> CheckOrder(r[j - 1]) < CheckOrder(r[j]))
  {
    var range: seq<Error> := if outside then [OutOfRange(col, v, k.value.value)] else [];
    var length: seq<Error> := if badLength then [BadLength(col, k.length.value)] else [];
    var values: seq<Error> := if notAllowed then [NotAllowed(col, v, k.values.value)] else [];
    var r := Collect(col, v, k, outside, badLength, notAllowed);
    assert r == range + length + values;
    assert outside ==> r[0] == range[0];
    assert badLength ==> r[|range|] == length[0];
    assert notAllowed ==> r[|r| - 1] == values[0];
    assert forall j :: 0 <= j < |r| ==> r[j] in range || r[j] in length || r[j] in values;
  }

  /** Every collected error carries the value and the constraint it failed. */
  lemma CollectCarries(col: string, v: Value, k: Constraint, outside: bool, badLength: bool, notAllowed: bool)
    requires outside ==> k.value.Some?
    requires badLength ==> k.length.Some?
    requires notAllowed ==> k.values.Some?
    ensures var r := Collect(col, v, k, outside, badLength, notAllowed);
      && (forall j :: 0 <= j < |r| && r[j].OutOfRange? ==> r[j].value == v && k.value == Some(r[j].range))
      && (forall j :: 0 <= j < |r| && r[j].BadLength? ==> k.length == Some(r[j].range))
      && (forall j :: 0 <= j < |r| && r[j].NotAllowed? ==> r[j].value == v && k.values == Some(r[j].allowed))
  {
    var range: seq<Error> := if outside then [OutOfRange(col, v, k.value.value)] else [];
    var length: seq<Error> := if badLength then [BadLength(col, k.length.value)] else [];
    var values: seq<Error> := if notAllowed then [NotAllowed(col, v, k.values.value)] else [];
    var r := Collect(col, v, k, outside, badLength, notAllowed);
    assert r == range + length + values;
    assert forall j :: 0 <= j < |r| ==> r[j] in range || r[j] in length || r[j] in values;
  }

  /**
   The range, length and allowed-values errors of one value: each reported
   exactly when its check fails, with the failing value and constraint, at
   most once, in that order.
   */
  lemma ConstraintErrorsPerKind(col: string, v: Value, k: Constraint)
    ensures var r := ConstraintErrors(col, v, k);
      && ((exists j :: 0 <= j < |r| && r[j].OutOfRange?) <==> k.value.Some? && OutsideRange(v, k.value.value))
      && ((exists j :: 0 <= j < |r| && r[j].BadLength?) <==> k.length.Some? && BadLengthFor(v, k.length.value))
      && ((exists j :: 0 <= j < |r| && r[j].NotAllowed?) <==> k.values.Some? && !LooseIn(v, k.values.value))
      && (forall j :: 0 <= j < |r| && r[j].OutOfRange? ==> r[j].value == v && k.value == Some(r[j].range))
      && (forall j :: 0 <= j < |r| && r[j].BadLength? ==> k.length == Some(r[j].range))
      && (forall j :: 0 <= j < |r| && r[j].NotAllowed? ==> r[j].value == v && k.values == Some(r[j].allowed))
      && (forall j :: 0 < j < |r| ==> CheckOrder(r[j - 1]) < CheckOrder(r[j]))
  {
    var outside := k.value.Some? && OutsideRange(v, k.value.value);
    var badLength := k.length.Some? && BadLengthFor(v, k.length.value);
    var notAllowed := k.values.Some? && !LooseIn(v, k.values.value);
    assert ConstraintErrors(col, v, k) == Collect(col, v, k, outside, badLength, notAllowed);
    CollectPerKind(col, v, k, outside, badLength, notAllowed);
    CollectCarries(col, v, k, outside, badLength, notAllowed);
  }

  /** The errors one column contributes, in the order the checks run. */
  function ColumnErrors(et: EntityType, rec: Record, c: Column, explicit: map<string, Constraint>, st: Store)
    : seq<Error>
    requires Valid(et.desc)
  {
    (if MissingRequired(c, rec) then [Required(c.name)] else [])
    + (if PrimaryTaken(et, rec, c, st) then [NotUnique(c.name)] else [])
    + (if UniqueTaken(et, rec, c, st) then [NotUnique(c.name)] else [])
    + ConstraintErrors(c.name, Field(rec, c.name), EffectiveConstraint(et, explicit, c.name))
  }

  /** The lists of `parts`, one after the other. */
  function Flatten(parts: seq<seq<Error>>): seq<Error> {
    if |parts| == 0 then [] else Flatten(parts[..|parts| - 1]) + parts[|parts| - 1]
  }

  lemma FlattenStep(parts: seq<seq<Error>>, i: nat)
    requires i < |parts|
    ensures Flatten(parts[..i + 1]) == Flatten(parts[..i]) + parts[i]
  {
    var next := parts[..i + 1];
    assert next[..|next| - 1] == parts[..i] && next[|next| - 1] == parts[i];
  }

  /** An error is in the flattened list iff it is in one of the parts. */
  lemma {:induction false} InFlatten(parts: seq<seq<Error>>, e: Error)
    ensures e in Flatten(parts) <==> exists i :: 0 <= i < |parts| && e in parts[i]
    decreases |parts|
  {
    if |parts| > 0 {
      var init := parts[..|parts| - 1];
      InFlatten(init, e);
      assert forall i :: 0 <= i < |init| ==> init[i] == parts[i];
    }
  }

  /** The errors of each descriptor column, in descriptor order. */
  function PerColumn(et: EntityType, rec: Record, explicit: map<string, Constraint>, st: Store): (r: seq<seq<Error>>)
    requires Valid(et.desc)
    ensures |r| == |et.desc.columns|
    ensures forall i :: 0 <= i < |r| ==> r[i] == ColumnErrors(et, rec, et.desc.columns[i], explicit, st)
  {
    var cols := et.desc.columns;
    seq(|cols|, i requires 0 <= i < |cols| => ColumnErrors(et, rec, cols[i], explicit, st))
  }

  /** The column errors of a record, column after column. */
  function ColumnsErrors(et: EntityType, rec: Record, explicit: map<string, Constraint>, st: Store): seq<Error>
    requires Valid(et.desc)
  {
    Flatten(PerColumn(et, rec, explicit, st))
  }

  /**
   `validate`, with `logicErrors` the errors the entity's logic rules report.
   The record's errors are replaced; its fields and `persisted` flag are not
   touched. The result is true iff no error was collected, and then every
   column passed every check.
   */
  method Validate(et: EntityType, rec: Record, explicit: map<string, Constraint>, logicErrors: seq<Error>, st: Store)
    returns (r: Record, ok: bool)
    requires Valid(et.desc)
    ensures r.errors == logicErrors + ColumnsErrors(et, rec, explicit, st)
    ensures r.fields == rec.fields && r.persisted == rec.persisted
    ensures ok <==> |r.errors| == 0
    ensures ok ==> (logicErrors == [] &&
      forall i :: 0 <= i < |et.desc.columns| ==> ColumnErrors(et, rec, et.desc.columns[i], explicit, st) == [])
  {
    var cols := et.desc.columns;
    var parts := PerColumn(et, rec, explicit, st);
    var errs := logicErrors;
    var i := 0;
    assert parts[..0] == [];
    while i < |cols|
      invariant 0 <= i <= |cols|
      invariant errs == logicErrors + Flatten(parts[..i])
    {
      FlattenStep(parts, i);
      var more := parts[i];
      AppendAssoc(logicErrors, Flatten(parts[..i]), more);
      errs := errs + more;
      i := i + 1;
    }
    assert parts[..|cols|] == parts;
    r := rec.(errors := errs);
    ok := |errs| == 0;
    if ok {
      FlattenEmpty(parts);
    }
  }

  /** Nothing flattens to nothing only when every part is empty. */
  lemma FlattenEmpty(parts: seq<seq<Error>>)
    requires Flatten(parts) == []
    ensures forall j :: 0 <= j < |parts| ==> parts[j] == []
  {
    forall j | 0 <= j < |parts| ensures parts[j] == [] {
      if parts[j] != [] {
        InFlatten(parts, parts[j][0]);
      }
    }
  }

  lemma AppendAssoc<T>(a: seq<T>, b: seq<T>, c: seq<T>)
    ensures (a + b) + c == a + (b + c)
  {
  }

  /** The "value required" error of one column. */
  lemma RequiredInColumn(et: EntityType, rec: Record, c: Column, explicit: map<string, Constraint>, st: Store, name: string)
    requires Valid(et.desc)
    ensures Required(name) in ColumnErrors(et, rec, c, explicit, st) <==> c.name == name && MissingRequired(c, rec)
  {
    var req: seq<Error> := if MissingRequired(c, rec) then [Required(c.name)] else [];
    var pri: seq<Error> := if PrimaryTaken(et, rec, c, st) then [NotUnique(c.name)] else [];
    var uni: seq<Error> := if UniqueTaken(et, rec, c, st) then [NotUnique(c.name)] else [];
    var rest := ConstraintErrors(c.name, Field(rec, c.name), EffectiveConstraint(et, explicit, c.name));
    assert ColumnErrors(et, rec, c, explicit, st) == req + pri + uni + rest;
    assert Required(name) !in pri && Required(name) !in uni && Required(name) !in rest;
  }

  /**
   A "value required" error is reported for a column iff the column is NOT
   NULL, not auto-increment, and its field is unset or blank after trimming.
   */
  lemma RequiredIff(et: EntityType, rec: Record, explicit: map<string, Constraint>, st: Store, name: string)
    requires Valid(et.desc)
    ensures Required(name) in ColumnsErrors(et, rec, explicit, st) <==>
      exists i :: 0 <= i < |et.desc.columns| && et.desc.columns[i].name == name && MissingRequired(et.desc.columns[i], rec)
  {
    var parts := PerColumn(et, rec, explicit, st);
    InFlatten(parts, Required(name));
    forall i | 0 <= i < |parts|
      ensures Required(name) in parts[i] <==> et.desc.columns[i].name == name && MissingRequired(et.desc.columns[i], rec)
    {
      RequiredInColumn(et, rec, et.desc.columns[i], explicit, st, name);
    }
  }

  /** A column with no error satisfies every check that applies to it. */
  lemma NoErrorsMeansChecksPass(et: EntityType, rec: Record, c: Column, explicit: map<string, Constraint>, st: Store)
    requires Valid(et.desc)
    requires ColumnErrors(et, rec, c, explicit, st) == []
    ensures !MissingRequired(c, rec)
    ensures !PrimaryTaken(et, rec, c, st) && !UniqueTaken(et, rec, c, st)
    ensures var k := EffectiveConstraint(et, explicit, c.name);
      var v := Field(rec, c.name);
      && (k.value.Some? ==> !LooseLess(v, k.value.value.min) && !LooseGreater(v, k.value.value.max))
      && (k.length.Some? ==> k.length.value.min <= Strlen(Text(v)) <= k.length.value.max)
      && (k.values.Some? ==> exists j :: 0 <= j < |k.values.value| && LooseEq(v, k.values.value[j]))
  {
  }

  /** A record already stored never gets the primary-key uniqueness error. */
  lemma PersistedKeepsItsKey(et: EntityType, rec: Record, c: Column, explicit: map<string, Constraint>, st: Store)
    requires Valid(et.desc) && rec.persisted && c.key == Primary
    ensures NotUnique(c.name) !in ColumnErrors(et, rec, c, explicit, st)
  {
  }

  /**
   A record not yet stored gets the uniqueness error on its primary key when
   the first stored row with that key text has a truthy key.
   */
  lemma StoredDuplicateNotUnique(et: EntityType, rec: Record, c: Column, explicit: map<string, Constraint>,
                                 st: Store, i: int)
    requires Valid(et.desc) && c.key == Primary && !rec.persisted
    requires FirstMatchAt(Rows(st, et.desc.table), c.name, Text(Field(rec, c.name)), i)
    requires Truthy(RowField(Rows(st, et.desc.table)[i], PkName(et)))
    ensures NotUnique(c.name) in ColumnErrors(et, rec, c, explicit, st)
  {
    var req: seq<Error> := if MissingRequired(c, rec) then [Required(c.name)] else [];
    var uni: seq<Error> := if UniqueTaken(et, rec, c, st) then [NotUnique(c.name)] else [];
    var rest := ConstraintErrors(c.name, Field(rec, c.name), EffectiveConstraint(et, explicit, c.name));
    assert PrimaryTaken(et, rec, c, st);
    assert ColumnErrors(et, rec, c, explicit, st) == req + [NotUnique(c.name)] + uni + rest;
  }

  /** A unique column whose value no stored row has gets no uniqueness error. */
  lemma UniqueFreePasses(et: EntityType, rec: Record, c: Column, explicit: map<string, Constraint>, st: Store)
    requires Valid(et.desc) && c.key == Unique
    requires forall row :: row in Rows(st, et.desc.table) ==> !Matches(row, c.name, Text(Field(rec, c.name)))
    ensures NotUnique(c.name) !in ColumnErrors(et, rec, c, explicit, st)
  {
  }

  /**
   Saving a stored record again: a unique column whose first matching row
   `i` reads back (as row `j`, the first with row `i`'s key) with a key
   loosely equal to the record's own gets no uniqueness error.
   */
  lemma UniqueSameKeyPasses(et: EntityType, rec: Record, c: Column, explicit: map<string, Constraint>,
                            st: Store, i: int, j: int)
    requires Valid(et.desc) && c.key == Unique
    requires FirstMatchAt(Rows(st, et.desc.table), c.name, Text(Field(rec, c.name)), i)
    requires FirstMatchAt(Rows(st, et.desc.table), PkName(et), Text(RowField(Rows(st, et.desc.table)[i], PkName(et))), j)
    requires LooseEq(RowField(Rows(st, et.desc.table)[j], PkName(et)), PkValue(et, rec))
    ensures NotUnique(c.name) !in ColumnErrors(et, rec, c, explicit, st)
  {
    GetByFoundRow(et, c.name, Text(Field(rec, c.name)), st, i, j);
    assert !UniqueTaken(et, rec, c, st);
    NotUniqueOnlyWhenTaken(et, rec, c, explicit, st);
  }

  /** The uniqueness error comes only from the primary-key or the unique-key check. */
  lemma NotUniqueOnlyWhenTaken(et: EntityType, rec: Record, c: Column, explicit: map<string, Constraint>, st: Store)
    requires Valid(et.desc)
    ensures NotUnique(c.name) in ColumnErrors(et, rec, c, explicit, st) <==>
      PrimaryTaken(et, rec, c, st) || UniqueTaken(et, rec, c, st)
  {
  }

  /**
   A unique column whose first matching row `i` has a truthy key, and reads
   back (as row `j`) with a key not loosely equal to the record's own, gets
   the uniqueness error, whether or not the record is stored.
   */
  lemma UniqueTakenByOther(et: EntityType, rec: Record, c: Column, explicit: map<string, Constraint>,
                           st: Store, i: int, j: int)
    requires Valid(et.desc) && c.key == Unique
    requires FirstMatchAt(Rows(st, et.desc.table), c.name, Text(Field(rec, c.name)), i)
    requires Truthy(RowField(Rows(st, et.desc.table)[i], PkName(et)))
    requires FirstMatchAt(Rows(st, et.desc.table), PkName(et), Text(RowField(Rows(st, et.desc.table)[i], PkName(et))), j)
    requires !LooseEq(RowField(Rows(st, et.desc.table)[j], PkName(et)), PkValue(et, rec))
    ensures NotUnique(c.name) in ColumnErrors(et, rec, c, explicit, st)
  {
    GetByFoundRow(et, c.name, Text(Field(rec, c.name)), st, i, j);
    assert UniqueTaken(et, rec, c, st);
    NotUniqueOnlyWhenTaken(et, rec, c, explicit, st);
  }

  /** The length is counted in bytes: `"ñ"` is too long for at most one byte. */
  lemma MultibyteLength()
    ensures ConstraintErrors("c", Str("ñ"), Constraint(None, Some(Range(0, 1)), None)) == [BadLength("c", Range(0, 1))]
  {
    StrlenOfEnye();
  }

  /**
   A column with an explicit constraint is checked against it alone: the
   entity's own constraints do not matter.
   */
  lemma ExplicitOverrides(et: EntityType, rec: Record, c: Column, explicit: map<string, Constraint>, st: Store,
                          declared: map<string, Constraint>)
    requires Valid(et.desc) && c.name in explicit
    ensures ColumnErrors(et, rec, c, explicit, st) == ColumnErrors(et.(constraints := declared), rec, c, explicit, st)
  {
    var text := Text(Field(rec, c.name));
    GetByReadsOnlyDescriptor(et, et.(constraints := declared), c.name, text, st);
  }

  /** `getBy` depends on the entity type only through its descriptor. */
  lemma GetByReadsOnlyDescriptor(et1: EntityType, et2: EntityType, col: string, text: string, st: Store)
    requires Valid(et1.desc) && et1.desc == et2.desc
    ensures GetBy(et1, col, text, st) == GetBy(et2, col, text, st)
  {
    var key := KeyOfFirst(et1, col, text, st);
    assert key == KeyOfFirst(et2, col, text, st);
    var blank := Record(map[PkName(et1) := key], false, []);
    assert Load(et1, blank, st) == Load(et2, blank, st);
  }

  /** A NOT NULL text column holding only blanks is reported as required; `0` is not. */
  lemma BlankStringIsMissing(et: EntityType, rec: Record, c: Column, explicit: map<string, Constraint>, st: Store)
    requires Valid(et.desc) && c.notNull && !c.autoIncrement
    ensures Field(rec, c.name) == Str(" \t") ==> Required(c.name) in ColumnErrors(et, rec, c, explicit, st)
    ensures Field(rec, c.name) == Int(0) ==> Required(c.name) !in ColumnErrors(et, rec, c, explicit, st)
  {
    RequiredInColumn(et, rec, c, explicit, st, c.name);
  }
}
