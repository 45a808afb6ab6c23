/**
 `getRelatedObjects` and `delete`: for each declared relation, the related
 records are looked up; with `cascade` they are deleted first (recursively),
 without it their number blocks the delete. The record's own row is deleted
 only when no relation blocked.

 A record is identified here by its entity type's name and the text of its
 key: those are the only parts of it `delete` reads. Entity types are named
 in a schema; a rank that strictly decreases along every cascading relation
 stands for the acyclic cascade graph the recursion needs. A relation without
 cascade only counts, so it may point anywhere, even back to its own type.
 */
module Integrity {
  import opened PhpValue
  import opened Descriptor
  import opened Database
  import opened Entity

  datatype Schema = Schema(types: map<string, EntityType>, rank: map<string, nat>)

  /** Every cascading relation to a known type leads to a type of lower rank. */
  predicate Acyclic(sch: Schema) {
    && sch.types.Keys <= sch.rank.Keys
    && forall m, j :: m in sch.types && 0 <= j < |sch.types[m].relations| ==>
         var target := sch.types[m].relations[j].model;
         sch.types[m].relations[j].cascade && target in sch.types ==> sch.rank[target] < sch.rank[m]
  }

  /**
   How a one-to-one relation is counted: as the code does, where the looked-up
   object always counts as one, or as intended, where it counts only when a
   related row was found.
   */
  datatype Semantics = AsWritten | Corrected

  /**
   The related objects: none (NULL), the one object a one-to-one relation
   always builds (with whether a related row was found), or the keys of the
   related rows of a one-to-many relation.
   */
  datatype Related = NoRelated | One(id: Value, found: bool) | Many(ids: seq<Value>)

  /** The relation can be followed: its model is a known type and its foreign key is truthy. */
  predicate Followable(sch: Schema, rel: Relation) {
    rel.model in sch.types && Truthy(Str(rel.foreignKey))
  }

  /** `getRelatedObjects` for the record of key text `key`. */
  function RelatedObjects(sch: Schema, rel: Relation, key: string, st: Store): (r: Related)
    ensures !Followable(sch, rel) ==> r == NoRelated
    ensures Followable(sch, rel) && !rel.oneToMany ==> (r.One? &&
      var target := sch.types[rel.model];
      && (r.found <==> exists row :: row in Rows(st, target.desc.table) && Matches(row, rel.foreignKey, key))
      && (!r.found ==> r.id == Str(""))
      && forall i :: FirstMatchAt(Rows(st, target.desc.table), rel.foreignKey, key, i) ==>
           r.id == RowField(Rows(st, target.desc.table)[i], PkName(target)))
    ensures Followable(sch, rel) && rel.oneToMany ==>
      var target := sch.types[rel.model];
      var rows := SelectAll(st, target.desc.table, rel.foreignKey, key);
      && (r == NoRelated <==> |rows| == 0)
      && (r.Many? ==> |r.ids| == |rows| && forall k :: 0 <= k < |rows| ==> r.ids[k] == RowField(rows[k], PkName(target)))
    ensures r.Many? ==> |r.ids| > 0
  {
    if !Followable(sch, rel) then NoRelated
    else
      var target := sch.types[rel.model];
      if rel.oneToMany then
        var rows := SelectAll(st, target.desc.table, rel.foreignKey, key);
        if |rows| == 0 then NoRelated
        else Many(seq(|rows|, k requires 0 <= k < |rows| => RowField(rows[k], PkName(target))))
      else
        One(KeyOfFirst(target, rel.foreignKey, key, st),
            SelectFirst(st, target.desc.table, rel.foreignKey, key).Some?)
  }

  /** `count($relatedObjects)`. */
  function Count(r: Related, sem: Semantics): (n: nat)
    ensures r == NoRelated ==> n == 0
    ensures r.Many? ==> n == |r.ids|
    ensures r.One? ==> (n == 1 <==> sem == AsWritten || r.found) && n <= 1
  {
    match r
    case NoRelated => 0
    case Many(ids) => |ids|
    case One(_, found) => if sem == AsWritten || found then 1 else 0
  }

  /**
   No relation of `rels[from..]` that does not cascade has anything related
   to the record of key text `key` in `st`.
   */
  predicate NoBlockers(sch: Schema, rels: seq<Relation>, from: nat, key: string, st: Store, sem: Semantics)
    decreases |rels| - from
  {
    from < |rels| ==> (rels[from].cascade || Count(RelatedObjects(sch, rels[from], key, st), sem) == 0) && NoBlockers(sch, rels, from + 1, key, st, sem)
  }

  /** Removing rows never makes something related that was not. */
  lemma CountShrinks(sch: Schema, rel: Relation, key: string, a: Store, b: Store, sem: Semantics)
    requires SubStore(a, b)
    ensures Count(RelatedObjects(sch, rel, key, a), sem) > 0 ==> Count(RelatedObjects(sch, rel, key, b), sem) > 0
  {
    if Followable(sch, rel) && Count(RelatedObjects(sch, rel, key, a), sem) > 0 {
      var t := sch.types[rel.model].desc.table;
      if rel.oneToMany {
        var row := SelectAll(a, t, rel.foreignKey, key)[0];
        assert row in Rows(b, t);
      } else if sem == Corrected {
        var row :| row in Rows(a, t) && Matches(row, rel.foreignKey, key);
        assert row in Rows(b, t);
      }
    }
  }

  /** `NoBlockers` relation by relation: every non-cascade relation from `from` on counts nothing. */
  lemma {:induction false} NoBlockersMeans(sch: Schema, rels: seq<Relation>, from: nat, key: string, st: Store, sem: Semantics)
    ensures NoBlockers(sch, rels, from, key, st, sem) <==>
      forall j :: from <= j < |rels| && !rels[j].cascade ==> Count(RelatedObjects(sch, rels[j], key, st), sem) == 0
    decreases |rels| - from
  {
    if from < |rels| {
      NoBlockersMeans(sch, rels, from + 1, key, st, sem);
      if NoBlockers(sch, rels, from, key, st, sem) {
        forall j | from <= j < |rels| && !rels[j].cascade ensures Count(RelatedObjects(sch, rels[j], key, st), sem) == 0 {
        }
      }
    }
  }

  /** Hence a record without blockers keeps having none as rows are removed. */
  lemma {:induction false} NoBlockersShrink(sch: Schema, rels: seq<Relation>, from: nat, key: string, a: Store, b: Store, sem: Semantics)
    requires SubStore(a, b)
    ensures NoBlockers(sch, rels, from, key, b, sem) ==> NoBlockers(sch, rels, from, key, a, sem)
    decreases |rels| - from
  {
    if from < |rels| {
      CountShrinks(sch, rels[from], key, a, b, sem);
      NoBlockersShrink(sch, rels, from + 1, key, a, b, sem);
    }
  }

  /** The store after a delete, its boolean result, and the record's errors. */
  datatype Deletion = Deletion(store: Store, ok: bool, errors: seq<Error>)

  /** Every error names a non-cascade relation of `rels[from..]` and a positive count. */
  predicate BlockedBy(rels: seq<Relation>, from: nat, errors: seq<Error>) {
    forall e :: e in errors ==>
      e.Blocked? && e.count > 0 && exists j :: from <= j < |rels| && rels[j].model == e.model && !rels[j].cascade
  }

  /**
   `delete` of the record of type `model` with key text `key`: the relations
   are checked (cascading where declared), then, only without errors, the
   record's row is deleted; the result is whether that removed any row.
   */
  function Delete(sch: Schema, model: string, key: string, st: Store, sem: Semantics): (r: Deletion)
    requires Acyclic(sch) && model in sch.types
    ensures SubStore(r.store, st)
    ensures r.ok ==> r.errors == []
    ensures BlockedBy(sch.types[model].relations, 0, r.errors)
    ensures r.errors == [] ==>
      var et := sch.types[model];
      forall row :: row in Rows(r.store, et.desc.table) ==> !Matches(row, PkName(et), key)
    ensures r.ok ==>
      var et := sch.types[model];
      exists row :: row in Rows(st, et.desc.table) && Matches(row, PkName(et), key)
    ensures r.errors != [] && (forall j :: 0 <= j < |sch.types[model].relations| ==> !sch.types[model].relations[j].cascade)
      ==> r.store == st
    decreases sch.rank[model], 2, 0, 0
  {
    var et := sch.types[model];
    var (st1, errors) := CheckRelations(sch, model, key, 0, st, sem);
    if errors == [] then
      var (st2, n) := DeleteWhere(st1, et.desc.table, PkName(et), key);
      assert n > 0 ==> SelectAll(st1, et.desc.table, PkName(et), key)[0] in Rows(st1, et.desc.table);
      Deletion(st2, n > 0, [])
    else Deletion(st1, false, errors)
  }

  /** The relations `rels[i..]` of `model`, in order: the store after cascading and the errors. */
  function CheckRelations(sch: Schema, model: string, key: string, i: nat, st: Store, sem: Semantics)
    : (r: (Store, seq<Error>))
    requires Acyclic(sch) && model in sch.types && i <= |sch.types[model].relations|
    ensures SubStore(r.0, st)
    ensures BlockedBy(sch.types[model].relations, i, r.1)
    ensures (forall j :: i <= j < |sch.types[model].relations| ==> !sch.types[model].relations[j].cascade) ==> r.0 == st
    decreases sch.rank[model], 1, |sch.types[model].relations| - i, 1
  {
    var rels := sch.types[model].relations;
    if i == |rels| then (st, [])
    else
      var (st1, e1) := CheckRelation(sch, model, key, i, st, sem);
      var (st2, e2) := CheckRelations(sch, model, key, i + 1, st1, sem);
      SubStoreTransitive(st2, st1, st);
      (st2, e1 + e2)
  }

  /**
   The relation `rels[i]` of `model` alone: nothing related changes nothing;
   related records are deleted when it cascades, and otherwise their number
   is reported.
   */
  function CheckRelation(sch: Schema, model: string, key: string, i: nat, st: Store, sem: Semantics)
    : (r: (Store, seq<Error>))
    requires Acyclic(sch) && model in sch.types && i < |sch.types[model].relations|
    ensures SubStore(r.0, st)
    ensures var rel := sch.types[model].relations[i];
      var n := Count(RelatedObjects(sch, rel, key, st), sem);
      && (!rel.cascade ==> r.0 == st && r.1 == if n == 0 then [] else [Blocked(rel.model, n)])
      && (rel.cascade ==> r.1 == [])
      && (n == 0 ==> r.0 == st)
    decreases sch.rank[model], 1, |sch.types[model].relations| - i, 0
  {
    var rel := sch.types[model].relations[i];
    var related := RelatedObjects(sch, rel, key, st);
    var n := Count(related, sem);
    if n == 0 then (st, [])
    else if !rel.cascade then (st, [Blocked(rel.model, n)])
    else
      assert Followable(sch, rel);
      match related
      case One(id, _) => (Delete(sch, rel.model, Text(id), st, sem).store, [])
      case Many(ids) => (CascadeAll(sch, rel.model, ids, st, sem), [])
      case NoRelated => (st, [])
  }

  /** Deletes the records of type `model` with the given keys, one after the other; results are discarded. */
  function CascadeAll(sch: Schema, model: string, ids: seq<Value>, st: Store, sem: Semantics): (r: Store)
    requires Acyclic(sch) && model in sch.types
    ensures SubStore(r, st)
    decreases sch.rank[model], 3, |ids|, 0
  {
    if |ids| == 0 then st
    else
      var st1 := Delete(sch, model, Text(ids[0]), st, sem).store;
      var st2 := CascadeAll(sch, model, ids[1..], st1, sem);
      SubStoreTransitive(st2, st1, st);
      st2
  }

  /** `CheckRelations` from `i`: the relation `rels[i]`, then the rest on the store it leaves. */
  lemma CheckRelationsStep(sch: Schema, model: string, key: string, i: nat, st: Store, sem: Semantics)
    requires Acyclic(sch) && model in sch.types && i < |sch.types[model].relations|
    ensures var first := CheckRelation(sch, model, key, i, st, sem);
      var rest := CheckRelations(sch, model, key, i + 1, first.0, sem);
      CheckRelations(sch, model, key, i, st, sem) == (rest.0, first.1 + rest.1)
  {
  }

  /**
   Without blockers from `i` on, the relation `rels[i]` reports nothing and
   leaves a store still without blockers from `i + 1` on.
   */
  lemma CheckRelationQuiet(sch: Schema, model: string, key: string, i: nat, st: Store, sem: Semantics)
    requires Acyclic(sch) && model in sch.types && i < |sch.types[model].relations|
    requires NoBlockers(sch, sch.types[model].relations, i, key, st, sem)
    ensures var first := CheckRelation(sch, model, key, i, st, sem);
      && CheckRelations(sch, model, key, i, st, sem).1 == CheckRelations(sch, model, key, i + 1, first.0, sem).1
      && NoBlockers(sch, sch.types[model].relations, i + 1, key, first.0, sem)
  {
    var first := CheckRelation(sch, model, key, i, st, sem);
    assert first.1 == [];
    CheckRelationsStep(sch, model, key, i, st, sem);
    NoBlockersShrink(sch, sch.types[model].relations, i + 1, key, first.0, st, sem);
  }

  /** Without a non-cascade relation that counts something, `rels[i..]` report no error. */
  lemma {:induction false} CheckRelationsWithoutBlockers(sch: Schema, model: string, key: string, i: nat, st: Store, sem: Semantics)
    requires Acyclic(sch) && model in sch.types && i <= |sch.types[model].relations|
    requires NoBlockers(sch, sch.types[model].relations, i, key, st, sem)
    ensures CheckRelations(sch, model, key, i, st, sem).1 == []
    decreases |sch.types[model].relations| - i
  {
    var rels := sch.types[model].relations;
    if i < |rels| {
      var st1 := CheckRelation(sch, model, key, i, st, sem).0;
      CheckRelationQuiet(sch, model, key, i, st, sem);
      CheckRelationsWithoutBlockers(sch, model, key, i + 1, st1, sem);
      assert CheckRelations(sch, model, key, i, st, sem).1 == CheckRelations(sch, model, key, i + 1, st1, sem).1;
    } else {
      assert CheckRelations(sch, model, key, i, st, sem) == (st, []);
    }
  }

  /**
   Every non-cascade relation of `rels[from..]` that counts related records
   in `st` has its model reported among `errors` with a positive count.
   */
  ghost predicate Reported(sch: Schema, rels: seq<Relation>, from: nat, key: string, st: Store, sem: Semantics, errors: seq<Error>)
    decreases |rels| - from
  {
    from < |rels| ==>
      && (!rels[from].cascade && Count(RelatedObjects(sch, rels[from], key, st), sem) > 0 ==>
            exists n :: n > 0 && Blocked(rels[from].model, n) in errors)
      && Reported(sch, rels, from + 1, key, st, sem, errors)
  }

  /** `Reported` relation by relation. */
  lemma {:induction false} ReportedMeans(sch: Schema, rels: seq<Relation>, from: nat, key: string, st: Store, sem: Semantics, errors: seq<Error>)
    ensures Reported(sch, rels, from, key, st, sem, errors) <==>
      forall j :: (from <= j < |rels| && !rels[j].cascade && Count(RelatedObjects(sch, rels[j], key, st), sem) > 0) ==>
        exists n :: n > 0 && Blocked(rels[j].model, n) in errors
    decreases |rels| - from
  {
    if from < |rels| {
      ReportedMeans(sch, rels, from + 1, key, st, sem, errors);
    }
  }

  /** Errors in front of reported errors leave them reported. */
  lemma {:induction false} ReportedPrepend(sch: Schema, rels: seq<Relation>, from: nat, key: string, st: Store, sem: Semantics, front: seq<Error>, errors: seq<Error>)
    requires Reported(sch, rels, from, key, st, sem, errors)
    ensures Reported(sch, rels, from, key, st, sem, front + errors)
    decreases |rels| - from
  {
    if from < |rels| {
      if !rels[from].cascade && Count(RelatedObjects(sch, rels[from], key, st), sem) > 0 {
        var n :| n > 0 && Blocked(rels[from].model, n) in errors;
        assert Blocked(rels[from].model, n) in front + errors;
      }
      ReportedPrepend(sch, rels, from + 1, key, st, sem, front, errors);
    }
  }

  /**
   Every non-cascade relation of `rels[i..]` that still counts related
   records after the check is reported with a positive count.
   */
  lemma {:induction false} CheckRelationsReportBlockers(sch: Schema, model: string, key: string, i: nat, st: Store, sem: Semantics)
    requires Acyclic(sch) && model in sch.types && i <= |sch.types[model].relations|
    ensures var r := CheckRelations(sch, model, key, i, st, sem);
      Reported(sch, sch.types[model].relations, i, key, r.0, sem, r.1)
    decreases |sch.types[model].relations| - i
  {
    var rels := sch.types[model].relations;
    if i < |rels| {
      var first := CheckRelation(sch, model, key, i, st, sem);
      var rest := CheckRelations(sch, model, key, i + 1, first.0, sem);
      CheckRelationsStep(sch, model, key, i, st, sem);
      CheckRelationsReportBlockers(sch, model, key, i + 1, first.0, sem);
      ReportedPrepend(sch, rels, i + 1, key, rest.0, sem, first.1, rest.1);
      if !rels[i].cascade && Count(RelatedObjects(sch, rels[i], key, rest.0), sem) > 0 {
        CountShrinks(sch, rels[i], key, rest.0, st, sem);
        var n := Count(RelatedObjects(sch, rels[i], key, st), sem);
        assert Blocked(rels[i].model, n) in first.1 + rest.1;
      }
    }
  }

  /** A record that no non-cascade relation blocks is deleted without error, so no row keeps its key. */
  lemma DeleteWithoutBlockers(sch: Schema, model: string, key: string, st: Store, sem: Semantics)
    requires Acyclic(sch) && model in sch.types
    requires NoBlockers(sch, sch.types[model].relations, 0, key, st, sem)
    ensures var r := Delete(sch, model, key, st, sem);
      var et := sch.types[model];
      && r.errors == []
      && forall row :: row in Rows(r.store, et.desc.table) ==> !Matches(row, PkName(et), key)
  {
    CheckRelationsWithoutBlockers(sch, model, key, 0, st, sem);
  }

  /**
   A non-cascade relation that still counts related records after `delete`
   refused it: the result is false and its positive count is among the errors.
   */
  lemma DeleteReportsBlockers(sch: Schema, model: string, key: string, st: Store, sem: Semantics)
    requires Acyclic(sch) && model in sch.types
    ensures var r := Delete(sch, model, key, st, sem);
      var rels := sch.types[model].relations;
      forall j :: (0 <= j < |rels| && !rels[j].cascade && Count(RelatedObjects(sch, rels[j], key, r.store), sem) > 0) ==>
        !r.ok && exists n :: n > 0 && Blocked(rels[j].model, n) in r.errors
  {
    var et := sch.types[model];
    var rels := et.relations;
    var (st1, errors) := CheckRelations(sch, model, key, 0, st, sem);
    CheckRelationsReportBlockers(sch, model, key, 0, st, sem);
    ReportedMeans(sch, rels, 0, key, st1, sem, errors);
    var r := Delete(sch, model, key, st, sem);
    forall j | 0 <= j < |rels| && !rels[j].cascade && Count(RelatedObjects(sch, rels[j], key, r.store), sem) > 0
      ensures !r.ok && exists n :: n > 0 && Blocked(rels[j].model, n) in r.errors
    {
      CountShrinks(sch, rels[j], key, r.store, st1, sem);
    }
  }

  /** Every cascaded key whose own delete nothing blocks has no row left afterwards. */
  lemma {:induction false} CascadeAllRemoves(sch: Schema, model: string, ids: seq<Value>, st: Store, sem: Semantics)
    requires Acyclic(sch) && model in sch.types
    ensures var r := CascadeAll(sch, model, ids, st, sem);
      var et := sch.types[model];
      forall k :: (0 <= k < |ids| && NoBlockers(sch, et.relations, 0, Text(ids[k]), st, sem)) ==>
        forall row :: row in Rows(r, et.desc.table) ==> !Matches(row, PkName(et), Text(ids[k]))
    decreases |ids|
  {
    if |ids| > 0 {
      var et := sch.types[model];
      var st1 := Delete(sch, model, Text(ids[0]), st, sem).store;
      var r := CascadeAll(sch, model, ids[1..], st1, sem);
      CascadeAllRemoves(sch, model, ids[1..], st1, sem);
      forall k | 0 <= k < |ids| && NoBlockers(sch, et.relations, 0, Text(ids[k]), st, sem)
        ensures forall row :: row in Rows(r, et.desc.table) ==> !Matches(row, PkName(et), Text(ids[k]))
      {
        if k == 0 {
          DeleteWithoutBlockers(sch, model, Text(ids[0]), st, sem);
          forall row | row in Rows(r, et.desc.table) ensures !Matches(row, PkName(et), Text(ids[0])) {
            assert row in Rows(st1, et.desc.table);
          }
        } else {
          NoBlockersShrink(sch, et.relations, 0, Text(ids[k]), st1, st, sem);
          assert ids[1..][k - 1] == ids[k];
        }
      }
    }
  }

  // ----------------------------------------------------------------- lemmas

  /** A one-to-one relation the code can follow. */
  predicate OneToOneBlocker(sch: Schema, rel: Relation) {
    Followable(sch, rel) && !rel.oneToMany && !rel.cascade
  }

  /**
   As written, a non-cascade one-to-one relation blocks whatever the store
   holds: the object `getBy` returns counts as one even when no row matched.
   */
  lemma {:induction false} OneToOneAlwaysBlocks(sch: Schema, model: string, key: string, i: nat, j: nat, st: Store)
    requires Acyclic(sch) && model in sch.types
    requires i <= j < |sch.types[model].relations| && OneToOneBlocker(sch, sch.types[model].relations[j])
    ensures Blocked(sch.types[model].relations[j].model, 1) in CheckRelations(sch, model, key, i, st, AsWritten).1
    decreases j - i
  {
    var rels := sch.types[model].relations;
    var rel := rels[i];
    var related := RelatedObjects(sch, rel, key, st);
    if i == j {
      assert Count(related, AsWritten) == 1;
    } else {
      var n := Count(related, AsWritten);
      var st1 :=
        if n == 0 || !rel.cascade then st
        else match related
          case One(id, _) => Delete(sch, rel.model, Text(id), st, AsWritten).store
          case Many(ids) => CascadeAll(sch, rel.model, ids, st, AsWritten)
          case NoRelated => st;
      OneToOneAlwaysBlocks(sch, model, key, i + 1, j, st1);
    }
  }

  /** Hence, as written, such a record can never be deleted. */
  lemma OneToOneRecordNeverDeleted(sch: Schema, model: string, key: string, j: nat, st: Store)
    requires Acyclic(sch) && model in sch.types
    requires j < |sch.types[model].relations| && OneToOneBlocker(sch, sch.types[model].relations[j])
    ensures !Delete(sch, model, key, st, AsWritten).ok
    ensures Blocked(sch.types[model].relations[j].model, 1) in Delete(sch, model, key, st, AsWritten).errors
  {
    OneToOneAlwaysBlocks(sch, model, key, 0, j, st);
  }

  /** No related row for any of the relations `rels[i..]`. */
  predicate NothingRelated(sch: Schema, rels: seq<Relation>, i: nat, key: string, st: Store) {
    forall j :: i <= j < |rels| && Followable(sch, rels[j]) ==>
      SelectAll(st, sch.types[rels[j].model].desc.table, rels[j].foreignKey, key) == []
  }

  /** Counting as intended, relations without related rows neither block nor cascade. */
  lemma {:induction false} CorrectedNothingRelatedIsNoOp(sch: Schema, model: string, key: string, i: nat, st: Store)
    requires Acyclic(sch) && model in sch.types && i <= |sch.types[model].relations|
    requires NothingRelated(sch, sch.types[model].relations, i, key, st)
    ensures CheckRelations(sch, model, key, i, st, Corrected) == (st, [])
    decreases |sch.types[model].relations| - i
  {
    var rels := sch.types[model].relations;
    if i < |rels| {
      var rel := rels[i];
      var related := RelatedObjects(sch, rel, key, st);
      if Followable(sch, rel) && !rel.oneToMany {
        assert !related.found;
      }
      assert Count(related, Corrected) == 0;
      assert NothingRelated(sch, rels, i + 1, key, st);
      CorrectedNothingRelatedIsNoOp(sch, model, key, i + 1, st);
      assert CheckRelations(sch, model, key, i, st, Corrected)
        == (CheckRelations(sch, model, key, i + 1, st, Corrected).0, [] + CheckRelations(sch, model, key, i + 1, st, Corrected).1);
      var none: seq<Error> := [];
      assert none + none == none;
    }
  }

  /**
   Counting as intended, a record without related rows is deleted exactly
   when its row exists, and nothing else is removed.
   */
  lemma CorrectedUnrelatedRecordDeleted(sch: Schema, model: string, key: string, st: Store)
    requires Acyclic(sch) && model in sch.types
    requires NothingRelated(sch, sch.types[model].relations, 0, key, st)
    ensures var et := sch.types[model];
      var r := Delete(sch, model, key, st, Corrected);
      && r.errors == []
      && r.store == DeleteWhere(st, et.desc.table, PkName(et), key).0
      && (r.ok <==> exists row :: row in Rows(st, et.desc.table) && Matches(row, PkName(et), key))
  {
    CorrectedNothingRelatedIsNoOp(sch, model, key, 0, st);
    var et := sch.types[model];
    var found := SelectAll(st, et.desc.table, PkName(et), key);
    if exists row :: row in Rows(st, et.desc.table) && Matches(row, PkName(et), key) {
      var row :| row in Rows(st, et.desc.table) && Matches(row, PkName(et), key);
      assert row in found;
    }
  }

  // ------------------------------------------------------------ an example

  /** A category refuses to be deleted while it has subcategories. */
  const RelSub := Relation("Cat", "parent_id", true, false)
  const TypeCat := EntityType(TableDescriptor("cat", "id", []), [RelSub], [], map[])

  /**
   A type with a non-cascading relation to itself is a valid schema, and a
   category with a stored subcategory is not deleted.
   */
  lemma SelfBlockingCategory(key: string, st: Store, sem: Semantics, row: Row)
    requires row in Rows(st, "cat") && Matches(row, "parent_id", key)
    ensures Acyclic(Schema(map["Cat" := TypeCat], map["Cat" := 0]))
    ensures !Delete(Schema(map["Cat" := TypeCat], map["Cat" := 0]), "Cat", key, st, sem).ok
  {
    var sch := Schema(map["Cat" := TypeCat], map["Cat" := 0]);
    assert sch.types["Cat"] == TypeCat;
    assert row in SelectAll(st, "cat", "parent_id", key);
    assert Count(RelatedObjects(sch, RelSub, key, st), sem) > 0;
    CheckRelationsStep(sch, "Cat", key, 0, st, sem);
    assert CheckRelation(sch, "Cat", key, 0, st, sem).1 != [];
  }


  const RelB := Relation("B", "a_id", true, true)
  const RelC := Relation("C", "a_id", true, false)
  const TypeA := EntityType(TableDescriptor("a", "id", []), [RelB, RelC], [], map[])
  const TypeB := EntityType(TableDescriptor("b", "id", []), [], [], map[])
  const TypeC := EntityType(TableDescriptor("c", "id", []), [], [], map[])

  /** `A` rows have `B` children (cascade) and `C` children (no cascade). */
  function ExampleSchema(): Schema {
    Schema(map["A" := TypeA, "B" := TypeB, "C" := TypeC], map["A" := 1, "B" := 0, "C" := 0])
  }

  const RowA: Row := map["id" := Str("1")]
  const RowB: Row := map["id" := Str("10"), "a_id" := Str("1")]
  const RowC: Row := map["id" := Str("20"), "a_id" := Str("1")]

  /** One `A` row with one child of each kind. */
  function ExampleStore(): Store {
    map["a" := [RowA], "b" := [RowB], "c" := [RowC]]
  }

  /** The example schema's types, looked up, and its acyclicity. */
  lemma ExampleFacts()
    ensures ExampleSchema().types.Keys == {"A", "B", "C"}
    ensures ExampleSchema().types["A"] == TypeA
    ensures ExampleSchema().types["B"] == TypeB
    ensures ExampleSchema().types["C"] == TypeC
    ensures Acyclic(ExampleSchema())
  {
  }

  /** Cascading to the `B` child removes its row. */
  lemma ExampleCascadeStep()
    ensures Acyclic(ExampleSchema())
    ensures CascadeAll(ExampleSchema(), "B", [Str("10")], ExampleStore(), AsWritten) == ExampleStore()["b" := []]
  {
    ExampleFacts();
    var sch, st := ExampleSchema(), ExampleStore();
    assert CheckRelations(sch, "B", "10", 0, st, AsWritten) == (st, []);
    assert Matches(RowB, "id", "10");
    assert WhereNot([RowB], "id", "10") == [];
    var del := Delete(sch, "B", "10", st, AsWritten);
    assert del.store == st["b" := []];
    assert Text(Str("10")) == "10";
  }

  /** The `A` row has one `B` child. */
  lemma ExampleFirstRelated()
    ensures RelatedObjects(ExampleSchema(), RelB, "1", ExampleStore()) == Many([Str("10")])
  {
    ExampleFacts();
    var st := ExampleStore();
    assert Rows(st, "b") == [RowB];
    assert Matches(RowB, "a_id", "1");
    assert SelectAll(st, "b", "a_id", "1") == [RowB];
  }

  /** With the `B` child gone, the `C` child blocks. */
  lemma ExampleBlockStep()
    ensures Acyclic(ExampleSchema())
    ensures CheckRelations(ExampleSchema(), "A", "1", 1, ExampleStore()["b" := []], AsWritten)
      == (ExampleStore()["b" := []], [Blocked("C", 1)])
  {
    ExampleFacts();
    var sch, st1 := ExampleSchema(), ExampleStore()["b" := []];
    assert Rows(st1, "c") == [RowC];
    assert Matches(RowC, "a_id", "1");
    assert SelectAll(st1, "c", "a_id", "1") == [RowC];
    assert RelatedObjects(sch, RelC, "1", st1) == Many([Str("20")]);
    assert CheckRelations(sch, "A", "1", 2, st1, AsWritten) == (st1, []);
    assert [Blocked("C", 1)] + [] == [Blocked("C", 1)];
  }

  /** Checking the relations of the `A` row cascades to `B`, then reports the `C` child. */
  lemma ExampleCheckAll()
    ensures Acyclic(ExampleSchema())
    ensures CheckRelations(ExampleSchema(), "A", "1", 0, ExampleStore(), AsWritten)
      == (ExampleStore()["b" := []], [Blocked("C", 1)])
  {
    ExampleFacts();
    ExampleFirstRelated();
    ExampleCascadeStep();
    ExampleBlockStep();
    var sch, st := ExampleSchema(), ExampleStore();
    assert sch.types["A"].relations[0] == RelB;
    CascadeBeforeRest(sch, "A", "1", 0, st, AsWritten, [Str("10")]);
  }

  /**
   A cascading one-to-many relation with related rows deletes them first; the
   remaining relations are then checked against the store that results.
   */
  lemma CascadeBeforeRest(sch: Schema, model: string, key: string, i: nat, st: Store, sem: Semantics, ids: seq<Value>)
    requires Acyclic(sch) && model in sch.types && i < |sch.types[model].relations|
    requires sch.types[model].relations[i].cascade
    requires RelatedObjects(sch, sch.types[model].relations[i], key, st) == Many(ids) && |ids| > 0
    ensures CheckRelations(sch, model, key, i, st, sem)
      == CheckRelations(sch, model, key, i + 1, CascadeAll(sch, sch.types[model].relations[i].model, ids, st, sem), sem)
  {
    var rest := CheckRelations(sch, model, key, i + 1,
      CascadeAll(sch, sch.types[model].relations[i].model, ids, st, sem), sem);
    assert [] + rest.1 == rest.1;
  }

  /**
   A cascade is not undone when a later relation blocks: deleting the `A` row
   fails with the `C` child's error and keeps the `A` row, but the `B` child
   is gone.
   */
  lemma CascadeRunsBeforeBlock()
    ensures Acyclic(ExampleSchema())
    ensures var r := Delete(ExampleSchema(), "A", "1", ExampleStore(), AsWritten);
      && !r.ok && r.errors == [Blocked("C", 1)]
      && Rows(r.store, "a") == [RowA]
      && Rows(r.store, "b") == []
  {
    ExampleFacts();
    ExampleCheckAll();
    ExampleStoreAfterCascade();
    assert Delete(ExampleSchema(), "A", "1", ExampleStore(), AsWritten)
      == Deletion(ExampleStore()["b" := []], false, [Blocked("C", 1)]);
  }

  /** After the cascade, the `A` row is still there and the `B` rows are gone. */
  lemma ExampleStoreAfterCascade()
    ensures Rows(ExampleStore()["b" := []], "a") == [RowA]
    ensures Rows(ExampleStore()["b" := []], "b") == []
  {
  }
}
