/**
 * Counting: count() with and without a parent (the filter it chooses for each
 * storage strategy) and _count_related, which adds the matching objects passed
 * to a save to the relationships already stored.
 */
module Counting {
  import opened Results
  import opened Strings
  import opened PhpValues
  import opened Models
  import opened Context
  import opened Relations
  import opened Store
  import opened Entities

  // ---------------------------------------------------------------------------
  // count()

  /** Where a related count looks: the relationship as declared on the counted model, and its table. */
  datatype CountSource = CountSource(spec: RelationSpec, obj: Descriptor, relTable: string, onParentTable: bool)

  /**
   * The relationship back to the parent, looked up without trying the singular:
   * it resolves exactly when the parent's relation is declared here and its
   * class is known. The count reads the parent's own table when that table holds
   * the key, unless that is a self-referencing has_one whose key points the other way.
   */
  function CountSourceOf(env: Env, d: Descriptor, parentModel: string): (r: Result<CountSource>)
    ensures var found := RelatedProperties(env, d, parentModel, false);
      r.Success? <==> found.Success? && found.value.Some? && Lookup(env, found.value.value.spec.cls).Success?
    ensures r.Success? ==>
      var res := RelatedProperties(env, d, parentModel, false).value.value;
      r.value.spec == res.spec && Lookup(env, res.spec.cls) == Success(r.value.obj)
      && r.value.relTable == RelationshipTable(d, r.value.obj, res.field, res.spec, env.infl.plural)
    ensures r.Success? ==>
      (r.value.onParentTable <==>
        TextEq(r.value.relTable, r.value.obj.table)
        && !(TextEq(r.value.obj.table, d.table) && TextIn(OtherColumn(r.value.spec), d.fields)))
  {
    var found :- RelatedProperties(env, d, parentModel, false);
    match found
    case None => Failure("Class '' not found")
    case Some(res) =>
      var obj :- Lookup(env, res.spec.cls);
      var relTable := RelationshipTable(d, obj, res.field, res.spec, env.infl.plural);
      var onParent := TextEq(relTable, obj.table) && !(TextEq(obj.table, d.table) && TextIn(OtherColumn(res.spec), d.fields));
      Success(CountSource(res.spec, obj, relTable, onParent))
  }

  /**
   * Where a related count reads, by where the relationship is stored: never
   * the parent's table when the counted model's table holds the key; the
   * parent's table when the parent holds it (outside the self-referencing case
   * above); and not the parent's table for a join table of another name.
   */
  lemma CountSourceStrategy(env: Env, d: Descriptor, parentModel: string)
    requires CountSourceOf(env, d, parentModel).Success?
    ensures var src := CountSourceOf(env, d, parentModel).value;
      var res := RelatedProperties(env, d, parentModel, false).value.value;
      KeyHere(d, res.field, res.spec) ==> !src.onParentTable && src.relTable == d.table
    ensures var src := CountSourceOf(env, d, parentModel).value;
      var res := RelatedProperties(env, d, parentModel, false).value.value;
      var selfKeyed := TextEq(src.obj.table, d.table) && TextIn(OtherColumn(res.spec), d.fields);
      !KeyHere(d, res.field, res.spec) && KeyThere(src.obj, res.spec) && !selfKeyed ==> src.onParentTable
    ensures var src := CountSourceOf(env, d, parentModel).value;
      var res := RelatedProperties(env, d, parentModel, false).value.value;
      var joinTable := JoinTableName(d, src.obj, res.spec, env.infl.plural);
      !KeyHere(d, res.field, res.spec) && !KeyThere(src.obj, res.spec) && !TextEq(joinTable, src.obj.table) ==> !src.onParentTable
  {
    var src := CountSourceOf(env, d, parentModel).value;
    LooseEqSymmetric(Str(d.table), Str(src.obj.table));
    LooseEqReflexive(Str(src.obj.table));
  }

  /** The query of a count: its table and its conditions. */
  datatype CountPlan = CountPlan(table: string, conds: seq<Cond>)

  /** where_not_in($col, $ids) when the list is non-empty, and where($col, $id) when the id is non-empty. */
  function Narrowing(keyCol: string, excludeIds: seq<Value>, relatedId: Value): (r: seq<Cond>)
    ensures (|excludeIds| > 0 ==> NotIn(keyCol, excludeIds) in r) && (!Empty(relatedId) ==> Eq(keyCol, relatedId) in r)
    ensures forall k :: 0 <= k < |r| ==> CondCol(r[k]) == keyCol
  {
    (if |excludeIds| > 0 then [NotIn(keyCol, excludeIds)] else [])
    + (if !Empty(relatedId) then [Eq(keyCol, relatedId)] else [])
  }

  /**
   * What the query of a related count holds: it reads the source's table, first
   * selects the rows tied to the parent (by the parent's id and a non-NULL key
   * on the parent's table, by the parent key elsewhere), and then narrows only
   * by `keyCol`: one exclusion when ids are given, one equality when a related id is.
   */
  predicate IsParentPlan(src: CountSource, parentId: Value, keyCol: string, excludeIds: seq<Value>, relatedId: Value, plan: CountPlan) {
    var n := if src.onParentTable then 2 else 1;
    plan.table == src.relTable
    && |plan.conds| == n + (if |excludeIds| > 0 then 1 else 0) + (if !Empty(relatedId) then 1 else 0)
    && (src.onParentTable ==> plan.conds[..2] == [Eq("id", parentId), NotNull(SelfColumn(src.spec))])
    && (!src.onParentTable ==> plan.conds[..1] == [Eq(OtherColumn(src.spec), parentId)])
    && (forall k :: n <= k < |plan.conds| ==> CondCol(plan.conds[k]) == keyCol)
    && (|excludeIds| > 0 ==> NotIn(keyCol, excludeIds) in plan.conds)
    && (!Empty(relatedId) ==> Eq(keyCol, relatedId) in plan.conds)
  }

  /** The filter of a related count, given the column that identifies the counted objects. */
  function ParentPlan(src: CountSource, parentId: Value, keyCol: string, excludeIds: seq<Value>, relatedId: Value): (r: CountPlan)
    ensures IsParentPlan(src, parentId, keyCol, excludeIds, relatedId, r)
  {
    var base := if src.onParentTable then [Eq("id", parentId), NotNull(SelfColumn(src.spec))]
                else [Eq(OtherColumn(src.spec), parentId)];
    CountPlan(src.relTable, base + Narrowing(keyCol, excludeIds, relatedId))
  }

  /** The column count() excludes and narrows by, as written: always join_self_as + "_id". */
  function KeyColumnAsWritten(d: Descriptor, src: CountSource): string {
    SelfColumn(src.spec)
  }

  /**
   * The column that identifies the counted objects: `id` when the counted
   * model's own table holds the key, else join_self_as + "_id".
   */
  function KeyColumn(d: Descriptor, src: CountSource): (r: string)
    ensures !src.onParentTable && TextEq(src.relTable, d.table) ==> r == "id"
    ensures src.onParentTable || !TextEq(src.relTable, d.table) ==> r == SelfColumn(src.spec)
  {
    if !src.onParentTable && TextEq(src.relTable, d.table) then "id" else SelfColumn(src.spec)
  }

  /** The filter count() builds, as written. */
  function CountPlanAsWritten(env: Env, d: Descriptor, parent: Option<Parent>, excludeIds: seq<Value>, relatedId: Value): (r: Result<CountPlan>)
    ensures parent.None? ==> r == Success(CountPlan(d.table, Narrowing("id", excludeIds, relatedId)))
    ensures parent.Some? ==> (r.Success? <==> CountSourceOf(env, d, parent.value.model).Success?)
    ensures parent.Some? && r.Success? ==>
      var src := CountSourceOf(env, d, parent.value.model).value;
      IsParentPlan(src, parent.value.id, SelfColumn(src.spec), excludeIds, relatedId, r.value)
  {
    match parent
    case None => Success(CountPlan(d.table, Narrowing("id", excludeIds, relatedId)))
    case Some(p) =>
      var src :- CountSourceOf(env, d, p.model);
      Success(ParentPlan(src, p.id, KeyColumnAsWritten(d, src), excludeIds, relatedId))
  }

  /** The filter count() builds, with the counted objects identified by KeyColumn. */
  function CountPlanOf(env: Env, d: Descriptor, parent: Option<Parent>, excludeIds: seq<Value>, relatedId: Value): (r: Result<CountPlan>)
    ensures parent.None? ==> r == Success(CountPlan(d.table, Narrowing("id", excludeIds, relatedId)))
    ensures parent.Some? ==> (r.Success? <==> CountSourceOf(env, d, parent.value.model).Success?)
    ensures parent.Some? && r.Success? ==>
      var src := CountSourceOf(env, d, parent.value.model).value;
      IsParentPlan(src, parent.value.id, KeyColumn(d, src), excludeIds, relatedId, r.value)
  {
    match parent
    case None => Success(CountPlan(d.table, Narrowing("id", excludeIds, relatedId)))
    case Some(p) =>
      var src :- CountSourceOf(env, d, p.model);
      Success(ParentPlan(src, p.id, KeyColumn(d, src), excludeIds, relatedId))
  }

  /** count($exclude_ids, NULL, $related_id): the number of rows the plan selects. */
  function Count(env: Env, d: Descriptor, db: Db, parent: Option<Parent>, excludeIds: seq<Value>, relatedId: Value): (r: Result<nat>)
    ensures r.Success? ==> CountPlanOf(env, d, parent, excludeIds, relatedId).Success?
    ensures r.Success? ==> var plan := CountPlanOf(env, d, parent, excludeIds, relatedId).value;
      plan.table in db.tables && r.value == |Filter(db.tables[plan.table].rows, plan.conds)|
    ensures CountPlanOf(env, d, parent, excludeIds, relatedId).Success? ==>
      var plan := CountPlanOf(env, d, parent, excludeIds, relatedId).value;
      (r.Success? <==> plan.table in db.tables && CondsFit(db.tables[plan.table], plan.conds))
  {
    var plan :- CountPlanOf(env, d, parent, excludeIds, relatedId);
    CountWhere(db, plan.table, plan.conds)
  }

  /** count() as written: the number of rows its own plan selects, or the SQL error of a plan naming a missing table or column. */
  function CountAsWritten(env: Env, d: Descriptor, db: Db, parent: Option<Parent>, excludeIds: seq<Value>, relatedId: Value): (r: Result<nat>)
    ensures r.Success? ==> CountPlanAsWritten(env, d, parent, excludeIds, relatedId).Success?
    ensures r.Success? ==> var plan := CountPlanAsWritten(env, d, parent, excludeIds, relatedId).value;
      plan.table in db.tables && r.value == |Filter(db.tables[plan.table].rows, plan.conds)|
    ensures CountPlanAsWritten(env, d, parent, excludeIds, relatedId).Success? ==>
      var plan := CountPlanAsWritten(env, d, parent, excludeIds, relatedId).value;
      (r.Success? <==> plan.table in db.tables && CondsFit(db.tables[plan.table], plan.conds))
  {
    var plan :- CountPlanAsWritten(env, d, parent, excludeIds, relatedId);
    CountWhere(db, plan.table, plan.conds)
  }

  /** Whether count() as written already narrows by the corrected column. */
  predicate SameKeyColumn(env: Env, d: Descriptor, parent: Option<Parent>) {
    match parent
    case None => true
    case Some(p) =>
      var src := CountSourceOf(env, d, p.model);
      src.Failure? || KeyColumn(d, src.value) == KeyColumnAsWritten(d, src.value)
  }

  /**
   * The two counts differ only in the column they narrow by: with nothing to
   * exclude or match, or where the two columns coincide, they agree.
   */
  lemma CountAgrees(env: Env, d: Descriptor, db: Db, parent: Option<Parent>, excludeIds: seq<Value>, relatedId: Value)
    requires (|excludeIds| == 0 && Empty(relatedId)) || SameKeyColumn(env, d, parent)
    ensures Count(env, d, db, parent, excludeIds, relatedId) == CountAsWritten(env, d, db, parent, excludeIds, relatedId)
  {
    if parent.Some? && CountSourceOf(env, d, parent.value.model).Success? {
      var src := CountSourceOf(env, d, parent.value.model).value;
      if |excludeIds| == 0 && Empty(relatedId) {
        assert Narrowing(KeyColumn(d, src), excludeIds, relatedId) == [] == Narrowing(KeyColumnAsWritten(d, src), excludeIds, relatedId);
      }
      assert CountPlanOf(env, d, parent, excludeIds, relatedId) == CountPlanAsWritten(env, d, parent, excludeIds, relatedId);
    }
  }

  /**
   * Without a parent, count() counts the rows of the model's table whose id is
   * not excluded: a row is counted iff it survives the exclusion.
   */
  lemma CountOwnTable(env: Env, d: Descriptor, db: Db, excludeIds: seq<Value>, row: Row)
    requires d.table in db.tables && "id" in db.tables[d.table].columns
    ensures Count(env, d, db, None, excludeIds, Null).Success?
    ensures Matches(row, CountPlanOf(env, d, None, excludeIds, Null).value.conds) <==>
      (|excludeIds| > 0 ==> Holds(row, NotIn("id", excludeIds)))
  {
    var conds := Narrowing("id", excludeIds, Null);
    assert CondsFit(db.tables[d.table], conds);
    if |excludeIds| > 0 {
      assert conds == [NotIn("id", excludeIds)];
    } else {
      assert conds == [];
    }
  }

  /**
   * When the counted model's own table holds the key (and that table has no
   * column named after the model itself), excluding ids with count() as written
   * names a column the table lacks, so the query fails.
   */
  lemma CountAsWrittenNamesMissingColumn(env: Env, d: Descriptor, db: Db, parent: Parent, excludeIds: seq<Value>, relatedId: Value)
    requires |excludeIds| > 0
    requires CountSourceOf(env, d, parent.model).Success?
    requires var src := CountSourceOf(env, d, parent.model).value;
      !src.onParentTable && src.relTable == d.table && d.table in db.tables
      && SelfColumn(src.spec) !in db.tables[d.table].columns
    ensures CountAsWritten(env, d, db, Some(parent), excludeIds, relatedId).Failure?
  {
    var src := CountSourceOf(env, d, parent.model).value;
    var plan := ParentPlan(src, parent.id, KeyColumnAsWritten(d, src), excludeIds, relatedId);
    assert plan.conds[1] == NotIn(SelfColumn(src.spec), excludeIds);
    assert !CondsFit(db.tables[d.table], plan.conds);
  }

  /**
   * With the counted objects identified by `id` in that case, the same count
   * succeeds whenever the table has `id` and the key column.
   */
  lemma CountExcludesById(env: Env, d: Descriptor, db: Db, parent: Parent, excludeIds: seq<Value>, relatedId: Value)
    requires CountSourceOf(env, d, parent.model).Success?
    requires var src := CountSourceOf(env, d, parent.model).value;
      !src.onParentTable && src.relTable == d.table && d.table in db.tables
      && "id" in db.tables[d.table].columns && OtherColumn(src.spec) in db.tables[d.table].columns
    ensures Count(env, d, db, Some(parent), excludeIds, relatedId).Success?
    ensures var plan := CountPlanOf(env, d, Some(parent), excludeIds, relatedId).value;
      forall k :: 1 <= k < |plan.conds| ==> CondCol(plan.conds[k]) == "id"
  {
    var src := CountSourceOf(env, d, parent.model).value;
    assert TextEq(d.table, d.table) by {
      LooseEqReflexive(Str(d.table));
    }
    var plan := ParentPlan(src, parent.id, "id", excludeIds, relatedId);
    var narrow := Narrowing("id", excludeIds, relatedId);
    assert plan.conds == [Eq(OtherColumn(src.spec), parent.id)] + narrow;
    assert CondsFit(db.tables[d.table], plan.conds);
  }

  // ---------------------------------------------------------------------------
  // _count_related

  /** What a save passes along: one object (with its model), or an array whose string keys name the relation. */
  datatype Passed = One(model: string, obj: Entity) | Many(items: seq<PassedItem>)
  datatype PassedItem = PassedItem(key: Option<string>, value: Passed)

  /** How many passed objects count, and their ids. */
  datatype Tally = Tally(count: nat, ids: seq<Value>)

  /**
   * _count_related_objects: an object counts when it exists and its relation
   * name (its array key, else the enclosing one, else its model) equals `compare`.
   */
  function CountPassed(compare: string, p: Passed, rf: string): (r: Tally)
    ensures |r.ids| == r.count
    decreases p, 1, 0
  {
    match p
    case One(model, o) =>
      var name := if EmptyText(rf) then model else rf;
      if TextEq(name, compare) && Exists(o) then Tally(1, [Prop(o, "id")]) else Tally(0, [])
    case Many(_) => CountItems(compare, p, rf, 0)
  }

  function CountItems(compare: string, p: Passed, rf: string, i: nat): (r: Tally)
    requires p.Many? && i <= |p.items|
    ensures |r.ids| == r.count
    decreases p, 0, |p.items| - i
  {
    if i == |p.items| then Tally(0, [])
    else
      var item := p.items[i];
      var here := CountPassed(compare, item.value, if item.key.Some? then item.key.value else rf);
      var rest := CountItems(compare, p, rf, i + 1);
      Tally(here.count + rest.count, here.ids + rest.ids)
  }

  /** A passed object that exists and is named `compare` is counted once, with its id. */
  lemma CountOne(compare: string, model: string, o: Entity, rf: string)
    requires TextEq(if EmptyText(rf) then model else rf, compare)
    ensures CountPassed(compare, One(model, o), rf) == (if Exists(o) then Tally(1, [Prop(o, "id")]) else Tally(0, []))
  {
  }

  /** The counts of an array's elements add up. */
  lemma CountItemsSum(compare: string, items: seq<PassedItem>, rf: string)
    requires |items| > 0
    ensures CountPassed(compare, Many(items), rf).count ==
      CountPassed(compare, items[0].value, if items[0].key.Some? then items[0].key.value else rf).count
      + CountItems(compare, Many(items), rf, 1).count
  {
  }

  /** Some element of `xs` has the text `t`. */
  predicate HasText(xs: seq<Value>, t: string) {
    exists j :: 0 <= j < |xs| && ToStr(xs[j]) == t
  }

  /** array_unique: the first of each group of ids with the same text, in order. */
  function UniqueIds(ids: seq<Value>): seq<Value> {
    if |ids| == 0 then []
    else
      var init := UniqueIds(ids[..|ids| - 1]);
      var x := ids[|ids| - 1];
      if HasText(init, ToStr(x)) then init else init + [x]
  }

  /** array_unique keeps exactly the texts it is given, each once, and nothing else. */
  lemma UniqueIdsTexts(ids: seq<Value>)
    ensures var r := UniqueIds(ids);
      |r| <= |ids|
      && (forall i :: 0 <= i < |r| ==> r[i] in ids)
      && (forall i :: 0 <= i < |ids| ==> HasText(r, ToStr(ids[i])))
      && (forall i, j :: 0 <= i < j < |r| ==> ToStr(r[i]) != ToStr(r[j]))
  {
    UniqueIdsFrom(ids);
    UniqueIdsCovers(ids);
    UniqueIdsDistinct(ids);
  }

  /** The ids array_unique keeps come from its input, and are no more than it. */
  lemma {:induction false} UniqueIdsFrom(ids: seq<Value>)
    ensures |UniqueIds(ids)| <= |ids| && forall i :: 0 <= i < |UniqueIds(ids)| ==> UniqueIds(ids)[i] in ids
  {
    if |ids| > 0 {
      var pre := ids[..|ids| - 1];
      var x := ids[|ids| - 1];
      UniqueIdsFrom(pre);
      var init := UniqueIds(pre);
      forall i | 0 <= i < |init| ensures init[i] in ids {
        var k :| 0 <= k < |pre| && pre[k] == init[i];
        assert ids[k] == pre[k];
      }
      if !HasText(init, ToStr(x)) {
        var r := init + [x];
        forall i | 0 <= i < |r| ensures r[i] in ids {
          if i < |init| {
            assert r[i] == init[i];
          } else {
            assert r[i] == ids[|ids| - 1];
          }
        }
      }
    }
  }

  /** Every id given to array_unique has its text among the kept ones. */
  lemma {:induction false} UniqueIdsCovers(ids: seq<Value>)
    ensures forall i :: 0 <= i < |ids| ==> HasText(UniqueIds(ids), ToStr(ids[i]))
  {
    if |ids| > 0 {
      var pre := ids[..|ids| - 1];
      var x := ids[|ids| - 1];
      UniqueIdsCovers(pre);
      var init := UniqueIds(pre);
      var r := UniqueIds(ids);
      assert r == if HasText(init, ToStr(x)) then init else init + [x];
      forall i | 0 <= i < |ids|
        ensures HasText(r, ToStr(ids[i]))
      {
        if i < |pre| {
          assert ids[i] == pre[i];
          assert HasText(init, ToStr(pre[i]));
          var j :| 0 <= j < |init| && ToStr(init[j]) == ToStr(pre[i]);
          assert r[j] == init[j];
        } else if !HasText(init, ToStr(x)) {
          assert r[|init|] == x;
        }
      }
    }
  }

  /** No two ids array_unique keeps have the same text. */
  lemma {:induction false} UniqueIdsDistinct(ids: seq<Value>)
    ensures forall i, j :: 0 <= i < j < |UniqueIds(ids)| ==> ToStr(UniqueIds(ids)[i]) != ToStr(UniqueIds(ids)[j])
  {
    if |ids| > 0 {
      var pre := ids[..|ids| - 1];
      var x := ids[|ids| - 1];
      UniqueIdsDistinct(pre);
      var init := UniqueIds(pre);
      if !HasText(init, ToStr(x)) {
        var r := init + [x];
        forall i, j | 0 <= i < j < |r| ensures ToStr(r[i]) != ToStr(r[j]) {
          assert r[i] == init[i];
          if j < |init| {
            assert r[j] == init[j];
          } else {
            assert r[j] == x;
          }
        }
      }
    }
  }

  /** array_unique empties nothing but the empty list. */
  lemma UniqueIdsEmpty(ids: seq<Value>)
    ensures |UniqueIds(ids)| == 0 <==> |ids| == 0
  {
    if |ids| > 0 {
      UniqueIdsTexts(ids);
      assert HasText(UniqueIds(ids), ToStr(ids[0]));
    }
  }

  /** The relation name after _get_related_properties($related_field, TRUE) updated it in place. */
  function CountedField(found: Option<Resolved>, rf: string): string {
    if found.Some? then found.value.field else rf
  }

  /** empty($object): nothing passed, or an empty array. */
  predicate EmptyPassed(p: Option<Passed>) {
    p.None? || (p.value.Many? && |p.value.items| == 0)
  }

  /** The passed objects that count toward `field`. */
  function PassedTally(field: string, passed: Option<Passed>): (r: Tally)
    ensures EmptyPassed(passed) ==> r == Tally(0, [])
    ensures |r.ids| == r.count
  {
    if EmptyPassed(passed) then Tally(0, []) else CountPassed(field, passed.value, "")
  }

  /** The stored relations are consulted: this object exists, and a has_one has no passed match yet. */
  predicate LooksUpStored(d: Descriptor, e: Entity, field: string, ids: seq<Value>) {
    !EmptyText(field) && !Empty(Prop(e, "id")) && (!d.hasOne.Has(field) || |ids| == 0)
  }

  /**
   * _count_related, counting the stored relations with count() as written
   * (`asWritten`) or corrected: the passed objects that match, plus, for an
   * existing object and unless a has_one already has its match, the stored
   * relations other than the passed ones, counted back from the related model.
   */
  function CountRelatedBy(env: Env, d: Descriptor, e: Entity, db: Db, rf: string, passed: Option<Passed>, asWritten: bool): (r: Result<nat>)
    ensures r.Success? ==> RelatedProperties(env, d, rf, true).Success?
    ensures r.Success? ==> r.value >= PassedTally(CountedField(RelatedProperties(env, d, rf, true).value, rf), passed).count
  {
    var found :- RelatedProperties(env, d, rf, true);
    var field := CountedField(found, rf);
    CountFound(env, d, e, db, found, field, PassedTally(field, passed), asWritten)
  }

  /** The stored relations other than `ids`, counted back from the related model by count() as written or corrected. */
  function StoredCount(env: Env, obj: Descriptor, db: Db, parent: Option<Parent>, ids: seq<Value>, asWritten: bool): Result<nat> {
    if asWritten then CountAsWritten(env, obj, db, parent, ids, Null) else Count(env, obj, db, parent, ids, Null)
  }

  /** The stored count of the related class `res` names, back to this object `e`. */
  function StoredOf(env: Env, e: Entity, db: Db, res: Resolved, ids: seq<Value>, asWritten: bool): Result<nat> {
    var obj :- Lookup(env, res.spec.cls);
    StoredCount(env, obj, db, Some(Parent(res.spec.otherField, Prop(e, "id"))), ids, asWritten)
  }

  /** _count_related once the relation name has been resolved to `found`, naming `field`, and the passed objects tallied. */
  function CountFound(env: Env, d: Descriptor, e: Entity, db: Db, found: Option<Resolved>, field: string, tally: Tally, asWritten: bool): (r: Result<nat>)
    ensures r.Success? ==> r.value >= tally.count
  {
    var ids := UniqueIds(tally.ids);
    if LooksUpStored(d, e, field, ids) then
      match found
      case None => Failure("Class '' not found")
      case Some(res) => AddStored(tally.count, StoredOf(env, e, db, res, ids, asWritten))
    else Success(tally.count)
  }

  /** The passed objects' count plus the stored count, when the stored count succeeded. */
  function AddStored(count: nat, stored: Result<nat>): (r: Result<nat>)
    ensures r.Success? <==> stored.Success?
    ensures r.Success? ==> r.value == count + stored.value
  {
    var s :- stored;
    Success(count + s)
  }

  /** _count_related as written, on count() as written. */
  function CountRelated(env: Env, d: Descriptor, e: Entity, db: Db, rf: string, passed: Option<Passed>): (r: Result<nat>)
    ensures r.Success? ==> RelatedProperties(env, d, rf, true).Success?
    ensures r.Success? ==> r.value >= PassedTally(CountedField(RelatedProperties(env, d, rf, true).value, rf), passed).count
  {
    CountRelatedBy(env, d, e, db, rf, passed, true)
  }

  /** _count_related on the corrected count(). */
  function CountRelatedCorrected(env: Env, d: Descriptor, e: Entity, db: Db, rf: string, passed: Option<Passed>): (r: Result<nat>)
    ensures r.Success? ==> RelatedProperties(env, d, rf, true).Success?
    ensures r.Success? ==> r.value >= PassedTally(CountedField(RelatedProperties(env, d, rf, true).value, rf), passed).count
  {
    CountRelatedBy(env, d, e, db, rf, passed, false)
  }

  /**
   * The two differ only when passed objects are excluded from the stored
   * count, or where the two key columns differ.
   */
  lemma {:induction false} CountRelatedAgrees(env: Env, d: Descriptor, e: Entity, db: Db, rf: string, passed: Option<Passed>)
    requires RelatedProperties(env, d, rf, true).Success?
    requires var found := RelatedProperties(env, d, rf, true).value;
      var ids := UniqueIds(PassedTally(CountedField(found, rf), passed).ids);
      |ids| == 0
      || (found.Some? && Lookup(env, found.value.spec.cls).Success?
          && SameKeyColumn(env, Lookup(env, found.value.spec.cls).value, Some(Parent(found.value.spec.otherField, Prop(e, "id")))))
    ensures CountRelated(env, d, e, db, rf, passed) == CountRelatedCorrected(env, d, e, db, rf, passed)
  {
    var found := RelatedProperties(env, d, rf, true).value;
    var field := CountedField(found, rf);
    var tally := PassedTally(field, passed);
    var ids := UniqueIds(tally.ids);
    if found.Some? {
      if Lookup(env, found.value.spec.cls).Success? {
        var obj := Lookup(env, found.value.spec.cls).value;
        CountAgrees(env, obj, db, Some(Parent(found.value.spec.otherField, Prop(e, "id"))), ids, Null);
      }
      StoredCountDecides(env, d, e, db, found, field, tally);
    }
    assert CountRelated(env, d, e, db, rf, passed) == CountFound(env, d, e, db, found, field, tally, true);
    assert CountRelatedCorrected(env, d, e, db, rf, passed) == CountFound(env, d, e, db, found, field, tally, false);
  }

  /** Once the relation resolves, _count_related depends on the stored count alone. */
  lemma {:induction false} StoredCountDecides(env: Env, d: Descriptor, e: Entity, db: Db, found: Option<Resolved>, field: string, tally: Tally)
    requires found.Some?
    requires var ids := UniqueIds(tally.ids);
      StoredOf(env, e, db, found.value, ids, true) == StoredOf(env, e, db, found.value, ids, false)
    ensures CountFound(env, d, e, db, found, field, tally, true) == CountFound(env, d, e, db, found, field, tally, false)
  {
    var ids := UniqueIds(tally.ids);
    if LooksUpStored(d, e, field, ids) {
      var stored := StoredOf(env, e, db, found.value, ids, true);
      assert CountFound(env, d, e, db, found, field, tally, true) == AddStored(tally.count, stored);
      assert CountFound(env, d, e, db, found, field, tally, false) == AddStored(tally.count, stored);
    }
  }

  /**
   * A new object, or a has_one that already has a passed match, counts only
   * the passed objects.
   */
  lemma CountRelatedSkipsStore(env: Env, d: Descriptor, e: Entity, db: Db, rf: string, passed: Option<Passed>)
    requires RelatedProperties(env, d, rf, true).Success?
    requires var field := CountedField(RelatedProperties(env, d, rf, true).value, rf);
      Empty(Prop(e, "id")) || (d.hasOne.Has(field) && PassedTally(field, passed).count > 0)
    ensures CountRelated(env, d, e, db, rf, passed) ==
      Success(PassedTally(CountedField(RelatedProperties(env, d, rf, true).value, rf), passed).count)
  {
    var field := CountedField(RelatedProperties(env, d, rf, true).value, rf);
    UniqueIdsEmpty(PassedTally(field, passed).ids);
  }

  /**
   * An existing object counts, for a has_many, the passed objects plus the
   * stored relations other than the passed ones.
   */
  lemma CountRelatedAddsStored(env: Env, d: Descriptor, e: Entity, db: Db, rf: string, passed: Option<Passed>)
    requires RelatedProperties(env, d, rf, true).Success? && RelatedProperties(env, d, rf, true).value.Some?
    requires var res := RelatedProperties(env, d, rf, true).value.value;
      !EmptyText(res.field) && !Empty(Prop(e, "id")) && !d.hasOne.Has(res.field) && Lookup(env, res.spec.cls).Success?
    ensures var res := RelatedProperties(env, d, rf, true).value.value;
      var tally := PassedTally(res.field, passed);
      var stored := CountAsWritten(env, Lookup(env, res.spec.cls).value, db, Some(Parent(res.spec.otherField, Prop(e, "id"))), UniqueIds(tally.ids), Null);
      (CountRelated(env, d, e, db, rf, passed).Success? <==> stored.Success?)
      && (stored.Success? ==> CountRelated(env, d, e, db, rf, passed).value == tally.count + stored.value)
  {
  }
}
