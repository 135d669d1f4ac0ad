/**
 * Links between objects: save() with related objects (in-table foreign keys
 * written on this row first, the rest through _save_relation afterwards),
 * _remove_other_one_to_one, _delete_relation and delete().
 */
module Links {
  import opened Results
  import opened Strings
  import opened PhpValues
  import opened Dicts
  import opened Models
  import opened Context
  import opened Relations
  import opened Store
  import opened Entities
  import opened Counting
  import opened Validation
  import opened Persistence

  /** The outcome of a link operation: this object, the store, and the value returned. */
  datatype Linked = Linked(e: Entity, db: Db, ok: bool)

  /** update(): the `updated` field is stamped as well when declared. */
  function StampUpdate(d: Descriptor, data: Row, timestamp: Value): (r: Row)
    ensures var u := d.settings.updatedField;
      Col(r, u) == (if TextIn(u, d.fields) then timestamp else Col(data, u))
    ensures forall k :: k != d.settings.updatedField ==> Col(r, k) == Col(data, k)
  {
    if TextIn(d.settings.updatedField, d.fields) then data[d.settings.updatedField := timestamp] else data
  }

  /** update() stamps exactly as save() does, except that it never touches `created`. */
  lemma StampUpdateLikeSave(d: Descriptor, data: Row, timestamp: Value, k: string)
    requires k != d.settings.createdField || k == d.settings.updatedField
    ensures Col(StampUpdate(d, data, timestamp), k) == Col(Stamp(d, data, timestamp), k)
  {
  }

  /** The two key columns of a join-table row, as an array literal builds them (a repeated key keeps the last value). */
  function PairRow(selfCol: string, otherCol: string, thisId: Value, objId: Value): (r: Row)
    ensures r.Keys == {selfCol, otherCol} && r[otherCol] == objId
    ensures selfCol != otherCol ==> r[selfCol] == thisId
  {
    map[selfCol := thisId][otherCol := objId]
  }

  /** get_where() / delete() with that array: one equality per key, asking the column for the row's value. */
  function PairConds(selfCol: string, otherCol: string, thisId: Value, objId: Value): (r: seq<Cond>)
    ensures var row := PairRow(selfCol, otherCol, thisId, objId);
      |r| == |row.Keys| && forall k :: 0 <= k < |r| ==> r[k].Eq? && r[k].col in row && r[k].v == row[r[k].col]
    ensures forall j, k :: 0 <= j < k < |r| ==> r[j].col != r[k].col
  {
    if selfCol == otherCol then [Eq(otherCol, objId)] else [Eq(selfCol, thisId), Eq(otherCol, objId)]
  }

  /** A row matches the pair's conditions exactly when both of its keys hold the two ids (only the other key when they share a column). */
  lemma PairSelects(selfCol: string, otherCol: string, thisId: Value, objId: Value, rows: seq<Row>, row: Row)
    requires row in rows
    ensures row in Filter(rows, PairConds(selfCol, otherCol, thisId, objId)) <==>
      Holds(row, Eq(otherCol, objId)) && (selfCol != otherCol ==> Holds(row, Eq(selfCol, thisId)))
  {
    var conds := PairConds(selfCol, otherCol, thisId, objId);
    var i :| 0 <= i < |rows| && rows[i] == row;
    var kept := Filter(rows, conds);
    if row in kept {
      var j :| 0 <= j < |kept| && kept[j] == row;
      assert Matches(kept[j], conds);
    }
    if selfCol != otherCol {
      assert conds == [Eq(selfCol, thisId), Eq(otherCol, objId)];
      assert Matches(row, conds) <==> Holds(row, conds[0]) && Holds(row, conds[1]);
    } else {
      assert conds == [Eq(otherCol, objId)];
      assert Matches(row, conds) <==> Holds(row, conds[0]);
    }
  }

  // ---------------------------------------------------------------------------
  // _remove_other_one_to_one

  /** The conditions of _remove_other_one_to_one: rows pointing at the object, except this one when it exists. */
  function OthersPointing(otherCol: string, objId: Value, e: Entity): (r: seq<Cond>)
    ensures |r| >= 1 && r[0] == Eq(otherCol, objId)
    ensures Exists(e) <==> |r| == 2
    ensures |r| == 2 ==> r[1] == NotEq("id", Prop(e, "id"))
  {
    [Eq(otherCol, objId)] + (if Exists(e) then [NotEq("id", Prop(e, "id"))] else [])
  }

  /**
   * _remove_other_one_to_one($rf, $object), run on `e` (of ctx.d): when the
   * object exists and is the has_one side of the relation back, every other
   * row of this table pointing at it has its key set to NULL.
   */
  function RemoveOtherOneToOne(ctx: Ctx, e: Entity, rf: string, obj: Entity, timestamp: Value): (r: Result<Db>)
    ensures !Exists(obj) ==> r == Success(ctx.db)
  {
    if !Exists(obj) then Success(ctx.db)
    else
      var found :- RelatedProperties(ctx.env, ctx.d, rf, true);
      match found
      case None => Success(ctx.db)
      case Some(res) =>
        var objD :- Lookup(ctx.env, res.spec.cls);
        if !objD.hasOne.Has(res.spec.otherField) then Success(ctx.db)
        else
          var oc := OtherColumn(res.spec);
          Update(ctx.db, ctx.d.table, OthersPointing(oc, Prop(obj, "id"), e), StampUpdate(ctx.d, map[oc := Null], timestamp))
  }

  /** After the reset, no row but this object's own still points at the object. */
  lemma OnlyThisRowPoints(ctx: Ctx, e: Entity, rf: string, obj: Entity, timestamp: Value)
    requires Exists(obj)
    requires RelatedProperties(ctx.env, ctx.d, rf, true).Success? && RelatedProperties(ctx.env, ctx.d, rf, true).value.Some?
    requires var res := RelatedProperties(ctx.env, ctx.d, rf, true).value.value;
      Lookup(ctx.env, res.spec.cls).Success? && Lookup(ctx.env, res.spec.cls).value.hasOne.Has(res.spec.otherField)
      && OtherColumn(res.spec) != ctx.d.settings.updatedField
    requires RemoveOtherOneToOne(ctx, e, rf, obj, timestamp).Success?
    ensures var res := RelatedProperties(ctx.env, ctx.d, rf, true).value.value;
      var oc := OtherColumn(res.spec);
      var rows := RemoveOtherOneToOne(ctx, e, rf, obj, timestamp).value.tables[ctx.d.table].rows;
      forall i :: 0 <= i < |rows| && SqlEq(Col(rows[i], oc), Prop(obj, "id")) ==>
        Exists(e) && !Holds(rows[i], NotEq("id", Prop(e, "id")))
  {
    var res := RelatedProperties(ctx.env, ctx.d, rf, true).value.value;
    var oc := OtherColumn(res.spec);
    var conds := OthersPointing(oc, Prop(obj, "id"), e);
    var data := StampUpdate(ctx.d, map[oc := Null], timestamp);
    assert oc in data && data[oc] == Null;
    var before := ctx.db.tables[ctx.d.table].rows;
    var rows := RemoveOtherOneToOne(ctx, e, rf, obj, timestamp).value.tables[ctx.d.table].rows;
    forall i | 0 <= i < |rows| && SqlEq(Col(rows[i], oc), Prop(obj, "id"))
      ensures Exists(e) && !Holds(rows[i], NotEq("id", Prop(e, "id")))
    {
      if !Matches(before[i], conds) {
        assert rows[i] == before[i];
        assert Holds(before[i], conds[0]);
        assert !Holds(before[i], conds[1]);
      }
    }
  }

  // ---------------------------------------------------------------------------
  // _save_relation

  /** The message for a relation that could not be saved: which side does not exist, or neither reason. */
  function SaveFailureKey(e: Entity, obj: Entity): string {
    if !Exists(obj) then "dm_save_rel_noobj"
    else if !Exists(e) then "dm_save_rel_nothis"
    else "dm_save_rel_failed"
  }

  /** error_message($field, sprintf(lang($key), $field)); a missing language line gives no message. */
  function RelationError(ctx: Ctx, error: ErrorObject, field: string, key: string): ErrorObject {
    match ctx.hooks.lang(key)
    case None => error
    case Some(line) => ErrorMessage(ctx.d.settings, error, field, ctx.hooks.format(line, field, ""))
  }

  /**
   * A relation stored in a join table: nothing if the pair is there; a
   * has_many to a has_one moves the object's existing row (or inserts one); a
   * has_one moves this object's existing row (or inserts one); a has_many to a
   * has_many inserts. Any other pairing saves nothing and returns FALSE.
   */
  function JoinLink(ctx: Ctx, e: Entity, obj: Entity, field: string, spec: RelationSpec, objD: Descriptor, relTable: string): (r: Result<Linked>)
    ensures r.Success? ==> r.value.e == e
  {
    var sc := SelfColumn(spec);
    var oc := OtherColumn(spec);
    var thisId := Prop(e, "id");
    var objId := Prop(obj, "id");
    var data := PairRow(sc, oc, thisId, objId);
    var existing :- Select(ctx.db, relTable, PairConds(sc, oc, thisId, objId));
    if |existing| > 0 then Success(Linked(e, ctx.db, true))
    else if ctx.d.hasMany.Has(field) then
      if objD.hasOne.Has(spec.otherField) then
        var prior :- FirstMatch(ctx.db, relTable, [Eq(oc, objId)]);
        if prior.Some? then
          var db2 :- Update(ctx.db, relTable, [Eq(oc, objId)], data);
          Success(Linked(e, db2, true))
        else
          var ins :- Insert(ctx.db, relTable, data);
          Success(Linked(e, ins.0, true))
      else if objD.hasMany.Has(spec.otherField) then
        var ins :- Insert(ctx.db, relTable, data);
        Success(Linked(e, ins.0, true))
      else Success(Linked(e, ctx.db, false))
    else if ctx.d.hasOne.Has(field) then
      var prior :- FirstMatch(ctx.db, relTable, [Eq(sc, thisId)]);
      if prior.Some? then
        var db2 :- Update(ctx.db, relTable, [Eq(sc, thisId)], data);
        Success(Linked(e, db2, true))
      else
        var ins :- Insert(ctx.db, relTable, data);
        Success(Linked(e, ins.0, true))
    else Success(Linked(e, ctx.db, false))
  }

  /** The relation _save_relation and _delete_relation work on: the related field, or the object's model when none is given. */
  function RelationField(model: string, relatedField: string): string {
    if EmptyText(relatedField) then model else relatedField
  }

  /** The relation resolves (trying its singular) and its class is known. */
  predicate RelationResolves(ctx: Ctx, rf: string) {
    RelatedProperties(ctx.env, ctx.d, rf, true).Success? && RelatedProperties(ctx.env, ctx.d, rf, true).value.Some?
    && Lookup(ctx.env, RelatedProperties(ctx.env, ctx.d, rf, true).value.value.spec.cls).Success?
  }

  function ResolvedSpec(ctx: Ctx, rf: string): RelationSpec
    requires RelationResolves(ctx, rf)
  {
    RelatedProperties(ctx.env, ctx.d, rf, true).value.value.spec
  }

  function RelatedDescriptor(ctx: Ctx, rf: string): Descriptor
    requires RelationResolves(ctx, rf)
  {
    Lookup(ctx.env, ResolvedSpec(ctx, rf).cls).value
  }

  function RelationTable(ctx: Ctx, rf: string): string
    requires RelationResolves(ctx, rf)
  {
    var res := RelatedProperties(ctx.env, ctx.d, rf, true).value.value;
    RelationshipTable(ctx.d, RelatedDescriptor(ctx, rf), res.field, res.spec, ctx.env.infl.plural)
  }

  /**
   * _save_relation($object, $related_field): with both objects existing and the
   * relation known, the key is written where the relationship table says —
   * this row (then this object is saved), the object's row (then it is saved),
   * or the join table. Otherwise an error is recorded and FALSE returned.
   */
  function SaveRelation(ctx: Ctx, e: Entity, model: string, obj: Entity, relatedField: string, timestamp: Value): (r: Result<Linked>)
    ensures r.Success? && r.value.ok ==>
      (Exists(e) && Exists(obj) && RelationResolves(ctx, RelationField(model, relatedField)))
  {
    var rf := RelationField(model, relatedField);
    var found :- RelatedProperties(ctx.env, ctx.d, rf, true);
    var field := CountedField(found, rf);
    if found.Some? && Exists(e) && Exists(obj) then
      var spec := found.value.spec;
      var objD :- Lookup(ctx.env, spec.cls);
      var relTable := RelationshipTable(ctx.d, objD, field, spec, ctx.env.infl.plural);
      if TextEq(relTable, ctx.d.table) && TextIn(OtherColumn(spec), ctx.d.fields) then
        var s :- SavePlain(ctx, WithProps(e, e.item.props[OtherColumn(spec) := Prop(obj, "id")]), timestamp);
        var db2 :- RemoveOtherOneToOne(ctx.(db := s.db), s.e, field, obj, timestamp);
        Success(Linked(s.e, db2, s.ok))
      else if TextEq(relTable, objD.table) then
        var octx := ctx.(d := objD);
        var s :- SavePlain(octx, WithProps(obj, obj.item.props[SelfColumn(spec) := Prop(e, "id")]), timestamp);
        var db2 :- RemoveOtherOneToOne(octx.(db := s.db), s.e, spec.otherField, e, timestamp);
        Success(Linked(e, db2, s.ok))
      else JoinLink(ctx, e, obj, field, spec, objD, relTable)
    else
      Success(Linked(e.(error := RelationError(ctx, e.error, field, SaveFailureKey(e, obj))), ctx.db, false))
  }

  /** A relation to an object that does not exist, or from one, writes nothing and returns FALSE. */
  lemma SaveRelationNeedsBoth(ctx: Ctx, e: Entity, model: string, obj: Entity, relatedField: string, timestamp: Value)
    requires !Exists(e) || !Exists(obj)
    requires RelatedProperties(ctx.env, ctx.d, RelationField(model, relatedField), true).Success?
    ensures var r := SaveRelation(ctx, e, model, obj, relatedField, timestamp);
      var rf := RelationField(model, relatedField);
      r.Success? && r.value.db == ctx.db && !r.value.ok
      && r.value.e.error == RelationError(ctx, e.error, CountedField(RelatedProperties(ctx.env, ctx.d, rf, true).value, rf),
           if !Exists(obj) then "dm_save_rel_noobj" else "dm_save_rel_nothis")
  {
  }

  /** A pair already in the join table is reported saved without a write. */
  lemma ExistingPairNoWrite(ctx: Ctx, e: Entity, obj: Entity, field: string, spec: RelationSpec, objD: Descriptor, relTable: string)
    requires relTable in ctx.db.tables
    requires var conds := PairConds(SelfColumn(spec), OtherColumn(spec), Prop(e, "id"), Prop(obj, "id"));
      CondsFit(ctx.db.tables[relTable], conds) && |Filter(ctx.db.tables[relTable].rows, conds)| > 0
    ensures JoinLink(ctx, e, obj, field, spec, objD, relTable) == Success(Linked(e, ctx.db, true))
  {
  }

  /**
   * has_many to has_one through a join table: when the object already has a
   * row, that row is re-pointed at this object rather than a second one added.
   */
  lemma ManyToOneMovesRow(ctx: Ctx, e: Entity, obj: Entity, field: string, spec: RelationSpec, objD: Descriptor, relTable: string)
    requires ctx.d.hasMany.Has(field) && objD.hasOne.Has(spec.otherField)
    requires relTable in ctx.db.tables
    requires var t := ctx.db.tables[relTable];
      var conds := PairConds(SelfColumn(spec), OtherColumn(spec), Prop(e, "id"), Prop(obj, "id"));
      CondsFit(t, conds) && |Filter(t.rows, conds)| == 0
      && |Filter(t.rows, [Eq(OtherColumn(spec), Prop(obj, "id"))])| > 0
    requires JoinLink(ctx, e, obj, field, spec, objD, relTable).Success?
    ensures var r := JoinLink(ctx, e, obj, field, spec, objD, relTable).value;
      r.ok && r.db.log == ctx.db.log + [Updated(relTable, [Eq(OtherColumn(spec), Prop(obj, "id"))],
                                                PairRow(SelfColumn(spec), OtherColumn(spec), Prop(e, "id"), Prop(obj, "id")))]
  {
    var oc := OtherColumn(spec);
    assert CondsFit(ctx.db.tables[relTable], [Eq(oc, Prop(obj, "id"))]) by {
      var conds := PairConds(SelfColumn(spec), oc, Prop(e, "id"), Prop(obj, "id"));
      assert CondCol(conds[|conds| - 1]) == oc;
    }
  }

  // ---------------------------------------------------------------------------
  // save() with related objects

  /** What _save_itfk leaves: this object's properties, the store, and the objects still to relate. */
  datatype Itfk = Itfk(props: Row, db: Db, kept: seq<PassedItem>)

  /** The relation an array element is saved under: its string key, else the enclosing one. */
  function ItemField(item: PassedItem, rf: string): string {
    if item.key.Some? then item.key.value else rf
  }

  /** The column a has_one keeps on this row: join_other_as + "_id" of the relation found, if any. */
  function ItfkColumn(found: Option<Resolved>): string {
    if found.Some? then OtherColumn(found.value.spec) else "_id"
  }

  /** Whether the relation `name` is a has_one whose key is a field of this row. */
  predicate KeyOnThisRow(d: Descriptor, name: string, found: Option<Resolved>) {
    d.hasOne.Has(name) && TextIn(ItfkColumn(found), d.fields)
  }

  /** The relation a passed object is saved under: its key or the enclosing one, else its model. */
  function ItemRelation(item: PassedItem, rf: string): string
    requires item.value.One?
  {
    var f := ItemField(item, rf);
    if EmptyText(f) then item.value.model else f
  }

  /** A passed object that _save_itfk always leaves in the list: its relation resolves and does not keep its key on this row. */
  predicate StaysInList(ctx: Ctx, item: PassedItem, rf: string) {
    item.value.One?
    && var found := RelatedProperties(ctx.env, ctx.d, ItemRelation(item, rf), false);
       found.Success? && !KeyOnThisRow(ctx.d, ItemRelation(item, rf), found.value)
  }

  /**
   * _save_itfk over the elements of `p` from `i` on: an object related by a
   * has_one whose key is on this row gets that key written here (when it
   * differs) and leaves the list; a nested array that empties leaves it too.
   */
  function SaveItfk(ctx: Ctx, e: Entity, p: Passed, rf: string, i: nat, acc: Itfk, timestamp: Value): (r: Result<Itfk>)
    requires p.Many? && i <= |p.items|
    ensures r.Success? ==> |r.value.kept| <= |acc.kept| + |p.items| - i
    decreases p, 0, |p.items| - i
  {
    if i == |p.items| then Success(acc)
    else
      var next :- ItfkStep(ctx, e, p.items[i], rf, acc, timestamp);
      SaveItfk(ctx, e, p, rf, i + 1, next, timestamp)
  }

  /**
   * One element of _save_itfk: an array is processed as its own list and stays
   * only if something in it does; an object stays unless it moves into this row.
   */
  function ItfkStep(ctx: Ctx, e: Entity, item: PassedItem, rf: string, acc: Itfk, timestamp: Value): (r: Result<Itfk>)
    ensures r.Success? ==> r.value.kept == acc.kept || r.value.kept == acc.kept + [item]
    ensures r.Success? && StaysInList(ctx, item, rf) ==> r.value.kept == acc.kept + [item]
    decreases item.value, 1
  {
    var f := ItemField(item, rf);
    match item.value
    case Many(_) =>
      var inner :- SaveItfk(ctx, e, item.value, f, 0, Itfk(acc.props, acc.db, []), timestamp);
      var kept := if |inner.kept| == 0 then acc.kept else acc.kept + [item];
      Success(Itfk(inner.props, inner.db, kept))
    case One(model, o) =>
      var name := ItemRelation(item, rf);
      var found :- RelatedProperties(ctx.env, ctx.d, name, false);
      var oc := ItfkColumn(found);
      if KeyOnThisRow(ctx.d, name, found) && !LooseEq(Col(acc.props, oc), Prop(o, "id")) then
        var props := acc.props[oc := Prop(o, "id")];
        var db2 :- RemoveOtherOneToOne(ctx.(db := acc.db), WithProps(e, props), name, o, timestamp);
        Success(Itfk(props, db2, acc.kept))
      else Success(Itfk(acc.props, acc.db, acc.kept + [item]))
  }

  /**
   * What _save_itfk leaves in the list: the objects already there, then only
   * elements of the input, in order; and every object whose relation does not
   * keep its key on this row among them.
   */
  lemma {:induction false} ItfkKeeps(ctx: Ctx, e: Entity, p: Passed, rf: string, i: nat, acc: Itfk, timestamp: Value)
    requires p.Many? && i <= |p.items|
    requires SaveItfk(ctx, e, p, rf, i, acc, timestamp).Success?
    ensures var r := SaveItfk(ctx, e, p, rf, i, acc, timestamp).value;
      |acc.kept| <= |r.kept| && r.kept[..|acc.kept|] == acc.kept
      && (forall k :: |acc.kept| <= k < |r.kept| ==> r.kept[k] in p.items[i..])
      && (forall j :: i <= j < |p.items| && StaysInList(ctx, p.items[j], rf) ==> p.items[j] in r.kept)
    decreases |p.items| - i
  {
    if i < |p.items| {
      var item := p.items[i];
      var r := SaveItfk(ctx, e, p, rf, i, acc, timestamp).value;
      var next := ItfkStep(ctx, e, item, rf, acc, timestamp).value;
      ItfkKeeps(ctx, e, p, rf, i + 1, next, timestamp);
      assert next.kept[..|acc.kept|] == acc.kept;
      assert r.kept[..|acc.kept|] == r.kept[..|next.kept|][..|acc.kept|];
      forall k | |acc.kept| <= k < |r.kept|
        ensures r.kept[k] in p.items[i..]
      {
        if k < |next.kept| {
          assert r.kept[k] == next.kept[k] == item;
        } else {
          assert r.kept[k] in p.items[i + 1..];
        }
      }
      assert StaysInList(ctx, item, rf) ==> item == next.kept[|acc.kept|] == r.kept[|acc.kept|];
    }
  }

  /** _save_related_recursive: every object is related, each under its key or the enclosing relation; TRUE iff all succeed. */
  function SaveRelated(ctx: Ctx, e: Entity, p: Passed, rf: string, timestamp: Value): (r: Result<Linked>)
    ensures p.One? && r.Success? && r.value.ok ==> Exists(e) && Exists(p.obj)
    ensures p == Many([]) ==> r == Success(Linked(e, ctx.db, true))
    decreases p, 1, 0
  {
    match p
    case One(model, o) => SaveRelation(ctx, e, model, o, rf, timestamp)
    case Many(_) => SaveRelatedFrom(ctx, e, p, rf, 0, timestamp)
  }

  function SaveRelatedFrom(ctx: Ctx, e: Entity, p: Passed, rf: string, i: nat, timestamp: Value): (r: Result<Linked>)
    requires p.Many? && i <= |p.items|
    decreases p, 0, |p.items| - i
  {
    if i == |p.items| then Success(Linked(e, ctx.db, true))
    else
      var item := p.items[i];
      var here :- SaveRelated(ctx, e, item.value, ItemField(item, rf), timestamp);
      var rest :- SaveRelatedFrom(ctx.(db := here.db), here.e, p, rf, i + 1, timestamp);
      Success(Linked(rest.e, rest.db, here.ok && rest.ok))
  }

  /** A passed object is wrapped into an array; an empty array passes nothing. */
  function AsArray(passed: Option<Passed>): (r: Passed)
    ensures r.Many?
  {
    match passed
    case None => Many([])
    case Some(Many(items)) => Many(items)
    case Some(One(m, o)) => Many([PassedItem(None, One(m, o))])
  }

  /**
   * save($object, $related_field), as written: the relations are saved after
   * the row, but what save() returns reflects the row write alone.
   */
  function Save(ctx: Ctx, e: Entity, passed: Option<Passed>, relatedField: string, timestamp: Value): (r: Result<Linked>)
    ensures r.Success? ==> !r.value.e.forceNew
  {
    var v :- Validate(ctx, e, passed, relatedField);
    if !v.valid then Success(Linked(v.(forceNew := false), ctx.db, false))
    else
      var objs := AsArray(passed);
      var it :- SaveItfk(ctx, v, objs, relatedField, 0, Itfk(Stamp(ctx.d, v.item.props, timestamp), ctx.db, []), timestamp);
      var s :- Persist(ctx.d, it.db, v, it.props);
      if |it.kept| == 0 then Success(Linked(s.e, s.db, s.ok))
      else
        var l :- SaveRelated(ctx.(db := s.db), s.e, Many(it.kept), relatedField, timestamp);
        Success(Linked(l.e.(forceNew := false), l.db, s.ok))
  }

  /** save() with the relations' outcome included: TRUE only when the row and every relation were saved. */
  function SaveReporting(ctx: Ctx, e: Entity, passed: Option<Passed>, relatedField: string, timestamp: Value): (r: Result<Linked>)
    ensures r.Success? ==> !r.value.e.forceNew
  {
    var v :- Validate(ctx, e, passed, relatedField);
    if !v.valid then Success(Linked(v.(forceNew := false), ctx.db, false))
    else
      var objs := AsArray(passed);
      var it :- SaveItfk(ctx, v, objs, relatedField, 0, Itfk(Stamp(ctx.d, v.item.props, timestamp), ctx.db, []), timestamp);
      var s :- Persist(ctx.d, it.db, v, it.props);
      if |it.kept| == 0 then Success(Linked(s.e, s.db, s.ok))
      else
        var l :- SaveRelated(ctx.(db := s.db), s.e, Many(it.kept), relatedField, timestamp);
        Success(Linked(l.e.(forceNew := false), l.db, s.ok && l.ok))
  }

  /** As written, a relation that could not be saved still lets save() return TRUE. */
  lemma SaveHidesRelationFailure(ctx: Ctx, e: Entity, passed: Option<Passed>, relatedField: string, timestamp: Value)
    requires Save(ctx, e, passed, relatedField, timestamp).Success?
    requires var v := Validate(ctx, e, passed, relatedField).value;
      v.valid && |ctx.d.fields| > 0
      && var it := SaveItfk(ctx, v, AsArray(passed), relatedField, 0, Itfk(Stamp(ctx.d, v.item.props, timestamp), ctx.db, []), timestamp).value;
         var s := Persist(ctx.d, it.db, v, it.props).value;
         |it.kept| > 0 && !SaveRelated(ctx.(db := s.db), s.e, Many(it.kept), relatedField, timestamp).value.ok
    ensures Save(ctx, e, passed, relatedField, timestamp).value.ok
    ensures !SaveReporting(ctx, e, passed, relatedField, timestamp).value.ok
  {
  }

  /** With the outcome included, save() returns TRUE exactly when the row was written and every relation saved. */
  lemma SaveReportsRelations(ctx: Ctx, e: Entity, passed: Option<Passed>, relatedField: string, timestamp: Value)
    requires SaveReporting(ctx, e, passed, relatedField, timestamp).Success?
    requires var v := Validate(ctx, e, passed, relatedField).value;
      v.valid
      && var it := SaveItfk(ctx, v, AsArray(passed), relatedField, 0, Itfk(Stamp(ctx.d, v.item.props, timestamp), ctx.db, []), timestamp).value;
         |it.kept| > 0
    ensures var v := Validate(ctx, e, passed, relatedField).value;
      var it := SaveItfk(ctx, v, AsArray(passed), relatedField, 0, Itfk(Stamp(ctx.d, v.item.props, timestamp), ctx.db, []), timestamp).value;
      var s := Persist(ctx.d, it.db, v, it.props).value;
      SaveReporting(ctx, e, passed, relatedField, timestamp).value.ok <==>
        s.ok && SaveRelated(ctx.(db := s.db), s.e, Many(it.kept), relatedField, timestamp).value.ok
  {
  }

  /** The outcome of relating the elements from `i` up to `j`, each from the state the previous ones left. */
  function SavedUpTo(ctx: Ctx, e: Entity, p: Passed, rf: string, i: nat, j: nat, timestamp: Value): (r: Result<Linked>)
    requires p.Many? && i <= j <= |p.items|
    decreases j - i
  {
    if i == j then Success(Linked(e, ctx.db, true))
    else
      var item := p.items[i];
      var here :- SaveRelated(ctx, e, item.value, ItemField(item, rf), timestamp);
      var rest :- SavedUpTo(ctx.(db := here.db), here.e, p, rf, i + 1, j, timestamp);
      Success(Linked(rest.e, rest.db, here.ok && rest.ok))
  }

  /**
   * Relating a list returns TRUE only if every element was related: each
   * element, relating from the state the elements before it left, reports TRUE.
   */
  lemma {:induction false} SaveRelatedAllOrNothing(ctx: Ctx, e: Entity, p: Passed, rf: string, i: nat, timestamp: Value)
    requires p.Many? && i <= |p.items|
    requires SaveRelatedFrom(ctx, e, p, rf, i, timestamp).Success? && SaveRelatedFrom(ctx, e, p, rf, i, timestamp).value.ok
    ensures forall j :: i <= j < |p.items| ==>
      SavedUpTo(ctx, e, p, rf, i, j, timestamp).Success?
      && var before := SavedUpTo(ctx, e, p, rf, i, j, timestamp).value;
         var here := SaveRelated(ctx.(db := before.db), before.e, p.items[j].value, ItemField(p.items[j], rf), timestamp);
         here.Success? && here.value.ok
    decreases |p.items| - i
  {
    if i < |p.items| {
      var item := p.items[i];
      var here := SaveRelated(ctx, e, item.value, ItemField(item, rf), timestamp).value;
      SaveRelatedAllOrNothing(ctx.(db := here.db), here.e, p, rf, i + 1, timestamp);
      assert ctx.(db := ctx.db) == ctx;
      forall j | i < j < |p.items|
        ensures SavedUpTo(ctx, e, p, rf, i, j, timestamp).Success?
        ensures var before := SavedUpTo(ctx, e, p, rf, i, j, timestamp).value;
          var here := SaveRelated(ctx.(db := before.db), before.e, p.items[j].value, ItemField(p.items[j], rf), timestamp);
          here.Success? && here.value.ok
      {
        var rest := SavedUpTo(ctx.(db := here.db), here.e, p, rf, i + 1, j, timestamp).value;
        assert SavedUpTo(ctx, e, p, rf, i, j, timestamp).value == Linked(rest.e, rest.db, here.ok && rest.ok);
      }
    }
  }

  /**
   * An object whose has_one keeps its key on this row: one already stored
   * there keeps its place in the list; a different one has its id written into
   * the row, the other rows pointing at it reset, and leaves the list.
   */
  lemma ItfkTakesKey(ctx: Ctx, e: Entity, model: string, o: Entity, rf: string, acc: Itfk, timestamp: Value)
    requires var name := ItemRelation(PassedItem(None, One(model, o)), rf);
      RelatedProperties(ctx.env, ctx.d, name, false).Success?
      && KeyOnThisRow(ctx.d, name, RelatedProperties(ctx.env, ctx.d, name, false).value)
    ensures var item := PassedItem(None, One(model, o));
      var name := ItemRelation(item, rf);
      var oc := ItfkColumn(RelatedProperties(ctx.env, ctx.d, name, false).value);
      var r := SaveItfk(ctx, e, Many([item]), rf, 0, acc, timestamp);
      LooseEq(Col(acc.props, oc), Prop(o, "id")) ==> r == Success(Itfk(acc.props, acc.db, acc.kept + [item]))
    ensures var item := PassedItem(None, One(model, o));
      var name := ItemRelation(item, rf);
      var oc := ItfkColumn(RelatedProperties(ctx.env, ctx.d, name, false).value);
      var props := acc.props[oc := Prop(o, "id")];
      var moved := RemoveOtherOneToOne(ctx.(db := acc.db), WithProps(e, props), name, o, timestamp);
      var r := SaveItfk(ctx, e, Many([item]), rf, 0, acc, timestamp);
      !LooseEq(Col(acc.props, oc), Prop(o, "id")) ==>
        (r.Success? <==> moved.Success?) && (r.Success? ==> r.value == Itfk(props, moved.value, acc.kept))
  {
    var item := PassedItem(None, One(model, o));
    assert SaveItfk(ctx, e, Many([item]), rf, 0, acc, timestamp) ==
      (var next :- ItfkStep(ctx, e, item, rf, acc, timestamp); SaveItfk(ctx, e, Many([item]), rf, 1, next, timestamp));
  }

  // ---------------------------------------------------------------------------
  // _delete_relation and delete()

  /**
   * _delete_relation($object, $related_field): with both ids non-empty and the
   * relation known, the key is cleared where it is stored (saving the row that
   * holds it) or the join row deleted; TRUE then, FALSE otherwise.
   */
  function DeleteRelation(ctx: Ctx, e: Entity, model: string, obj: Entity, relatedField: string, timestamp: Value): (r: Result<Linked>)
    ensures r.Success? && (Empty(Prop(e, "id")) || Empty(Prop(obj, "id"))) ==> r.value == Linked(e, ctx.db, false)
  {
    var rf := RelationField(model, relatedField);
    var found :- RelatedProperties(ctx.env, ctx.d, rf, true);
    var field := CountedField(found, rf);
    if found.Some? && !Empty(Prop(e, "id")) && !Empty(Prop(obj, "id")) then
      var spec := found.value.spec;
      var objD :- Lookup(ctx.env, spec.cls);
      var relTable := RelationshipTable(ctx.d, objD, field, spec, ctx.env.infl.plural);
      if TextEq(relTable, ctx.d.table) && TextIn(OtherColumn(spec), ctx.d.fields) then
        var s :- SavePlain(ctx, WithProps(e, e.item.props[OtherColumn(spec) := Null]), timestamp);
        Success(Linked(s.e, s.db, true))
      else if TextEq(relTable, objD.table) then
        var s :- SavePlain(ctx.(d := objD), WithProps(obj, obj.item.props[SelfColumn(spec) := Null]), timestamp);
        Success(Linked(e, s.db, true))
      else
        var db2 :- Delete(ctx.db, relTable, PairConds(SelfColumn(spec), OtherColumn(spec), Prop(e, "id"), Prop(obj, "id")));
        Success(Linked(e, db2, true))
    else Success(Linked(e, ctx.db, false))
  }

  /** A join-table relation is removed by deleting exactly its pair row; afterwards no such row is left. */
  lemma DeleteRelationRemovesPair(ctx: Ctx, e: Entity, model: string, obj: Entity, relatedField: string, timestamp: Value)
    requires !Empty(Prop(e, "id")) && !Empty(Prop(obj, "id"))
    requires RelationResolves(ctx, RelationField(model, relatedField))
    requires var rf := RelationField(model, relatedField);
      !(TextEq(RelationTable(ctx, rf), ctx.d.table) && TextIn(OtherColumn(ResolvedSpec(ctx, rf)), ctx.d.fields))
      && !TextEq(RelationTable(ctx, rf), RelatedDescriptor(ctx, rf).table)
    requires DeleteRelation(ctx, e, model, obj, relatedField, timestamp).Success?
    ensures var rf := RelationField(model, relatedField);
      var spec := ResolvedSpec(ctx, rf);
      var conds := PairConds(SelfColumn(spec), OtherColumn(spec), Prop(e, "id"), Prop(obj, "id"));
      var r := DeleteRelation(ctx, e, model, obj, relatedField, timestamp).value;
      r.ok && r.db == Delete(ctx.db, RelationTable(ctx, rf), conds).value
      && CountWhere(r.db, RelationTable(ctx, rf), conds) == Success(0)
  {
    var rf := RelationField(model, relatedField);
    var spec := ResolvedSpec(ctx, rf);
    var conds := PairConds(SelfColumn(spec), OtherColumn(spec), Prop(e, "id"), Prop(obj, "id"));
    DeleteLeavesNoMatch(ctx.db, RelationTable(ctx, rf), conds);
  }

  /**
   * The key is on this object's row: that column is set to NULL and this
   * object saved; the result is TRUE whatever the save reported, and a save
   * that is refused writes nothing.
   */
  lemma DeleteRelationClearsOwnKey(ctx: Ctx, e: Entity, model: string, obj: Entity, relatedField: string, timestamp: Value)
    requires !Empty(Prop(e, "id")) && !Empty(Prop(obj, "id"))
    requires RelationResolves(ctx, RelationField(model, relatedField))
    requires var rf := RelationField(model, relatedField);
      TextEq(RelationTable(ctx, rf), ctx.d.table) && TextIn(OtherColumn(ResolvedSpec(ctx, rf)), ctx.d.fields)
    ensures var oc := OtherColumn(ResolvedSpec(ctx, RelationField(model, relatedField)));
      var cleared := WithProps(e, e.item.props[oc := Null]);
      var s := SavePlain(ctx, cleared, timestamp);
      var r := DeleteRelation(ctx, e, model, obj, relatedField, timestamp);
      Col(cleared.item.props, oc) == Null
      && (r.Success? <==> s.Success?)
      && (r.Success? ==> r.value.ok && r.value.e == s.value.e && r.value.db == s.value.db)
      && (r.Success? && !s.value.ok ==> r.value.db == ctx.db)
  {
    var oc := OtherColumn(ResolvedSpec(ctx, RelationField(model, relatedField)));
    var cleared := WithProps(e, e.item.props[oc := Null]);
    assert DeleteRelation(ctx, e, model, obj, relatedField, timestamp)
      == (var s :- SavePlain(ctx, cleared, timestamp); Success(Linked(s.e, s.db, true)));
  }

  /**
   * The key is on the object's row: the object's column is set to NULL and the
   * object saved; this object is unchanged, and the result is TRUE whatever the
   * save reported.
   */
  lemma DeleteRelationClearsOtherKey(ctx: Ctx, e: Entity, model: string, obj: Entity, relatedField: string, timestamp: Value)
    requires !Empty(Prop(e, "id")) && !Empty(Prop(obj, "id"))
    requires RelationResolves(ctx, RelationField(model, relatedField))
    requires var rf := RelationField(model, relatedField);
      !(TextEq(RelationTable(ctx, rf), ctx.d.table) && TextIn(OtherColumn(ResolvedSpec(ctx, rf)), ctx.d.fields))
      && TextEq(RelationTable(ctx, rf), RelatedDescriptor(ctx, rf).table)
    ensures var rf := RelationField(model, relatedField);
      var sc := SelfColumn(ResolvedSpec(ctx, rf));
      var cleared := WithProps(obj, obj.item.props[sc := Null]);
      var s := SavePlain(ctx.(d := RelatedDescriptor(ctx, rf)), cleared, timestamp);
      var r := DeleteRelation(ctx, e, model, obj, relatedField, timestamp);
      Col(cleared.item.props, sc) == Null
      && (r.Success? <==> s.Success?)
      && (r.Success? ==> r.value.ok && r.value.e == e && r.value.db == s.value.db)
      && (r.Success? && !s.value.ok ==> r.value.db == ctx.db)
  {
    var rf := RelationField(model, relatedField);
    var cleared := WithProps(obj, obj.item.props[SelfColumn(ResolvedSpec(ctx, rf)) := Null]);
    assert DeleteRelation(ctx, e, model, obj, relatedField, timestamp)
      == (var s :- SavePlain(ctx.(d := RelatedDescriptor(ctx, rf)), cleared, timestamp); Success(Linked(e, s.db, true)));
  }

  /**
   * What delete() does to one relation of a deleted object: a key on the
   * other table pointing here is set to NULL; a join table loses this object's
   * rows; a key on this table needs nothing.
   */
  function UnlinkOne(env: Env, d: Descriptor, db: Db, id: Value, rf: string, spec: RelationSpec): (r: Result<Db>)
    ensures Lookup(env, spec.cls).Failure? ==> r.Failure?
    ensures r.Success? ==> r.value.tables.Keys == db.tables.Keys
    ensures r.Success? ==> |db.log| <= |r.value.log| <= |db.log| + 1 && r.value.log[..|db.log|] == db.log
    ensures r.Success? && |r.value.log| > |db.log| ==>
      var sc := SelfColumn(spec);
      r.value.log[|db.log|] == Updated(Lookup(env, spec.cls).value.table, [Eq(sc, id)], map[sc := Null])
      || r.value.log[|db.log|] == Deleted(RelationshipTable(d, Lookup(env, spec.cls).value, rf, spec, env.infl.plural), [Eq(sc, id)])
  {
    var obj :- Lookup(env, spec.cls);
    var relTable := RelationshipTable(d, obj, rf, spec, env.infl.plural);
    var sc := SelfColumn(spec);
    if TextEq(relTable, obj.table) && !(TextEq(obj.table, d.table) && TextIn(OtherColumn(spec), d.fields)) then
      Update(db, obj.table, [Eq(sc, id)], map[sc := Null])
    else if !TextEq(relTable, d.table) then Delete(db, relTable, [Eq(sc, id)])
    else Success(db)
  }

  /** The relations of one kind, in declaration order, from `i` on. */
  function UnlinkAll(env: Env, d: Descriptor, db: Db, id: Value, rels: Dict<string, RelationSpec>, i: nat): (r: Result<Db>)
    requires i <= |rels.keys|
    ensures r.Success? ==> r.value.tables.Keys == db.tables.Keys
    decreases |rels.keys| - i
  {
    if i == |rels.keys| then Success(db)
    else
      match rels.Get(rels.keys[i])
      case None => UnlinkAll(env, d, db, id, rels, i + 1)
      case Some(spec) =>
        var db2 :- UnlinkOne(env, d, db, id, rels.keys[i], spec);
        UnlinkAll(env, d, db2, id, rels, i + 1)
  }

  /**
   * delete() on a list of objects: every element's relation is deleted, each
   * from the state the previous ones left; TRUE iff none failed, so TRUE only
   * when every element can be deleted.
   */
  function DeleteEach(ctx: Ctx, e: Entity, p: Passed, rf: string, nested: bool, i: nat, timestamp: Value): (r: Result<Linked>)
    requires p.Many? && i <= |p.items|
    ensures r.Success? && r.value.ok ==> forall j :: i <= j < |p.items| ==> CanDelete(p.items[j], nested)
    decreases p, 0, |p.items| - i
  {
    if i == |p.items| then Success(Linked(e, ctx.db, true))
    else
      var here :- DeleteItem(ctx, e, p.items[i], rf, nested, timestamp);
      var rest :- DeleteEach(ctx.(db := here.db), here.e, p, rf, nested, i + 1, timestamp);
      assert here.ok && rest.ok ==> forall j :: i <= j < |p.items| ==> CanDelete(p.items[j], nested) by {
        if here.ok && rest.ok {
          assert CanDelete(p.items[i], nested);
        }
      }
      Success(Linked(rest.e, rest.db, here.ok && rest.ok))
  }

  /** An element that can be deleted at all: an object with an id, or an array only one level down. */
  predicate CanDelete(item: PassedItem, nested: bool) {
    match item.value
    case One(_, o) => !Empty(Prop(o, "id"))
    case Many(_) => !nested
  }

  /** One element of that list, named by its string key or the enclosing name. */
  function DeleteItem(ctx: Ctx, e: Entity, item: PassedItem, rf: string, nested: bool, timestamp: Value): (r: Result<Linked>)
    ensures r.Success? && r.value.ok ==> CanDelete(item, nested)
    decreases item.value, 1
  {
    var f := ItemField(item, rf);
    match item.value
    case One(m, o) => DeleteRelation(ctx, e, m, o, f, timestamp)
    // an array two levels down is not an object: _delete_relation still
    // resolves the relation name, then finds no id and returns FALSE
    case Many(_) =>
      if nested then
        var found :- RelatedProperties(ctx.env, ctx.d, f, true);
        Success(Linked(e, ctx.db, false))
      else DeleteEach(ctx, e, item.value, f, true, 0, timestamp)
  }

  /**
   * delete($object, $related_field): with no object, this object's row and
   * every link to it are removed and the object cleared (FALSE if it has no
   * id); with objects, only the relations to them are deleted.
   */
  function DeleteObject(ctx: Ctx, e: Entity, passed: Option<Passed>, relatedField: string, timestamp: Value): (r: Result<Linked>)
    ensures passed.None? && Empty(Prop(e, "id")) ==> r == Success(Linked(e, ctx.db, false))
  {
    match passed
    case None =>
      var id := Prop(e, "id");
      if Empty(id) then Success(Linked(e, ctx.db, false))
      else
        var db1 :- Delete(ctx.db, ctx.d.table, [Eq("id", id)]);
        var db2 :- UnlinkAll(ctx.env, ctx.d, db1, id, ctx.d.hasMany, 0);
        var db3 :- UnlinkAll(ctx.env, ctx.d, db2, id, ctx.d.hasOne, 0);
        Success(Linked(Clear(ctx.d, e), db3, true))
    case Some(Many(items)) => DeleteEach(ctx, e, Many(items), relatedField, false, 0, timestamp)
    case Some(One(m, o)) =>
      var l :- DeleteRelation(ctx, e, m, o, relatedField, timestamp);
      Success(Linked(l.e, l.db, l.ok))
  }

  /** Deleting an object removes its own row first, and leaves it cleared and no longer existing. */
  lemma DeleteRemovesRow(ctx: Ctx, e: Entity, timestamp: Value)
    requires !Empty(Prop(e, "id"))
    requires "id" in ctx.d.fields && "id" !in ctx.d.tracking.matches.keys
    requires DeleteObject(ctx, e, None, "", timestamp).Success?
    ensures var r := DeleteObject(ctx, e, None, "", timestamp).value;
      r.ok && !Exists(r.e) && |r.db.log| > |ctx.db.log|
      && r.db.log[|ctx.db.log|] == Deleted(ctx.d.table, [Eq("id", Prop(e, "id"))])
  {
    ClearedDoesNotExist(ctx.d, e);
    var db1 := Delete(ctx.db, ctx.d.table, [Eq("id", Prop(e, "id"))]).value;
    var db2 := UnlinkAll(ctx.env, ctx.d, db1, Prop(e, "id"), ctx.d.hasMany, 0).value;
    UnlinkAllAppends(ctx.env, ctx.d, db1, Prop(e, "id"), ctx.d.hasMany, 0);
    UnlinkAllAppends(ctx.env, ctx.d, db2, Prop(e, "id"), ctx.d.hasOne, 0);
  }

  /** Unlinking only appends to the write log. */
  lemma {:induction false} UnlinkAllAppends(env: Env, d: Descriptor, db: Db, id: Value, rels: Dict<string, RelationSpec>, i: nat)
    requires i <= |rels.keys|
    requires UnlinkAll(env, d, db, id, rels, i).Success?
    ensures var r := UnlinkAll(env, d, db, id, rels, i).value;
      |r.log| >= |db.log| && r.log[..|db.log|] == db.log
    decreases |rels.keys| - i
  {
    if i < |rels.keys| {
      match rels.Get(rels.keys[i])
      case None =>
        UnlinkAllAppends(env, d, db, id, rels, i + 1);
      case Some(spec) =>
        var db2 := UnlinkOne(env, d, db, id, rels.keys[i], spec).value;
        UnlinkAllAppends(env, d, db2, id, rels, i + 1);
        var r := UnlinkAll(env, d, db2, id, rels, i + 1).value;
        assert |db2.log| >= |db.log| && db2.log[..|db.log|] == db.log;
        assert r.log[..|db.log|] == r.log[..|db2.log|][..|db.log|];
    }
  }

  /** delete() on an empty array deletes nothing and reports success. */
  lemma DeleteEmptyListSucceeds(ctx: Ctx, e: Entity, relatedField: string, timestamp: Value)
    ensures DeleteObject(ctx, e, Some(Many([])), relatedField, timestamp) == Success(Linked(e, ctx.db, true))
  {
  }
}
