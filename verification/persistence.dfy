/**
 * Saving one object's own row: validation first, then the timestamps, then
 * either an UPDATE of the changed columns or an INSERT of the set ones, and
 * finally the stored snapshot is refreshed. Saving relations to other objects
 * is in the Links module.
 */
module Persistence {
  import opened Results
  import opened PhpValues
  import opened Dicts
  import opened Models
  import opened Store
  import opened Entities
  import opened Validation

  /** What a save leaves: the object, the store, and the value save() returns. */
  datatype Saved = Saved(e: Entity, db: Db, ok: bool)

  // ---------------------------------------------------------------------------
  // Timestamps

  /** `created` is stamped only when declared and still empty; `updated` whenever declared. */
  function Stamp(d: Descriptor, props: Row, timestamp: Value): (r: Row)
    ensures var c := d.settings.createdField; var u := d.settings.updatedField;
      Col(r, u) == (if TextIn(u, d.fields) then timestamp else Col(props, u))
      && (c != u ==> Col(r, c) == (if TextIn(c, d.fields) && Empty(Col(props, c)) then timestamp else Col(props, c)))
    ensures forall k :: k != d.settings.createdField && k != d.settings.updatedField ==> Col(r, k) == Col(props, k)
  {
    var c := d.settings.createdField;
    var u := d.settings.updatedField;
    var p1 := if TextIn(c, d.fields) && Empty(Col(props, c)) then props[c := timestamp] else props;
    if TextIn(u, d.fields) then p1[u := timestamp] else p1
  }

  // ---------------------------------------------------------------------------
  // The data sent

  /** The declared fields whose value is not identical (!==) to the stored one, with their values. */
  function Changed(fields: seq<string>, props: Row, stored: Row): (r: Row)
    ensures forall f :: f in r <==> f in fields && Col(props, f) != Col(stored, f)
    ensures forall f :: f in r ==> r[f] == Col(props, f)
  {
    map f | f in fields && Col(props, f) != Col(stored, f) :: Col(props, f)
  }

  /** The declared fields that are set, with their values: NULLs are not inserted. */
  function Populated(fields: seq<string>, props: Row): (r: Row)
    ensures forall f :: f in r <==> f in fields && IsSet(Col(props, f))
    ensures forall f :: f in r ==> r[f] == Col(props, f) && !r[f].Null?
  {
    map f | f in fields && IsSet(Col(props, f)) :: Col(props, f)
  }

  /** Only `updated` changed: the change is reverted and nothing is sent. */
  predicate OnlyUpdated(d: Descriptor, changed: Row) {
    |changed.Keys| == 1 && d.settings.updatedField in changed && IsSet(changed[d.settings.updatedField])
  }

  /** The outcome of writing this object's row: its properties, the store, and whether $result got TRUE. */
  datatype Written = Written(props: Row, db: Db, wrote: bool)

  /** The object is saved by UPDATE: it has a non-empty id and is not forced to be inserted. */
  predicate UpdatePath(props: Row, forceNew: bool) {
    !forceNew && !Empty(Col(props, "id"))
  }

  /**
   * The row write of save(): nothing without declared fields; an UPDATE of the
   * changed columns by id (none if nothing, or only `updated`, changed); or an
   * INSERT of the set columns, taking the insert id unless forced as new.
   */
  function WriteRow(d: Descriptor, db: Db, props: Row, stored: Row, forceNew: bool): (r: Result<Written>)
    ensures |d.fields| == 0 ==> r == Success(Written(props, db, false))
    ensures r.Success? && |d.fields| > 0 ==> r.value.wrote
  {
    if |d.fields| == 0 then Success(Written(props, db, false))
    else if UpdatePath(props, forceNew) then
      var changed := Changed(d.fields, props, stored);
      if OnlyUpdated(d, changed) then
        Success(Written(props[d.settings.updatedField := Col(stored, d.settings.updatedField)], db, true))
      else if |changed.Keys| == 0 then Success(Written(props, db, true))
      else
        var db2 :- Update(db, d.table, [Eq("id", Col(props, "id"))], changed);
        Success(Written(props, db2, true))
    else
      var ins :- Insert(db, d.table, Populated(d.fields, props));
      Success(Written(if forceNew then props else props["id" := Int(ins.1)], ins.0, true))
  }

  // ---------------------------------------------------------------------------
  // save() without related objects

  /** What save() does once validation passed and the related objects stored on this row are applied. */
  function Persist(d: Descriptor, db: Db, v: Entity, props: Row): (r: Result<Saved>)
    ensures r.Success? ==> forall f :: f in d.fields ==> Col(r.value.e.item.stored, f) == Col(r.value.e.item.props, f)
    ensures r.Success? ==> r.value.e.forceNewInternal == v.forceNewInternal && !r.value.e.forceNew
  {
    var w :- WriteRow(d, db, props, v.item.stored, v.forceNewInternal);
    var item := Refresh(d, Item(w.props, v.item.stored));
    Success(Saved(v.(item := item, validated := if w.wrote then false else v.validated, forceNew := false), w.db, w.wrote))
  }

  /**
   * save() with no related objects: validate, and when valid stamp the
   * timestamps, write the row and refresh the snapshot. The public
   * force_save_as_new flag is reset; the internal one used to decide is not.
   */
  function SavePlain(ctx: Ctx, e: Entity, timestamp: Value): (r: Result<Saved>)
    ensures r.Success? ==> !r.value.e.forceNew && r.value.e.forceNewInternal == e.forceNewInternal
    ensures r.Success? && !r.value.ok ==> r.value.db == ctx.db
  {
    var v :- Validate(ctx, e, None, "");
    if !v.valid then Success(Saved(v.(forceNew := false), ctx.db, false))
    else Persist(ctx.d, ctx.db, v, Stamp(ctx.d, v.item.props, timestamp))
  }

  /** save_as_new(): sets the internal flag, then saves. */
  function SaveAsNew(ctx: Ctx, e: Entity, timestamp: Value): (r: Result<Saved>)
    ensures r.Success? ==> r.value.e.forceNewInternal
  {
    SavePlain(ctx, e.(forceNewInternal := true), timestamp)
  }

  // ---------------------------------------------------------------------------
  // Properties

  /** A save that fails validation writes nothing and returns FALSE. */
  lemma InvalidSavesNothing(ctx: Ctx, e: Entity, timestamp: Value)
    requires Validate(ctx, e, None, "").Success? && !Validate(ctx, e, None, "").value.valid
    ensures SavePlain(ctx, e, timestamp) == Success(Saved(Validate(ctx, e, None, "").value.(forceNew := false), ctx.db, false))
  {
  }

  /** A valid save of an object with declared fields returns TRUE and leaves no field dirty. */
  lemma SavedIsClean(ctx: Ctx, e: Entity, timestamp: Value)
    requires |ctx.d.fields| > 0
    requires Validate(ctx, e, None, "").Success? && Validate(ctx, e, None, "").value.valid
    requires SavePlain(ctx, e, timestamp).Success?
    ensures SavePlain(ctx, e, timestamp).value.ok
    ensures var s := SavePlain(ctx, e, timestamp).value;
      Changed(ctx.d.fields, s.e.item.props, s.e.item.stored) == map[]
  {
    var s := SavePlain(ctx, e, timestamp).value;
    var c := Changed(ctx.d.fields, s.e.item.props, s.e.item.stored);
    assert forall f :: f !in c;
  }

  /** On the update path only the non-identical fields are sent, by id, in one UPDATE. */
  lemma UpdateSendsChanged(d: Descriptor, db: Db, props: Row, stored: Row)
    requires |d.fields| > 0 && UpdatePath(props, false)
    requires var c := Changed(d.fields, props, stored); |c.Keys| > 0 && !OnlyUpdated(d, c)
    requires WriteRow(d, db, props, stored, false).Success?
    ensures var w := WriteRow(d, db, props, stored, false).value;
      w.props == props
      && w.db.log == db.log + [Updated(d.table, [Eq("id", Col(props, "id"))], Changed(d.fields, props, stored))]
  {
  }

  /** When only `updated` differs it is put back to the stored value and nothing is written. */
  lemma OnlyUpdatedReverted(d: Descriptor, db: Db, props: Row, stored: Row)
    requires |d.fields| > 0 && UpdatePath(props, false)
    requires OnlyUpdated(d, Changed(d.fields, props, stored))
    ensures var w := WriteRow(d, db, props, stored, false);
      w.Success? && w.value.db == db
      && Col(w.value.props, d.settings.updatedField) == Col(stored, d.settings.updatedField)
      && Changed(d.fields, w.value.props, stored) == map[]
  {
    var u := d.settings.updatedField;
    var p2 := props[u := Col(stored, u)];
    var c := Changed(d.fields, props, stored);
    assert forall f :: f in c ==> f == u by {
      forall f | f in c ensures f == u {
        if f != u {
          assert {f, u} <= c.Keys;
          assert |{f, u}| == 2;
          SubsetCard({f, u}, c.Keys);
        }
      }
    }
    assert forall f :: f in d.fields ==> Col(p2, f) == Col(stored, f);
  }

  lemma SubsetCard<T>(a: set<T>, b: set<T>)
    requires a <= b
    ensures |a| <= |b|
  {
    assert b == a + (b - a);
  }

  /** On the insert path no NULL is sent, and the object takes the insert id. */
  lemma InsertTakesId(d: Descriptor, db: Db, props: Row, stored: Row)
    requires |d.fields| > 0 && !UpdatePath(props, false)
    requires WriteRow(d, db, props, stored, false).Success?
    ensures var w := WriteRow(d, db, props, stored, false).value;
      |w.db.log| == |db.log| + 1
      && w.db.log[|db.log|] == Inserted(d.table, Populated(d.fields, props))
      && (forall f :: f in Populated(d.fields, props) ==> !Populated(d.fields, props)[f].Null?)
      && Col(w.props, "id") == Int(w.db.lastId)
  {
  }

  /**
   * save_as_new() never clears the flag it sets: a later plain save of the
   * saved object inserts again instead of updating.
   */
  lemma ForcedInsertSticks(ctx: Ctx, e: Entity, timestamp: Value, ctx2: Ctx, timestamp2: Value)
    requires SaveAsNew(ctx, e, timestamp).Success?
    requires var s := SaveAsNew(ctx, e, timestamp).value;
      Validate(ctx2, s.e, None, "").Success? && Validate(ctx2, s.e, None, "").value.valid
    ensures var s := SaveAsNew(ctx, e, timestamp).value;
      var v := Validate(ctx2, s.e, None, "").value;
      !UpdatePath(Stamp(ctx2.d, v.item.props, timestamp2), v.forceNewInternal)
  {
  }
}
