/**
 * The relationship resolver: finding a relationship's declaration (also along
 * '/'-separated deep paths), deciding which table stores it, and joining the
 * related tables into the query under their aliases, each join at most once.
 */
module Relations {
  import opened Results
  import opened Strings
  import opened PhpValues
  import opened Dicts
  import opened Models
  import opened ModelInit
  import opened Context
  import opened Query

  // ---------------------------------------------------------------------------
  // _get_related_properties

  /** A relationship found: its declaration, the field name it was found under, and the model that declares it. */
  datatype Resolved = Resolved(spec: RelationSpec, field: string, owner: Descriptor)

  /**
   * The single-name lookup: has_many before has_one; with `trySingular` a miss
   * retries the singular form and, failing that, is a fatal error.
   */
  function LocalProperties(env: Env, d: Descriptor, rf: string, trySingular: bool): (r: Result<Option<Resolved>>)
    ensures IsRelated(d, rf) ==> r == Success(Some(Resolved(RelationOf(d, rf).value, rf, d)))
    ensures !IsRelated(d, rf) && !trySingular ==> r == Success(None)
    ensures !IsRelated(d, rf) && trySingular ==>
      (IsRelated(d, env.infl.singular(rf)) <==> r.Success?)
      && (r.Success? ==> r == Success(Some(Resolved(RelationOf(d, env.infl.singular(rf)).value, env.infl.singular(rf), d))))
  {
    if IsRelated(d, rf) then Success(Some(Resolved(RelationOf(d, rf).value, rf, d)))
    else if !trySingular then Success(None)
    else
      var s := env.infl.singular(rf);
      if IsRelated(d, s) then Success(Some(Resolved(RelationOf(d, s).value, s, d)))
      else Failure("Unable to relate " + d.model + " with " + rf + ".")
  }

  /** The related model reached through `rf` (_get_without_auto_populating). */
  function RelatedModel(env: Env, d: Descriptor, rf: string): (r: Result<Descriptor>)
    ensures r.Success? ==> IsRelated(d, rf) && r == Lookup(env, RelationOf(d, rf).value.cls)
  {
    match RelationOf(d, rf)
    case None => Failure("Undefined property: " + rf)
    case Some(spec) => Lookup(env, spec.cls)
  }

  /** The deep walk: each piece is looked up on the model the previous one reached; a miss stops the walk with NULL. */
  function DeepProperties(env: Env, last: Descriptor, pieces: seq<string>, trySingular: bool, done: seq<string>): (r: Result<Option<Resolved>>)
    requires |pieces| > 0
    decreases |pieces|
  {
    var found :- LocalProperties(env, last, pieces[0], trySingular);
    match found
    case None => Success(None)
    case Some(res) =>
      var next :- RelatedModel(env, last, res.field);
      if |pieces| == 1 then Success(Some(res.(field := Join(done + [res.field], "/"))))
      else DeepProperties(env, next, pieces[1..], trySingular, done + [res.field])
  }

  /** _get_related_properties($related_field, $try_singular). */
  function RelatedProperties(env: Env, d: Descriptor, rf: string, trySingular: bool): (r: Result<Option<Resolved>>)
    ensures !HasChar(rf, '/') && IsRelated(d, rf) ==> r == Success(Some(Resolved(RelationOf(d, rf).value, rf, d)))
    ensures !HasChar(rf, '/') && !IsRelated(d, rf) && !trySingular ==> r == Success(None)
    ensures !HasChar(rf, '/') && !IsRelated(d, rf) && trySingular ==> (r.Success? <==> IsRelated(d, env.infl.singular(rf)))
  {
    if HasChar(rf, '/') then DeepProperties(env, d, Split(rf, "/"), trySingular, [])
    else LocalProperties(env, d, rf, trySingular)
  }

  /**
   * A two-step path 'a/b': 'a' is looked up here, 'b' on the model 'a' reaches;
   * a miss at either step is NULL, and a hit returns b's declaration under the
   * path rebuilt from the names actually found (singular forms included).
   */
  lemma TwoStepProperties(env: Env, d: Descriptor, a: string, b: string, trySingular: bool)
    requires !HasChar(a, '/') && !HasChar(b, '/')
    ensures var r := RelatedProperties(env, d, a + "/" + b, trySingular);
      var first := LocalProperties(env, d, a, trySingular);
      (first.Failure? ==> r.Failure?)
      && (first == Success(None) ==> r == Success(None))
      && (first.Success? && first.value.Some? && RelatedModel(env, d, first.value.value.field).Success? ==>
            var next := RelatedModel(env, d, first.value.value.field).value;
            var second := LocalProperties(env, next, b, trySingular);
            (second == Success(None) ==> r == Success(None))
            && (second.Success? && second.value.Some? && RelatedModel(env, next, second.value.value.field).Success? ==>
                  r == Success(Some(second.value.value.(field := first.value.value.field + "/" + second.value.value.field)))))
  {
    PathPieces(a, b);
    assert RelatedProperties(env, d, a + "/" + b, trySingular) == DeepProperties(env, d, [a, b], trySingular, []);
    assert [a, b][1..] == [b];
    var first := LocalProperties(env, d, a, trySingular);
    if first.Success? && first.value.Some? {
      var f1 := first.value.value.field;
      assert [] + [f1] == [f1];
      var n := RelatedModel(env, d, f1);
      if n.Success? {
        assert DeepProperties(env, d, [a, b], trySingular, []) == DeepProperties(env, n.value, [b], trySingular, [f1]);
        var second := LocalProperties(env, n.value, b, trySingular);
        if second.Success? && second.value.Some? {
          var f2 := second.value.value.field;
          assert [f1] + [f2] == [f1, f2];
          assert [f1, f2][1..] == [f2];
          assert Join([f1, f2], "/") == f1 + "/" + f2;
        }
      }
    }
  }

  // ---------------------------------------------------------------------------
  // _get_relationship_table

  /** $a < $b for two table or model names. */
  predicate NameLess(a: string, b: string) {
    LooseLess(Str(a), Str(b))
  }

  /** The synthesised join table: the two names in order around '_', prefixes stripped, then the join prefix or prefix in front. */
  function JoinTableName(d: Descriptor, obj: Descriptor, spec: RelationSpec, plural: string -> string): string {
    var raw :=
      if TextEq(d.table, obj.table) then
        var a := plural(spec.joinSelfAs);
        var b := plural(spec.joinOtherAs);
        if NameLess(a, b) then a + "_" + b else b + "_" + a
      else if NameLess(d.table, obj.table) then d.table + "_" + obj.table
      else obj.table + "_" + d.table;
    var stripped := ReplaceAll(ReplaceAll(raw, d.prefix, ""), obj.prefix, "");
    if EmptyText(d.joinPrefix) then d.prefix + stripped else d.joinPrefix + stripped
  }

  /** This side holds the key: it has_one the relation and carries join_other_as_id. */
  predicate KeyHere(d: Descriptor, rf: string, spec: RelationSpec) {
    d.hasOne.Has(rf) && TextIn(OtherColumn(spec), d.fields)
  }

  /** The other side holds the key: it has_one other_field and carries join_self_as_id. */
  predicate KeyThere(obj: Descriptor, spec: RelationSpec) {
    obj.hasOne.Has(spec.otherField) && TextIn(SelfColumn(spec), obj.fields)
  }

  /** _get_relationship_table: the table that stores the relationship `rf` (declared as `spec`) from `d` to `obj`. */
  function RelationshipTable(d: Descriptor, obj: Descriptor, rf: string, spec: RelationSpec, plural: string -> string): (r: string)
    ensures KeyHere(d, rf, spec) ==> r == d.table
    ensures !KeyHere(d, rf, spec) && KeyThere(obj, spec) ==> r == obj.table
    ensures !KeyHere(d, rf, spec) && !KeyThere(obj, spec) ==> r == JoinTableName(d, obj, spec, plural)
  {
    if KeyHere(d, rf, spec) then d.table
    else if KeyThere(obj, spec) then obj.table
    else JoinTableName(d, obj, spec, plural)
  }

  /** The same relationship declared from the other side: the join names swap and other_field points back. */
  predicate Mirrored(spec: RelationSpec, back: RelationSpec, rf: string) {
    back.joinSelfAs == spec.joinOtherAs && back.joinOtherAs == spec.joinSelfAs && back.otherField == rf
  }

  /** Two names that are equal or differ even under loose comparison. */
  predicate Distinguishable(a: string, b: string) {
    a == b || !TextEq(a, b)
  }

  /** Exactly one of two distinguishable, different names sorts first. */
  lemma NameOrderStrict(a: string, b: string)
    requires !TextEq(a, b)
    ensures NameLess(a, b) != NameLess(b, a)
  {
    StrLessTrichotomy(a, b);
    LooseEqReflexive(Str(a));
  }

  /** The ordered pair a_b, whichever name comes first in the call. */
  lemma OrderedPairSymmetric(a: string, b: string)
    requires Distinguishable(a, b)
    ensures (if NameLess(a, b) then a + "_" + b else b + "_" + a) == (if NameLess(b, a) then b + "_" + a else a + "_" + b)
  {
    if a != b {
      NameOrderStrict(a, b);
    }
  }

  /**
   * With the same prefixes on both models, the join table is the same whichever
   * side asks: the names are put in order before they are joined.
   */
  lemma JoinTableSymmetric(d: Descriptor, obj: Descriptor, spec: RelationSpec, back: RelationSpec, rf: string, plural: string -> string)
    requires Mirrored(spec, back, rf)
    requires d.prefix == obj.prefix && d.joinPrefix == obj.joinPrefix
    requires Distinguishable(d.table, obj.table)
    requires Distinguishable(plural(spec.joinSelfAs), plural(spec.joinOtherAs))
    ensures JoinTableName(d, obj, spec, plural) == JoinTableName(obj, d, back, plural)
  {
    LooseEqSymmetric(Str(d.table), Str(obj.table));
    OrderedPairSymmetric(d.table, obj.table);
    OrderedPairSymmetric(plural(spec.joinSelfAs), plural(spec.joinOtherAs));
  }

  /**
   * Unless both sides claim an in-table key, both sides agree on where the
   * relationship is stored.
   */
  lemma RelationshipTableSymmetric(d: Descriptor, obj: Descriptor, rf: string, spec: RelationSpec, back: RelationSpec, plural: string -> string)
    requires Mirrored(spec, back, rf)
    requires d.prefix == obj.prefix && d.joinPrefix == obj.joinPrefix
    requires Distinguishable(d.table, obj.table)
    requires Distinguishable(plural(spec.joinSelfAs), plural(spec.joinOtherAs))
    requires !(KeyHere(d, rf, spec) && KeyHere(obj, spec.otherField, back))
    ensures RelationshipTable(d, obj, rf, spec, plural) == RelationshipTable(obj, d, spec.otherField, back, plural)
  {
    assert KeyThere(obj, spec) == KeyHere(obj, spec.otherField, back);
    assert KeyThere(d, back) == KeyHere(d, rf, spec);
    JoinTableSymmetric(d, obj, spec, back, rf, plural);
  }

  // ---------------------------------------------------------------------------
  // _add_related_table

  /** The aliases of the related table and of the relationship table. */
  datatype Aliases = Aliases(objectAs: string, relationshipAs: string)

  /**
   * The related table is aliased by its own name only when the class name is
   * the field name and the tables differ; otherwise the field name is put in front.
   */
  function AliasesFor(d: Descriptor, obj: Descriptor, rf: string, cls: string, relTable: string, prepend: string): (r: Aliases)
    ensures TextEq(cls, rf) && !TextEq(d.table, obj.table) ==> r == Aliases(prepend + obj.table, prepend + relTable)
    ensures !(TextEq(cls, rf) && !TextEq(d.table, obj.table)) ==>
      r == Aliases(prepend + rf + "_" + obj.table, prepend + rf + "_" + relTable)
  {
    if TextEq(cls, rf) && !TextEq(d.table, obj.table) then Aliases(prepend + obj.table, prepend + relTable)
    else Aliases(prepend + rf + "_" + obj.table, prepend + rf + "_" + relTable)
  }

  /** The result of one join step: the alias (or column) to use, the query, and the model joined. */
  datatype Joined = Joined(alias: string, q: QueryState, target: Descriptor)

  /** A join-table column other than id and the two key columns. */
  predicate KeptJoinColumn(f: string, selfCol: string, otherCol: string) {
    !TextEq(f, "id") && !TextEq(f, selfCol) && !TextEq(f, otherCol)
  }

  /**
   * The "alias.column AS <app>column" selections for the columns `kept` accepts,
   * in the order given; used for join fields and for include_related.
   */
  function AliasedColumns(alias: string, columns: seq<string>, kept: string -> bool, app: string): (r: seq<string>)
    ensures |r| <= |columns|
    ensures forall i :: 0 <= i < |columns| ==> (kept(columns[i]) ==> alias + "." + columns[i] + " AS " + app + columns[i] in r)
    ensures forall k :: 0 <= k < |r| ==>
              exists i :: 0 <= i < |columns| && kept(columns[i]) && r[k] == alias + "." + columns[i] + " AS " + app + columns[i]
  {
    if |columns| == 0 then []
    else
      var f := columns[0];
      var rest := AliasedColumns(alias, columns[1..], kept, app);
      assert forall i :: 1 <= i < |columns| ==> columns[i] == columns[1..][i - 1];
      if !kept(f) then rest
      else [alias + "." + f + " AS " + app + f] + rest
  }

  /** The join table's extra columns selected as join_<name> when include_join_fields is on. */
  function JoinFieldPieces(columns: seq<string>, relAs: string, selfCol: string, otherCol: string): seq<string> {
    AliasedColumns(relAs, columns, f => KeptJoinColumn(f, selfCol, otherCol), "join_")
  }

  /** Which of the three storage strategies a relationship uses, from this side. */
  datatype Strategy = OwnKey | OtherKey | JoinTable

  function StrategyOf(d: Descriptor, obj: Descriptor, relTable: string, spec: RelationSpec): Strategy {
    if TextEq(relTable, d.table) && TextIn(OtherColumn(spec), d.fields) then OwnKey
    else if TextEq(relTable, obj.table) && TextIn(SelfColumn(spec), obj.fields) then OtherKey
    else JoinTable
  }

  /**
   * One hop of _add_related_table for the relationship `rf` of `d`, joined from
   * `thisTable`; `owner` says whether `d` is the object the query belongs to
   * (only its include_join_fields switch is consulted, and then reset).
   */
  function AddRelatedHop(env: Env, d: Descriptor, q: QueryState, rf: string, idOnly: bool, prepend: string, thisTable: string, owner: bool): (r: Result<Joined>)
    ensures r.Success? <==> IsRelated(d, rf) && Lookup(env, RelationOf(d, rf).value.cls).Success?
    ensures r.Success? ==> r.value.q.where == q.where && r.value.q.orderBy == q.orderBy && r.value.q.groupStarted == q.groupStarted
    ensures r.Success? ==> r.value.target == Lookup(env, RelationOf(d, rf).value.cls).value
  {
    match RelationOf(d, rf)
    case None => Failure("Class '' not found")
    case Some(spec) =>
      var obj :- Lookup(env, spec.cls);
      var relTable := RelationshipTable(d, obj, rf, spec, env.infl.plural);
      Success(HopWith(env, d, obj, spec, relTable, AliasesFor(d, obj, rf, spec.cls, relTable, prepend), q, idOnly, thisTable, owner))
  }

  /** The body of one hop once the related model, its relationship table and the aliases are known. */
  function HopWith(env: Env, d: Descriptor, obj: Descriptor, spec: RelationSpec, relTable: string, names: Aliases, q: QueryState, idOnly: bool, thisTable: string, owner: bool): (r: Joined)
    ensures r.q.where == q.where && r.q.orderBy == q.orderBy && r.q.groupStarted == q.groupStarted && r.target == obj
  {
    var otherCol := OtherColumn(spec);
    var selfCol := SelfColumn(spec);
    var q1 := if |q.select| == 0 then DbSelect(q, d.table + ".*") else q;
    match StrategyOf(d, obj, relTable, spec)
    case OwnKey =>
      if idOnly then Joined(thisTable + "." + otherCol, q1, obj)
      else Joined(names.objectAs, JoinOnce(q1, names.objectAs, obj.table + " " + names.objectAs, names.objectAs + ".id = " + thisTable + "." + otherCol), obj)
    case OtherKey =>
      var q2 := JoinOnce(q1, names.objectAs, obj.table + " " + names.objectAs, thisTable + ".id = " + names.objectAs + "." + selfCol);
      Joined(if idOnly then names.objectAs + ".id" else names.objectAs, q2, obj)
    case JoinTable =>
      var q2 := JoinRelationship(env, q1, relTable, names.relationshipAs, thisTable, selfCol, otherCol, owner);
      if idOnly then Joined(names.relationshipAs + "." + otherCol, q2, obj)
      else Joined(names.objectAs, JoinOnce(q2, names.objectAs, obj.table + " " + names.objectAs, names.objectAs + ".id = " + names.relationshipAs + "." + otherCol), obj)
  }

  /** The join to the relationship table, with the join table's extra columns when the owner asked for them. */
  function JoinRelationship(env: Env, q: QueryState, relTable: string, relAs: string, thisTable: string, selfCol: string, otherCol: string, owner: bool): (r: QueryState)
    ensures TextIn(relAs, r.related)
    ensures TextIn(relAs, q.related) ==> r == q
    ensures !TextIn(relAs, q.related) ==>
      r.joins == q.joins + [JoinClause(relTable + " " + relAs, thisTable + ".id = " + relAs + "." + selfCol, "LEFT OUTER")]
      && r.related == q.related + [relAs]
    ensures r.where == q.where && r.orderBy == q.orderBy && r.groupStarted == q.groupStarted
  {
    if TextIn(relAs, q.related) then q
    else
      var q1 := q.(joins := q.joins + [JoinClause(relTable + " " + relAs, thisTable + ".id = " + relAs + "." + selfCol, "LEFT OUTER")]);
      var q2 :=
        if owner && q.includeJoinFields then
          DbSelect(q1, Join(JoinFieldPieces(env.columnsOf(relTable), relAs, selfCol, otherCol), ", ")).(includeJoinFields := false)
        else q1;
      TextInAppended(relAs, q2.related);
      q2.(related := q2.related + [relAs])
  }

  /** _add_related_table($related_field, '', $id_only): the field is lower-cased, and a deep path is joined hop by hop. */
  function AddRelatedTable(env: Env, d: Descriptor, q: QueryState, rf: string, idOnly: bool): (r: Result<Joined>)
    ensures var lrf := ToLower(rf);
      !HasChar(lrf, '/') ==> (r.Success? <==> IsRelated(d, lrf) && Lookup(env, RelationOf(d, lrf).value.cls).Success?)
    ensures var lrf := ToLower(rf);
      HasChar(lrf, '/') && r.Success? ==> IsRelated(d, Split(lrf, "/")[0])
  {
    var lrf := ToLower(rf);
    if HasChar(lrf, '/') then DeepHops(env, d, q, Split(lrf, "/"), idOnly, "", None, true)
    else AddRelatedHop(env, d, q, lrf, idOnly, "", d.table, true)
  }

  /**
   * The hops of a deep path: each joins from the previous hop's alias, is named
   * after the earlier hops ('a_b_'), and only the last may take the id shortcut.
   */
  function DeepHops(env: Env, last: Descriptor, q: QueryState, pieces: seq<string>, idOnly: bool, prepend: string, prev: Option<string>, owner: bool): (r: Result<Joined>)
    requires |pieces| > 0
    ensures r.Success? ==> IsRelated(last, pieces[0]) && Lookup(env, RelationOf(last, pieces[0]).value.cls).Success?
    decreases |pieces|
  {
    var thisTable := if prev.Some? then prev.value else last.table;
    var j :- AddRelatedHop(env, last, q, pieces[0], idOnly && |pieces| == 1, prepend, thisTable, owner);
    if |pieces| == 1 then Success(j)
    else DeepHops(env, j.target, j.q, pieces[1..], idOnly, prepend + pieces[0] + "_", Some(j.alias), false)
  }

  lemma TextInGrows(x: string, xs: seq<string>, ys: seq<string>)
    requires TextIn(x, xs)
    ensures TextIn(x, xs + ys)
  {
    var k :| 0 <= k < |xs| && TextEq(x, xs[k]);
    assert (xs + ys)[k] == xs[k];
  }

  /** The aliases a hop needs are already recorded in the query, so the hop adds no join. */
  predicate AlreadyJoined(d: Descriptor, obj: Descriptor, spec: RelationSpec, relTable: string, names: Aliases, q: QueryState, idOnly: bool) {
    match StrategyOf(d, obj, relTable, spec)
    case OwnKey => idOnly || TextIn(names.objectAs, q.related)
    case OtherKey => TextIn(names.objectAs, q.related)
    case JoinTable => TextIn(names.relationshipAs, q.related) && (idOnly || TextIn(names.objectAs, q.related))
  }

  /** After a hop, everything it joined is recorded. */
  lemma HopRecords(env: Env, d: Descriptor, obj: Descriptor, spec: RelationSpec, relTable: string, names: Aliases, q: QueryState, idOnly: bool, thisTable: string, owner: bool)
    ensures AlreadyJoined(d, obj, spec, relTable, names, HopWith(env, d, obj, spec, relTable, names, q, idOnly, thisTable, owner).q, idOnly)
  {
    if StrategyOf(d, obj, relTable, spec) == JoinTable && !idOnly {
      var q1 := if |q.select| == 0 then DbSelect(q, d.table + ".*") else q;
      var q2 := JoinRelationship(env, q1, relTable, names.relationshipAs, thisTable, SelfColumn(spec), OtherColumn(spec), owner);
      var q3 := JoinOnce(q2, names.objectAs, obj.table + " " + names.objectAs, names.objectAs + ".id = " + names.relationshipAs + "." + OtherColumn(spec));
      if !TextIn(names.objectAs, q2.related) {
        TextInGrows(names.relationshipAs, q2.related, [names.objectAs]);
      }
      assert TextIn(names.relationshipAs, q3.related);
    }
  }

  /** A hop whose aliases are already recorded leaves the joins and the record as they are. */
  lemma HopNoNewJoin(env: Env, d: Descriptor, obj: Descriptor, spec: RelationSpec, relTable: string, names: Aliases, q: QueryState, idOnly: bool, thisTable: string, owner: bool)
    requires AlreadyJoined(d, obj, spec, relTable, names, q, idOnly)
    ensures var j := HopWith(env, d, obj, spec, relTable, names, q, idOnly, thisTable, owner);
      j.q.joins == q.joins && j.q.related == q.related
  {
  }

  /** Resolving the same relationship a second time in one query adds no join and gives the same alias. */
  lemma HopJoinsOnce(env: Env, d: Descriptor, q: QueryState, rf: string, idOnly: bool, prepend: string, thisTable: string, owner: bool)
    requires AddRelatedHop(env, d, q, rf, idOnly, prepend, thisTable, owner).Success?
    ensures var j := AddRelatedHop(env, d, q, rf, idOnly, prepend, thisTable, owner).value;
      var j2 := AddRelatedHop(env, d, j.q, rf, idOnly, prepend, thisTable, owner);
      j2.Success? && j2.value.alias == j.alias && j2.value.q.joins == j.q.joins && j2.value.q.related == j.q.related
  {
    var spec := RelationOf(d, rf).value;
    var obj := Lookup(env, spec.cls).value;
    var relTable := RelationshipTable(d, obj, rf, spec, env.infl.plural);
    var names := AliasesFor(d, obj, rf, spec.cls, relTable, prepend);
    var j := HopWith(env, d, obj, spec, relTable, names, q, idOnly, thisTable, owner);
    assert AddRelatedHop(env, d, q, rf, idOnly, prepend, thisTable, owner).value == j;
    assert AddRelatedHop(env, d, j.q, rf, idOnly, prepend, thisTable, owner).value == HopWith(env, d, obj, spec, relTable, names, j.q, idOnly, thisTable, owner);
    HopRecords(env, d, obj, spec, relTable, names, q, idOnly, thisTable, owner);
    HopNoNewJoin(env, d, obj, spec, relTable, names, j.q, idOnly, thisTable, owner);
  }

  /**
   * The id shortcut never joins the related table itself when the key is on this
   * side (nothing is joined) or in a join table (only the join table is joined).
   */
  lemma IdOnlySkipsTarget(env: Env, d: Descriptor, obj: Descriptor, spec: RelationSpec, relTable: string, names: Aliases, q: QueryState, thisTable: string, owner: bool)
    ensures var j := HopWith(env, d, obj, spec, relTable, names, q, true, thisTable, owner);
      match StrategyOf(d, obj, relTable, spec)
      case OwnKey => j.alias == thisTable + "." + OtherColumn(spec) && j.q.joins == q.joins
      case OtherKey => j.alias == names.objectAs + ".id"
      case JoinTable =>
        (j.alias == names.relationshipAs + "." + OtherColumn(spec)
        && (j.q.joins == q.joins || j.q.joins == q.joins + [JoinClause(relTable + " " + names.relationshipAs, thisTable + ".id = " + names.relationshipAs + "." + SelfColumn(spec), "LEFT OUTER")]))
  {
  }

  /** 'a/b' explodes into its two steps. */
  lemma PathPieces(a: string, b: string)
    requires !HasChar(a, '/') && !HasChar(b, '/')
    ensures HasChar(a + "/" + b, '/')
    ensures Split(a + "/" + b, "/") == [a, b]
  {
    var path := a + "/" + b;
    assert path == a + ['/'] + b;
    assert path[|a|] == '/';
    SplitAtFirst(a, '/', b);
    SplitNoSep(b, '/');
  }

  /** The hops of a two-step path. */
  lemma DeepTwoHops(env: Env, d: Descriptor, q: QueryState, a: string, b: string, idOnly: bool)
    ensures var r := DeepHops(env, d, q, [a, b], idOnly, "", None, true);
      var first := AddRelatedHop(env, d, q, a, false, "", d.table, true);
      (first.Failure? ==> r.Failure?)
      && (first.Success? ==> r == AddRelatedHop(env, first.value.target, first.value.q, b, idOnly, a + "_", first.value.alias, false))
  {
    assert [a, b][1..] == [b];
    assert "" + a + "_" == a + "_";
  }

  /**
   * A two-hop path 'a/b': 'a' is joined from this table without the id shortcut,
   * then 'b' is joined from a's alias, named with the 'a_' prefix, taking the shortcut if asked.
   */
  lemma TwoHopPath(env: Env, d: Descriptor, q: QueryState, a: string, b: string, idOnly: bool)
    requires !HasChar(a, '/') && !HasChar(b, '/')
    requires ToLower(a + "/" + b) == a + "/" + b
    ensures var r := AddRelatedTable(env, d, q, a + "/" + b, idOnly);
      var first := AddRelatedHop(env, d, q, a, false, "", d.table, true);
      (first.Failure? ==> r.Failure?)
      && (first.Success? ==> r == AddRelatedHop(env, first.value.target, first.value.q, b, idOnly, a + "_", first.value.alias, false))
  {
    PathPieces(a, b);
    assert AddRelatedTable(env, d, q, a + "/" + b, idOnly) == DeepHops(env, d, q, [a, b], idOnly, "", None, true);
    DeepTwoHops(env, d, q, a, b, idOnly);
  }

  // ---------------------------------------------------------------------------
  // include_related

  /** The $fields argument: NULL, one name (possibly '*'), or a list. */
  datatype FieldsArg = AllFields | OneField(name: string) | FieldList(names: seq<string>)

  /** The $append_name argument: TRUE, FALSE or a custom name. */
  datatype AppendArg = AppendDefault | AppendNone | AppendCustom(name: string)

  function FieldsOf(fields: FieldsArg, obj: Descriptor): seq<string> {
    match fields
    case AllFields => obj.fields
    case OneField(n) => if TextEq(n, "*") then obj.fields else [n]
    case FieldList(ns) => ns
  }

  /** The prefix put before every included column: the path with '/' turned to '_', a custom name, or nothing. */
  function AppendText(append: AppendArg, rf: string): string {
    match append
    case AppendDefault => ReplaceAll(rf, "/", "_") + "_"
    case AppendNone => ""
    case AppendCustom(n) => n + "_"
  }

  /** Every step of the path must be a has_one of the model reached so far. */
  function HasOneChain(env: Env, last: Descriptor, pieces: seq<string>): (r: Result<Descriptor>)
    ensures r.Success? && |pieces| > 0 ==> last.hasOne.Has(pieces[0])
    decreases |pieces|
  {
    if |pieces| == 0 then Success(last)
    else if !last.hasOne.Has(pieces[0]) then
      Failure("Invalid request to include_related: " + pieces[0] + " is not a has_one relationship to " + last.model + ".")
    else
      var next :- RelatedModel(env, last, pieces[0]);
      HasOneChain(env, next, pieces[1..])
  }

  /** A column is included unless its new name would collide with one of this model's fields. */
  predicate Included(f: string, app: string, thisFields: seq<string>) {
    !TextIn(app + f, thisFields)
  }

  /** The instantiation map keeps every included column, and a colliding 'id' under its new name. */
  predicate Mapped(f: string, app: string, thisFields: seq<string>) {
    Included(f, app, thisFields) || (TextEq(f, "id") && !TextEq(app + f, "id"))
  }

  /** The property map include_related records for instantiation: new name -> related column, in field order. */
  function PropertyMap(fs: seq<string>, app: string, kept: string -> bool): (r: Dict<string, string>)
    ensures r.Valid()
    ensures forall i :: 0 <= i < |fs| ==> (kept(fs[i]) ==> app + fs[i] in r.vals && r.vals[app + fs[i]] == fs[i])
    ensures forall n :: n in r.vals ==> exists i :: 0 <= i < |fs| && kept(fs[i]) && n == app + fs[i]
  {
    if |fs| == 0 then EmptyDict()
    else
      var init := fs[..|fs| - 1];
      var f := fs[|fs| - 1];
      var m := PropertyMap(init, app, kept);
      assert forall i :: 0 <= i < |init| ==> init[i] == fs[i];
      assert forall x: string, y: string :: app + x == app + y ==> x == (app + x)[|app|..] == y;
      if kept(f) then Put(m, app + f, f) else m
  }

  /** What include_related leaves behind: the query, and the instantiation map recorded under the path, if any. */
  datatype Inclusion = Inclusion(q: QueryState, instantiation: Option<(string, Dict<string, string>)>)

  /**
   * The selection step of include_related: each requested column is selected
   * from `alias` under its new name unless that name is one of this model's
   * fields; with no column left nothing changes, otherwise the instantiation map
   * (when asked for) sends each new name back to its column, a colliding 'id' too.
   */
  function SelectIncluded(q: QueryState, alias: string, fs: seq<string>, app: string, thisFields: seq<string>, instantiate: bool, path: string): (r: Inclusion)
    ensures |AliasedColumns(alias, fs, f => Included(f, app, thisFields), app)| == 0 ==> r == Inclusion(q, None)
    ensures (exists i :: 0 <= i < |fs| && Included(fs[i], app, thisFields)) ==>
      r.q == DbSelect(q, Join(AliasedColumns(alias, fs, f => Included(f, app, thisFields), app), ", "))
      && (r.instantiation.Some? <==> instantiate)
    ensures r.instantiation.Some? ==>
      r.instantiation.value.0 == path
      && (forall i :: 0 <= i < |fs| ==> (Mapped(fs[i], app, thisFields) ==> app + fs[i] in r.instantiation.value.1.vals && r.instantiation.value.1.vals[app + fs[i]] == fs[i]))
      && (forall n :: n in r.instantiation.value.1.vals ==> exists i :: 0 <= i < |fs| && Mapped(fs[i], app, thisFields) && n == app + fs[i])
  {
    var pieces := AliasedColumns(alias, fs, f => Included(f, app, thisFields), app);
    if |pieces| == 0 then Inclusion(q, None)
    else
      var inst := if instantiate then Some((path, PropertyMap(fs, app, f => Mapped(f, app, thisFields)))) else None;
      Inclusion(DbSelect(q, Join(pieces, ", ")), inst)
  }

  /**
   * include_related($related_field, $fields, $append_name, $instantiate) for a
   * field name: the name is resolved (trying its singular), every step must be a
   * has_one, the path is joined, and the columns are selected.
   */
  function IncludeRelated(env: Env, d: Descriptor, q: QueryState, rf: string, fields: FieldsArg, append: AppendArg, instantiate: bool): (r: Result<Inclusion>)
    ensures r.Success? ==> RelatedProperties(env, d, rf, true).Success? && RelatedProperties(env, d, rf, true).value.Some?
    ensures r.Success? ==>
      var res := RelatedProperties(env, d, rf, true).value.value;
      HasOneChain(env, d, Split(res.field, "/")).Success?
      && AddRelatedTable(env, d, q, res.field, false).Success?
      && r.value.q.where == q.where
  {
    var found :- RelatedProperties(env, d, rf, true);
    match found
    case None => Failure("Class '' not found")
    case Some(res) =>
      var obj :- Lookup(env, res.spec.cls);
      var chainEnd :- HasOneChain(env, d, Split(res.field, "/"));
      var j :- AddRelatedTable(env, d, q, res.field, false);
      AddRelatedTableKeepsWhere(env, d, q, res.field, false);
      Success(SelectIncluded(j.q, j.alias, FieldsOf(fields, obj), AppendText(append, res.field), d.fields, instantiate, res.field))
  }

  lemma AddRelatedTableKeepsWhere(env: Env, d: Descriptor, q: QueryState, rf: string, idOnly: bool)
    requires AddRelatedTable(env, d, q, rf, idOnly).Success?
    ensures AddRelatedTable(env, d, q, rf, idOnly).value.q.where == q.where
    ensures AddRelatedTable(env, d, q, rf, idOnly).value.q.groupStarted == q.groupStarted
  {
    var lrf := ToLower(rf);
    if HasChar(lrf, '/') {
      DeepHopsKeepWhere(env, d, q, Split(lrf, "/"), idOnly, "", None, true);
    }
  }

  lemma {:induction false} DeepHopsKeepWhere(env: Env, last: Descriptor, q: QueryState, pieces: seq<string>, idOnly: bool, prepend: string, prev: Option<string>, owner: bool)
    requires |pieces| > 0
    requires DeepHops(env, last, q, pieces, idOnly, prepend, prev, owner).Success?
    ensures DeepHops(env, last, q, pieces, idOnly, prepend, prev, owner).value.q.where == q.where
    ensures DeepHops(env, last, q, pieces, idOnly, prepend, prev, owner).value.q.groupStarted == q.groupStarted
    decreases |pieces|
  {
    var thisTable := if prev.Some? then prev.value else last.table;
    var j := AddRelatedHop(env, last, q, pieces[0], idOnly && |pieces| == 1, prepend, thisTable, owner).value;
    if |pieces| > 1 {
      DeepHopsKeepWhere(env, j.target, j.q, pieces[1..], idOnly, prepend + pieces[0] + "_", Some(j.alias), false);
    }
  }

  // ---------------------------------------------------------------------------
  // _handle_related

  /**
   * The SELECT, FROM, JOIN, WHERE and ORDER BY parts CodeIgniter's
   * _reset_select empties; the ORM's own bookkeeping stays.
   */
  function ResetSelect(q: QueryState): QueryState {
    q.(select := [], joins := [], where := [], orderBy := [])
  }

  /**
   * _handle_related for an object whose `parent` is (model, id): unless the
   * parent names a relationship, it is a fatal error; an empty model name or id
   * resets the query and reports failure; otherwise the conditions so far are
   * bracketed and where_related(model, 'id', id) restricts the query to the
   * parent's relations, through the id shortcut. The brackets are written here
   * as a group opening and close.
   */
  function HandleRelated(env: Env, d: Descriptor, q: QueryState, parent: Option<(string, Value)>): (r: Result<(bool, QueryState)>)
    ensures parent.None? ==> r == Success((true, q))
    ensures parent.Some? && !IsRelated(d, parent.value.0) ==> r.Failure?
    ensures parent.Some? && IsRelated(d, parent.value.0) && (EmptyText(parent.value.0) || Empty(parent.value.1)) ==>
      r == Success((false, ResetSelect(q)))
    ensures r.Success? && r.value.0 && parent.Some? ==>
      var grouped := if |q.where| == 0 then [] else [Open("", "")] + q.where + [Close];
      |r.value.1.where| == |grouped| + 1
      && r.value.1.where[..|grouped|] == grouped
      && r.value.1.where[|grouped|].Clause? && r.value.1.where[|grouped|].value == parent.value.1
  {
    match parent
    case None => Success((true, q))
    case Some((model, id)) =>
      if !IsRelated(d, model) then
        Failure("DataMapper Error: '" + model + "' is not a valid parent relationship for " + d.cls + ".  Are your relationships configured correctly?")
      else if EmptyText(model) || Empty(id) then Success((false, ResetSelect(q)))
      else
        var q1 := if |q.where| == 0 then q else q.(where := [Open("", "")] + q.where + [Close]);
        var j :- AddRelatedTable(env, d, q1, model, true);
        AddRelatedTableKeepsWhere(env, d, q1, model, true);
        WhereOneAppends(d, j.q, j.alias, id, "AND ");
        Success((true, WhereOne(d, j.q, j.alias, id, "AND ")))
  }

  /**
   * Restricting to the parent keeps a well-connected builder well connected:
   * the earlier conditions sit inside their own brackets, and the new condition
   * follows them with AND.
   */
  lemma HandleRelatedConnected(env: Env, d: Descriptor, q: QueryState, model: string, id: Value)
    requires WellConnected(q) && !q.groupStarted
    requires HandleRelated(env, d, q, Some((model, id))).Success?
    ensures WellConnected(HandleRelated(env, d, q, Some((model, id))).value.1)
  {
    if IsRelated(d, model) && !(EmptyText(model) || Empty(id)) {
      var q1 := if |q.where| == 0 then q else q.(where := [Open("", "")] + q.where + [Close]);
      if |q.where| > 0 {
        BracketConnected(q.where);
      }
      var j := AddRelatedTable(env, d, q1, model, true).value;
      AddRelatedTableKeepsWhere(env, d, q1, model, true);
      assert WellConnected(j.q);
      assert HandleRelated(env, d, q, Some((model, id))) == Success((true, WhereOne(d, j.q, j.alias, id, "AND ")));
      WhereConnected(d, j.q, Single(j.alias, id), "AND ");
    }
  }

  /** Bracketing a connected list keeps it connected: its first entry follows the opening. */
  lemma BracketConnected(ws: seq<WhereItem>)
    requires Connected(ws) && |ws| > 0
    ensures Connected([Open("", "")] + ws + [Close])
  {
    var r := [Open("", "")] + ws + [Close];
    forall i | 0 < i < |r| && !r[i - 1].Open?
      ensures (r[i].Clause? ==> r[i].prefix != "") && (r[i].InList? ==> r[i].prefix != "") && (r[i].Open? ==> r[i].prefix != "")
    {
      if i <= |ws| {
        assert r[i] == ws[i - 1] && r[i - 1] == ws[i - 2];
      }
    }
  }

  /** include_related only accepts a path of has_one steps: a has_many name is an error. */
  lemma IncludeRelatedNeedsHasOne(env: Env, d: Descriptor, q: QueryState, rf: string, fields: FieldsArg, append: AppendArg, instantiate: bool)
    requires IsRelated(d, rf) && !HasChar(rf, '/') && !d.hasOne.Has(rf)
    ensures IncludeRelated(env, d, q, rf, fields, append, instantiate).Failure?
  {
    SplitNoSep(rf, '/');
  }
}
