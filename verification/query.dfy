/**
 * The query under construction and the clause builders that feed it: WHERE
 * items with their AND/OR connectives and query groups, LIKE patterns, ORDER BY,
 * SELECT and the model's default ordering.
 */
module Query {
  import opened Results
  import opened Strings
  import opened PhpValues
  import opened Dicts
  import opened Models
  import opened TableNames

  /**
   * One entry of the WHERE list. A condition carries the connective ('AND ',
   * 'OR ' or '') it was written with; a group opening carries its connective and
   * its 'NOT ' part.
   */
  datatype WhereItem =
    | Clause(prefix: string, key: string, value: Value)
    | InList(prefix: string, key: string, values: seq<Value>, negated: bool)
    | Open(prefix: string, neg: string)
    | Close

  /** The text a group opening adds: `$prefix . $not . ' ('`. */
  function OpenText(w: WhereItem): string
    requires w.Open?
  {
    w.prefix + w.neg + " ("
  }

  datatype JoinClause = JoinClause(target: string, on: string, kind: string)

  /**
   * The state of the query being built: the SELECT list, the joins, the WHERE
   * list, the ORDER BY list, the aliases already joined (_query_related), whether
   * a group has just been opened, and the include_join_fields switch.
   */
  datatype QueryState = QueryState(
    select: seq<string>,
    joins: seq<JoinClause>,
    where: seq<WhereItem>,
    orderBy: seq<(string, string)>,
    related: seq<string>,
    groupStarted: bool,
    includeJoinFields: bool)

  function EmptyQuery(): (q: QueryState)
    ensures q.where == [] && q.select == [] && q.joins == [] && q.related == [] && !q.groupStarted
  {
    QueryState([], [], [], [], [], false, false)
  }

  /** add_table_name for a model. */
  function Qualify(d: Descriptor, field: string): string {
    AddTableName(d.table, d.fields, field)
  }

  // ---------------------------------------------------------------------------
  // Connectives and groups

  /** _get_prepend_type: right after group_start the connective is dropped, once. */
  function PrependType(q: QueryState, kind: string): (r: (string, QueryState))
    ensures r.1 == q.(groupStarted := false)
    ensures r.0 == (if q.groupStarted then "" else kind)
  {
    if q.groupStarted then ("", q.(groupStarted := false)) else (kind, q)
  }

  /** The connective CodeIgniter writes before a new WHERE entry: none for the first. */
  function Connective(q: QueryState, kind: string): string {
    if |q.where| == 0 then "" else kind
  }

  /** group_start($not, $type). */
  function GroupStart(q: QueryState, neg: string, kind: string): (r: QueryState)
    ensures r.where == q.where + [Open(if |q.where| == 0 || q.groupStarted then "" else kind, neg)]
    ensures r.groupStarted
    ensures r.select == q.select && r.joins == q.joins && r.orderBy == q.orderBy && r.related == q.related
  {
    var (t, q1) := PrependType(q, kind);
    q1.(where := q1.where + [Open(Connective(q1, t), neg)], groupStarted := true)
  }

  function OrGroupStart(q: QueryState): QueryState {
    GroupStart(q, "", "OR ")
  }

  /** not_group_start as written: it passes 'OR ', exactly as or_not_group_start does. */
  function NotGroupStartAsWritten(q: QueryState): (r: QueryState)
    ensures r.where == q.where + [Open(if |q.where| == 0 || q.groupStarted then "" else "OR ", "NOT ")]
    ensures r.groupStarted
  {
    GroupStart(q, "NOT ", "OR ")
  }

  /** not_group_start as its name and its or_ sibling imply: an AND NOT group. */
  function NotGroupStart(q: QueryState): (r: QueryState)
    ensures r.where == q.where + [Open(if |q.where| == 0 || q.groupStarted then "" else "AND ", "NOT ")]
    ensures r.groupStarted
  {
    GroupStart(q, "NOT ", "AND ")
  }

  function OrNotGroupStart(q: QueryState): QueryState {
    GroupStart(q, "NOT ", "OR ")
  }

  /**
   * The discrepancy: after a condition, not_group_start as written opens an
   * OR NOT group, the same text as or_not_group_start, while the corrected one
   * opens an AND NOT group that differs from it.
   */
  lemma NotGroupStartOrs(q: QueryState)
    requires |q.where| > 0 && !q.groupStarted
    ensures NotGroupStartAsWritten(q) == OrNotGroupStart(q)
    ensures Last(NotGroupStartAsWritten(q).where) == Open("OR ", "NOT ")
    ensures Last(NotGroupStart(q).where) == Open("AND ", "NOT ")
    ensures NotGroupStart(q) != OrNotGroupStart(q)
  {
    assert Last(NotGroupStart(q).where) != Last(OrNotGroupStart(q).where);
  }

  /** The last entry of a non-empty WHERE list. */
  function Last(ws: seq<WhereItem>): WhereItem
    requires |ws| > 0
  {
    ws[|ws| - 1]
  }

  /** group_end(). */
  function GroupEnd(q: QueryState): (r: QueryState)
    ensures r.where == q.where + [Close] && !r.groupStarted
    ensures r.select == q.select && r.joins == q.joins && r.orderBy == q.orderBy && r.related == q.related
  {
    q.(where := q.where + [Close], groupStarted := false)
  }

  // ---------------------------------------------------------------------------
  // WHERE

  /** The single-element array `array($key => $value)`. */
  function Single<V>(k: string, v: V): (r: Dict<string, V>)
    ensures r.Valid() && r.keys == [k] && r.vals == map[k := v]
  {
    Put(EmptyDict(), k, v)
  }

  /**
   * The renaming loop of _where and _like: every key is passed through
   * add_table_name; a changed key is assigned under its new name and the old one unset.
   */
  function RenameKeys<V>(d: Descriptor, orig: Dict<string, V>, i: nat, cur: Dict<string, V>): (r: Dict<string, V>)
    requires orig.Valid() && cur.Valid() && i <= |orig.keys|
    ensures r.Valid()
    decreases |orig.keys| - i
  {
    if i == |orig.keys| then cur
    else
      var k := orig.keys[i];
      var nk := Qualify(d, k);
      if TextEq(nk, k) then RenameKeys(d, orig, i + 1, cur)
      else
        RemoveValid(Put(cur, nk, orig.vals[k]), k);
        RenameKeys(d, orig, i + 1, Remove(Put(cur, nk, orig.vals[k]), k))
  }

  function Renamed<V>(d: Descriptor, keys: Dict<string, V>): (r: Dict<string, V>)
    requires keys.Valid()
    ensures r.Valid()
  {
    RenameKeys(d, keys, 0, keys)
  }

  /** A single key comes out of the renaming loop qualified, with its value. */
  lemma RenameSingle<V>(d: Descriptor, k: string, v: V)
    ensures Renamed(d, Single(k, v)) == (if TextEq(Qualify(d, k), k) then Single(k, v) else Single(Qualify(d, k), v))
  {
    var s := Single(k, v);
    var nk := Qualify(d, k);
    if TextEq(nk, k) {
      assert Renamed(d, s) == RenameKeys(d, s, 1, s);
    } else {
      assert nk != k by {
        LooseEqReflexive(Str(k));
      }
      RenameMoves(s, k, nk, v);
      RemoveValid(Put(s, nk, v), k);
      assert Renamed(d, s) == RenameKeys(d, s, 1, Remove(Put(s, nk, v), k));
      assert RenameKeys(d, s, 1, Single(nk, v)) == Single(nk, v);
    }
  }

  /** Moving the only key of a one-entry array to a new name. */
  lemma RenameMoves<V>(s: Dict<string, V>, k: string, nk: string, v: V)
    requires s == Single(k, v) && nk != k
    ensures Remove(Put(s, nk, v), k) == Single(nk, v)
  {
    assert Remove(Put(s, nk, v), k) == Dict([nk], map[nk := v]) by {
      var p := Put(s, nk, v);
      assert nk !in s.vals;
      assert p.keys == [k, nk];
      WithoutFirstOfTwo(k, nk);
      assert p.vals - {k} == map[nk := v];
    }
  }

  /** Removing the first of two distinct keys leaves the second. */
  lemma WithoutFirstOfTwo<K>(k: K, nk: K)
    requires nk != k
    ensures Without([k, nk], k) == [nk]
  {
    assert [k, nk][1..] == [nk];
    assert Without([nk], k) == [nk] + Without([nk][1..], k);
    assert [nk][1..] == [];
  }

  /** CodeIgniter's _where: one condition per key, each with the connective its position calls for. */
  function AddClauses(q: QueryState, keys: seq<string>, vals: map<string, Value>, kind: string): (r: QueryState)
    requires forall k :: 0 <= k < |keys| ==> keys[k] in vals
    ensures |r.where| == |q.where| + |keys|
    ensures r.where[..|q.where|] == q.where
    ensures forall j :: 0 <= j < |keys| ==> r.where[|q.where| + j] == Clause(if |q.where| + j == 0 then "" else kind, keys[j], vals[keys[j]])
    ensures r == q.(where := r.where)
    decreases |keys|
  {
    if |keys| == 0 then q
    else
      var q1 := q.(where := q.where + [Clause(Connective(q, kind), keys[0], vals[keys[0]])]);
      AddClauses(q1, keys[1..], vals, kind)
  }

  /**
   * _where as written: the connective is taken once and CodeIgniter then uses
   * that same connective for every key. Right after group_start it is empty, so
   * an array of two or more keys loses the AND/OR between its conditions.
   */
  function WhereAsWritten(d: Descriptor, q: QueryState, keys: Dict<string, Value>, kind: string): (r: QueryState)
    requires keys.Valid()
    ensures !r.groupStarted
    ensures |r.where| == |q.where| + |Renamed(d, keys).keys|
    ensures r.where[..|q.where|] == q.where
    ensures r.select == q.select && r.joins == q.joins && r.orderBy == q.orderBy && r.related == q.related
  {
    var named := Renamed(d, keys);
    var (t, q1) := PrependType(q, kind);
    AddClauses(q1, named.keys, named.vals, t)
  }

  /**
   * _where($key, $value, $type) as intended: the renamed keys are added in
   * order; only the first one gives up its connective right after group_start.
   */
  function Where(d: Descriptor, q: QueryState, keys: Dict<string, Value>, kind: string): (r: QueryState)
    requires keys.Valid()
    ensures !r.groupStarted
    ensures |r.where| == |q.where| + |Renamed(d, keys).keys|
    ensures r.where[..|q.where|] == q.where
    ensures r.select == q.select && r.joins == q.joins && r.orderBy == q.orderBy && r.related == q.related
  {
    var named := Renamed(d, keys);
    var (t, q1) := PrependType(q, kind);
    if |named.keys| == 0 then q1
    else
      var q2 := AddClauses(q1, named.keys[..1], named.vals, t);
      var r := AddClauses(q2, named.keys[1..], named.vals, kind);
      assert r.where[..|q.where|] == r.where[..|q2.where|][..|q.where|];
      r
  }

  /** Where keeps a connected builder connected: every condition after the first in a group has its connective. */
  lemma WhereConnected(d: Descriptor, q: QueryState, keys: Dict<string, Value>, kind: string)
    requires keys.Valid()
    requires WellConnected(q) && kind != ""
    ensures WellConnected(Where(d, q, keys, kind))
  {
    var named := Renamed(d, keys);
    var (t, q1) := PrependType(q, kind);
    if |named.keys| > 0 {
      TwoStagesConnected(q1, named.keys, named.vals, t, kind);
    }
  }

  /** A first condition with a connective where one is needed, then the rest with a non-empty one, keep a list connected. */
  lemma TwoStagesConnected(q: QueryState, keys: seq<string>, vals: map<string, Value>, first: string, kind: string)
    requires forall k :: 0 <= k < |keys| ==> keys[k] in vals
    requires |keys| > 0 && Connected(q.where) && kind != ""
    requires first != "" || |q.where| == 0 || q.where[|q.where| - 1].Open?
    ensures Connected(AddClauses(AddClauses(q, keys[..1], vals, first), keys[1..], vals, kind).where)
  {
    var w := Clause(Connective(q, first), keys[0], vals[keys[0]]);
    var q2 := q.(where := q.where + [w]);
    assert AddClauses(q, keys[..1], vals, first) == AddClauses(q2, [], vals, first);
    AppendConnected(q.where, w);
    AddClausesConnected(q2, keys[1..], vals, kind);
  }

  /** Appending conditions with a non-empty connective keeps the list connected. */
  lemma {:induction false} AddClausesConnected(q: QueryState, keys: seq<string>, vals: map<string, Value>, kind: string)
    requires forall k :: 0 <= k < |keys| ==> keys[k] in vals
    requires Connected(q.where) && kind != ""
    ensures Connected(AddClauses(q, keys, vals, kind).where)
    decreases |keys|
  {
    if |keys| > 0 {
      var w := Clause(Connective(q, kind), keys[0], vals[keys[0]]);
      AppendConnected(q.where, w);
      AddClausesConnected(q.(where := q.where + [w]), keys[1..], vals, kind);
    }
  }

  /** Adding a first key and then the rest is adding them all, when the connective is the same. */
  lemma AddClausesSplit(q: QueryState, keys: seq<string>, vals: map<string, Value>, kind: string)
    requires forall k :: 0 <= k < |keys| ==> keys[k] in vals
    requires |keys| > 0
    ensures AddClauses(AddClauses(q, keys[..1], vals, kind), keys[1..], vals, kind) == AddClauses(q, keys, vals, kind)
  {
    var w := Clause(Connective(q, kind), keys[0], vals[keys[0]]);
    assert AddClauses(q, keys[..1], vals, kind) == AddClauses(q.(where := q.where + [w]), keys[..1][1..], vals, kind);
    assert keys[..1][1..] == [];
  }

  /** Outside a group, or with at most one key, the code as written already does what is intended. */
  lemma WhereAgrees(d: Descriptor, q: QueryState, keys: Dict<string, Value>, kind: string)
    requires keys.Valid()
    requires !q.groupStarted || |Renamed(d, keys).keys| <= 1
    ensures WhereAsWritten(d, q, keys, kind) == Where(d, q, keys, kind)
  {
    var named := Renamed(d, keys);
    var (t, q1) := PrependType(q, kind);
    if |named.keys| > 0 {
      AddClausesSplit(q1, named.keys, named.vals, t);
      if |named.keys| == 1 {
        assert named.keys[1..] == [];
      }
    }
  }

  /** Keys that already name their table are not renamed. */
  lemma {:induction false} RenameQualified<V>(d: Descriptor, orig: Dict<string, V>, i: nat)
    requires orig.Valid() && i <= |orig.keys|
    requires forall j :: 0 <= j < |orig.keys| ==> HasChar(orig.keys[j], '.')
    ensures RenameKeys(d, orig, i, orig) == orig
    decreases |orig.keys| - i
  {
    if i < |orig.keys| {
      var k := orig.keys[i];
      LooseEqReflexive(Str(k));
      assert Qualify(d, k) == k;
      RenameQualified(d, orig, i + 1);
    }
  }

  /**
   * The discrepancy: inside a group, where() with two already-qualified fields
   * leaves the second condition with no connective after the first, while the
   * corrected Where keeps the builder connected.
   */
  lemma WhereInGroupLosesConnective(d: Descriptor, q: QueryState, a: string, b: string, va: Value, vb: Value)
    requires WellConnected(q)
    requires HasChar(a, '.') && HasChar(b, '.') && a != b
    ensures var keys := Dict([a, b], map[a := va, b := vb]);
      var g := OrGroupStart(q);
      keys.Valid()
      && !Connected(WhereAsWritten(d, g, keys, "AND ").where)
      && WellConnected(Where(d, g, keys, "AND "))
  {
    var keys := Dict([a, b], map[a := va, b := vb]);
    var g := OrGroupStart(q);
    GroupStartConnected(q, "", "OR ");
    RenameQualified(d, keys, 0);
    AsWrittenDropsSecond(d, g, keys, "AND ");
    WhereConnected(d, g, keys, "AND ");
  }

  /** As written, right after group_start the second of two or more renamed keys gets no connective. */
  lemma AsWrittenDropsSecond(d: Descriptor, g: QueryState, keys: Dict<string, Value>, kind: string)
    requires keys.Valid() && g.groupStarted && |Renamed(d, keys).keys| >= 2
    ensures !Connected(WhereAsWritten(d, g, keys, kind).where)
  {
    var named := Renamed(d, keys);
    var (t, q1) := PrependType(g, kind);
    assert t == "";
    EmptyConnectiveDisconnects(q1, named.keys, named.vals);
  }

  /** Two or more conditions all given the empty connective leave the second one unconnected. */
  lemma EmptyConnectiveDisconnects(q: QueryState, keys: seq<string>, vals: map<string, Value>)
    requires forall k :: 0 <= k < |keys| ==> keys[k] in vals
    requires |keys| >= 2
    ensures !Connected(AddClauses(q, keys, vals, "").where)
  {
    var r := AddClauses(q, keys, vals, "");
    var n := |q.where|;
    assert r.where[n + 1] == Clause("", keys[1], vals[keys[1]]);
    assert r.where[n] == Clause("", keys[0], vals[keys[0]]);
  }

  /** where($key, $value) with a single key. */
  function WhereOne(d: Descriptor, q: QueryState, key: string, v: Value, kind: string): QueryState {
    Where(d, q, Single(key, v), kind)
  }

  /**
   * where($key, $value) with a single key appends exactly one condition: the
   * key as add_table_name leaves it, the value, and the connective its position
   * calls for.
   */
  lemma WhereOneAppends(d: Descriptor, q: QueryState, key: string, v: Value, kind: string)
    ensures var k := if TextEq(Qualify(d, key), key) then key else Qualify(d, key);
      WhereOne(d, q, key, v, kind).where == q.where + [Clause(if |q.where| == 0 || q.groupStarted then "" else kind, k, v)]
  {
    var k := if TextEq(Qualify(d, key), key) then key else Qualify(d, key);
    RenameSingle(d, key, v);
    WhereOfSingle(d, q, Single(key, v), k, v, kind);
  }

  /** Where on an array that the renaming loop leaves with one key appends that key's condition alone. */
  lemma WhereOfSingle(d: Descriptor, q: QueryState, keys: Dict<string, Value>, k: string, v: Value, kind: string)
    requires keys.Valid() && Renamed(d, keys) == Single(k, v)
    ensures Where(d, q, keys, kind).where == q.where + [Clause(if |q.where| == 0 || q.groupStarted then "" else kind, k, v)]
  {
    var named := Single(k, v);
    assert named.keys[..1] == [k] && named.keys[1..] == [];
    var t := PrependType(q, kind).0;
    var q1 := PrependType(q, kind).1;
    var q2 := AddClauses(q1, [k], named.vals, t);
    OneClause(q1, k, named.vals, t);
    assert Where(d, q, keys, kind) == AddClauses(q2, [], named.vals, kind);
  }

  /** Adding one key appends its one condition. */
  lemma OneClause(q: QueryState, k: string, vals: map<string, Value>, kind: string)
    requires k in vals
    ensures AddClauses(q, [k], vals, kind).where == q.where + [Clause(Connective(q, kind), k, vals[k])]
  {
    assert [k][1..] == [];
  }

  /** _where_in($key, $values, $not, $type). */
  function WhereIn(d: Descriptor, q: QueryState, key: string, values: seq<Value>, negated: bool, kind: string): (r: QueryState)
    ensures r.where == q.where + [InList(if |q.where| == 0 || q.groupStarted then "" else kind, Qualify(d, key), values, negated)]
    ensures !r.groupStarted
  {
    var (t, q1) := PrependType(q, kind);
    q1.(where := q1.where + [InList(Connective(q1, t), Qualify(d, key), values, negated)])
  }

  // ---------------------------------------------------------------------------
  // LIKE

  /** The LIKE pattern for a side: '%v' before, 'v%' after, '%v%' otherwise. */
  function LikePattern(v: string, side: string): (m: string)
    ensures side == "before" ==> m == "%" + v
    ensures side == "after" ==> m == v + "%"
    ensures side != "before" && side != "after" ==> m == "%" + v + "%"
  {
    if side == "before" then "%" + v
    else if side == "after" then v + "%"
    else "%" + v + "%"
  }

  /** The field and pattern one LIKE pair turns into; the case-insensitive form wraps the field in UPPER and upper-cases the value. */
  function LikeTerm(k: string, v: Value, side: string, neg: string, noCase: bool, protect: string -> string): (r: (string, string))
    ensures noCase ==> r.0 == "UPPER(" + protect(k) + ") " + neg + " LIKE" && r.1 == LikePattern(ToUpper(ToStr(v)), side)
    ensures !noCase ==> r.0 == k + " " + neg + " LIKE" && r.1 == LikePattern(ToStr(v), side)
  {
    var key := if noCase then "UPPER(" + protect(k) + ")" else k;
    var text := if noCase then ToUpper(ToStr(v)) else ToStr(v);
    (key + " " + neg + " LIKE", LikePattern(text, side))
  }

  function LikeEach(d: Descriptor, q: QueryState, keys: seq<string>, vals: map<string, Value>, kind: string, side: string, neg: string, noCase: bool, protect: string -> string): (r: QueryState)
    requires forall k :: 0 <= k < |keys| ==> keys[k] in vals
    ensures |r.where| >= |q.where|
    ensures r.where[..|q.where|] == q.where
    ensures |keys| > 0 ==> !r.groupStarted
    ensures |keys| == 0 ==> r == q
    ensures r.select == q.select && r.joins == q.joins && r.orderBy == q.orderBy && r.related == q.related
    decreases |keys|
  {
    if |keys| == 0 then q
    else
      var (f, m) := LikeTerm(keys[0], vals[keys[0]], side, neg, noCase, protect);
      var q1 := WhereOne(d, q, f, Str(m), kind);
      var r := LikeEach(d, q1, keys[1..], vals, kind, side, neg, noCase, protect);
      assert r.where[..|q.where|] == r.where[..|q1.where|][..|q.where|];
      r
  }

  /** _like($field, $match, $type, $side, $not, $no_case): one _where call per field. */
  function Like(d: Descriptor, q: QueryState, fields: Dict<string, Value>, kind: string, side: string, neg: string, noCase: bool, protect: string -> string): (r: QueryState)
    requires fields.Valid()
    ensures |r.where| >= |q.where| && r.where[..|q.where|] == q.where
  {
    var named := Renamed(d, fields);
    LikeEach(d, q, named.keys, named.vals, kind, side, neg, noCase, protect)
  }

  // ---------------------------------------------------------------------------
  // SELECT and ORDER BY

  /** The pieces CodeIgniter's select() keeps: each comma-separated piece trimmed, empty ones dropped. */
  function SelectPieces(parts: seq<string>): (r: seq<string>)
    ensures forall i :: 0 <= i < |r| ==> r[i] != ""
    ensures |r| <= |parts|
  {
    if |parts| == 0 then []
    else if Trim(parts[0]) != "" then [Trim(parts[0])] + SelectPieces(parts[1..])
    else SelectPieces(parts[1..])
  }

  /** CodeIgniter's select(): the text is split at commas and every non-empty trimmed piece appended. */
  function DbSelect(q: QueryState, text: string): (r: QueryState)
    ensures r == q.(select := r.select)
    ensures |r.select| >= |q.select| && r.select[..|q.select|] == q.select
    ensures forall i :: |q.select| <= i < |r.select| ==> r.select[i] != ""
  {
    q.(select := q.select + SelectPieces(Split(text, ",")))
  }

  /** select($select, $escape): the list is qualified unless escaping is switched off. */
  function SelectFields(d: Descriptor, q: QueryState, sel: string, escape: bool): QueryState {
    DbSelect(q, if escape then Qualify(d, sel) else sel)
  }

  /**
   * select('*') adds the single entry 'table.*', which leaves room for the
   * default ordering whatever the identifier protection does.
   */
  lemma SelectStar(d: Descriptor, q: QueryState, protect: string -> string)
    requires !HasChar(d.table, ',') && (|d.table| == 0 || !IsSpace(d.table[0]))
    ensures SelectFields(d, q, "*", true) == q.(select := q.select + [d.table + ".*"])
    ensures SelectsAll(d, SelectFields(d, q, "*", true), protect)
  {
    StarQualified(d.table, d.fields);
    var t := d.table + ".*";
    assert !HasChar(t, ',') by {
      forall i | 0 <= i < |t| ensures t[i] != ',' {
        if i < |d.table| {
          assert t[i] == d.table[i];
        }
      }
    }
    assert t[0] == (if |d.table| == 0 then '.' else d.table[0]);
    SelectOne(q, t);
    TextInAppended(t, q.select);
  }

  /** A single piece without commas or surrounding blanks is appended as it is. */
  lemma SelectOne(q: QueryState, t: string)
    requires !HasChar(t, ',') && |t| > 0 && !IsSpace(t[0]) && !IsSpace(t[|t| - 1])
    ensures DbSelect(q, t) == q.(select := q.select + [t])
  {
    NoCommaNotFound(t);
    LTrimKeeps(t);
    RTrimKeeps(t);
    assert SelectPieces([t]) == [t];
  }

  /** A LEFT OUTER JOIN added only when its alias is not yet in _query_related, and recorded there. */
  function JoinOnce(q: QueryState, alias: string, target: string, on: string): (r: QueryState)
    ensures TextIn(alias, r.related)
    ensures TextIn(alias, q.related) ==> r == q
    ensures !TextIn(alias, q.related) ==>
      r == q.(joins := q.joins + [JoinClause(target, on, "LEFT OUTER")], related := q.related + [alias])
  {
    if TextIn(alias, q.related) then q
    else
      TextInAppended(alias, q.related);
      q.(joins := q.joins + [JoinClause(target, on, "LEFT OUTER")], related := q.related + [alias])
  }

  /** order_by($orderby, $direction). */
  function OrderBy(d: Descriptor, q: QueryState, field: string, direction: string): (r: QueryState)
    ensures r.orderBy == q.orderBy + [(Qualify(d, field), direction)]
    ensures r.where == q.where && r.select == q.select
  {
    q.(orderBy := q.orderBy + [(Qualify(d, field), direction)])
  }

  /** One default_order_by entry as (field, direction): an integer key means a bare field with no direction. */
  function OrderPair(e: OrderEntry): (string, string) {
    if e.key.Positional? then (e.value, "") else (KeyText(e.key), e.value)
  }

  /** The ORDER BY entry one default_order_by entry becomes: qualified by the loop, then again by order_by. */
  function DefaultOrder(d: Descriptor, e: OrderEntry): (string, string) {
    (Qualify(d, Qualify(d, OrderPair(e).0)), OrderPair(e).1)
  }

  function DefaultOrderList(d: Descriptor, entries: seq<OrderEntry>): (r: seq<(string, string)>)
    ensures |r| == |entries|
    ensures forall j :: 0 <= j < |entries| ==> r[j] == DefaultOrder(d, entries[j])
  {
    seq(|entries|, j requires 0 <= j < |entries| => DefaultOrder(d, entries[j]))
  }

  lemma DefaultOrderListCons(d: Descriptor, prior: seq<(string, string)>, entries: seq<OrderEntry>)
    requires |entries| > 0
    ensures prior + DefaultOrderList(d, entries) == prior + [DefaultOrder(d, entries[0])] + DefaultOrderList(d, entries[1..])
  {
    assert DefaultOrderList(d, entries) == [DefaultOrder(d, entries[0])] + DefaultOrderList(d, entries[1..]);
  }

  /** The loop of _handle_default_order_by: one order_by call per entry, in order. */
  function DefaultOrders(d: Descriptor, q: QueryState, entries: seq<OrderEntry>): (r: QueryState)
    ensures r == q.(orderBy := q.orderBy + DefaultOrderList(d, entries))
    decreases |entries|
  {
    if |entries| == 0 then
      assert q.orderBy + DefaultOrderList(d, entries) == q.orderBy;
      q
    else
      var p := OrderPair(entries[0]);
      var q1 := OrderBy(d, q, Qualify(d, p.0), p.1);
      DefaultOrderListCons(d, q.orderBy, entries);
      DefaultOrders(d, q1, entries[1..])
  }

  /** Whether the SELECT list leaves room for the default ordering: empty, or holding *, table.* or its protected form. */
  predicate SelectsAll(d: Descriptor, q: QueryState, protect: string -> string) {
    |q.select| == 0
    || TextIn("*", q.select)
    || TextIn(protect(d.table + ".*"), q.select)
    || TextIn(d.table + ".*", q.select)
  }

  /** _handle_default_order_by. */
  function HandleDefaultOrderBy(d: Descriptor, q: QueryState, protect: string -> string): (r: QueryState)
    ensures r.where == q.where && r.select == q.select
    ensures |d.settings.defaultOrderBy| > 0 && |q.orderBy| == 0 && SelectsAll(d, q, protect)
      ==> r == DefaultOrders(d, q, d.settings.defaultOrderBy)
    ensures !(|d.settings.defaultOrderBy| > 0 && |q.orderBy| == 0 && SelectsAll(d, q, protect)) ==> r == q
  {
    if |d.settings.defaultOrderBy| == 0 then q
    else if |q.orderBy| == 0 && SelectsAll(d, q, protect) then DefaultOrders(d, q, d.settings.defaultOrderBy)
    else q
  }

  /**
   * The default ordering, when it applies, puts every entry in order, each field
   * qualified exactly as a single add_table_name would (the second pass is idle).
   */
  lemma DefaultOrderQualifiedOnce(d: Descriptor, q: QueryState, protect: string -> string, j: nat)
    requires |d.settings.defaultOrderBy| > 0 && |q.orderBy| == 0 && SelectsAll(d, q, protect)
    requires j < |d.settings.defaultOrderBy|
    requires var f := OrderPair(d.settings.defaultOrderBy[j]).0;
      forall k :: 0 <= k < |Split(f, ",")| ==> LTrim(Split(f, ",")[k]) != "0"
    ensures var r := HandleDefaultOrderBy(d, q, protect);
      |r.orderBy| == |d.settings.defaultOrderBy|
      && r.orderBy[j] == (Qualify(d, OrderPair(d.settings.defaultOrderBy[j]).0), OrderPair(d.settings.defaultOrderBy[j]).1)
  {
    AddTableNameIdempotent(d.table, d.fields, OrderPair(d.settings.defaultOrderBy[j]).0);
  }

  // ---------------------------------------------------------------------------
  // The connective invariant

  /** Every condition or group opening after the first, and not straight after an opening, carries a connective. */
  predicate Connected(ws: seq<WhereItem>) {
    forall i :: 0 < i < |ws| && !ws[i - 1].Open? ==>
      (ws[i].Clause? ==> ws[i].prefix != "")
      && (ws[i].InList? ==> ws[i].prefix != "")
      && (ws[i].Open? ==> ws[i].prefix != "")
  }

  /** The builder's state is well formed: connected, and the group flag is up only right after an opening. */
  predicate WellConnected(q: QueryState) {
    Connected(q.where) && (q.groupStarted ==> |q.where| > 0 && q.where[|q.where| - 1].Open?)
  }

  /** Appending an item keeps the list connected when the item has a connective wherever one is needed. */
  lemma AppendConnected(ws: seq<WhereItem>, w: WhereItem)
    requires Connected(ws)
    requires |ws| > 0 && !ws[|ws| - 1].Open? && (w.Clause? || w.InList? || w.Open?) ==> w.prefix != ""
    ensures Connected(ws + [w])
  {
    var r := ws + [w];
    forall i | 0 < i < |r| && !r[i - 1].Open?
      ensures (r[i].Clause? ==> r[i].prefix != "") && (r[i].InList? ==> r[i].prefix != "") && (r[i].Open? ==> r[i].prefix != "")
    {
      if i < |ws| {
        assert r[i] == ws[i] && r[i - 1] == ws[i - 1];
      } else {
        assert r[i] == w && r[i - 1] == ws[|ws| - 1];
      }
    }
  }

  lemma GroupStartConnected(q: QueryState, neg: string, kind: string)
    requires WellConnected(q) && kind != ""
    ensures WellConnected(GroupStart(q, neg, kind))
  {
    AppendConnected(q.where, GroupStart(q, neg, kind).where[|q.where|]);
  }

  lemma GroupEndConnected(q: QueryState)
    requires WellConnected(q)
    ensures WellConnected(GroupEnd(q))
  {
    AppendConnected(q.where, Close);
  }

  lemma WhereInConnected(d: Descriptor, q: QueryState, key: string, values: seq<Value>, negated: bool, kind: string)
    requires WellConnected(q) && kind != ""
    ensures WellConnected(WhereIn(d, q, key, values, negated, kind))
  {
    AppendConnected(q.where, WhereIn(d, q, key, values, negated, kind).where[|q.where|]);
  }

  /** Every LIKE field goes through a single-key where, so LIKE keeps the builder connected. */
  lemma {:induction false} LikeEachConnected(d: Descriptor, q: QueryState, keys: seq<string>, vals: map<string, Value>, kind: string, side: string, neg: string, noCase: bool, protect: string -> string)
    requires forall k :: 0 <= k < |keys| ==> keys[k] in vals
    requires WellConnected(q) && kind != ""
    ensures WellConnected(LikeEach(d, q, keys, vals, kind, side, neg, noCase, protect))
    decreases |keys|
  {
    if |keys| > 0 {
      var (f, m) := LikeTerm(keys[0], vals[keys[0]], side, neg, noCase, protect);
      WhereConnected(d, q, Single(f, Str(m)), kind);
      LikeEachConnected(d, WhereOne(d, q, f, Str(m), kind), keys[1..], vals, kind, side, neg, noCase, protect);
    }
  }

  lemma LikeConnected(d: Descriptor, q: QueryState, fields: Dict<string, Value>, kind: string, side: string, neg: string, noCase: bool, protect: string -> string)
    requires fields.Valid() && WellConnected(q) && kind != ""
    ensures WellConnected(Like(d, q, fields, kind, side, neg, noCase, protect))
  {
    var named := Renamed(d, fields);
    LikeEachConnected(d, q, named.keys, named.vals, kind, side, neg, noCase, protect);
  }
}
