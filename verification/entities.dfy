/**
 * The in-memory side of a DataMapper object: its current property values, the
 * stored snapshot used to detect changes, the `all` list of loaded rows, the
 * error object, and the flags the lifecycle consults. Covers turning rows into
 * objects (_to_object, _process_query), the snapshot refresh, _to_array,
 * clear, refresh_all, exists and error_message.
 */
module Entities {
  import opened Results
  import opened Strings
  import opened PhpValues
  import opened Dicts
  import opened Models
  import opened Store

  // ---------------------------------------------------------------------------
  // DM_Error_Object and error_message

  /** The error object: every message in order, their concatenation, and the last message per field. */
  datatype ErrorObject = ErrorObject(all: seq<string>, text: string, byField: map<string, string>)

  const NoErrors: ErrorObject := ErrorObject([], "", map[])

  /** $error->field: a field without a message reads as the empty string. */
  function ErrorFor(e: ErrorObject, field: string): string {
    if field in e.byField then e.byField[field] else ""
  }

  /** error_message($field, $error): both must be non-empty; the message is wrapped in the configured prefix and suffix. */
  function ErrorMessage(s: Settings, e: ErrorObject, field: string, error: string): (r: ErrorObject)
    ensures EmptyText(field) || EmptyText(error) ==> r == e
    ensures !EmptyText(field) && !EmptyText(error) ==>
      var m := s.errorPrefix + error + s.errorSuffix;
      r.all == e.all + [m] && r.text == e.text + m && ErrorFor(r, field) == m
      && forall other :: other != field ==> ErrorFor(r, other) == ErrorFor(e, other)
  {
    if EmptyText(field) || EmptyText(error) then e
    else
      var m := s.errorPrefix + error + s.errorSuffix;
      ErrorObject(e.all + [m], e.text + m, e.byField[field := m])
  }

  // ---------------------------------------------------------------------------
  // The object

  /** A property bag and its stored snapshot: one loaded object, as kept in `all`. */
  datatype Item = Item(props: Row, stored: Row)

  const Fresh: Item := Item(map[], map[])

  /** The parent a related object was reached from. */
  datatype Parent = Parent(model: string, id: Value)

  /**
   * A DataMapper object. `streamed` is the row count of a dataset iterator
   * attached by get_iterated, if any; `forceNew` is the public
   * force_save_as_new and `forceNewInternal` the protected _force_save_as_new.
   */
  datatype Entity = Entity(
    item: Item,
    all: Dict<int, Item>,
    error: ErrorObject,
    valid: bool,
    validated: bool,
    forceNew: bool,
    forceNewInternal: bool,
    parent: Option<Parent>,
    queryRelated: seq<string>,
    streamed: Option<nat>)

  /** A newly constructed object of some model. */
  const NewEntity: Entity := Entity(Fresh, EmptyDict(), NoErrors, false, false, false, false, None, [], None)

  function Prop(e: Entity, f: string): Value {
    Col(e.item.props, f)
  }

  // ---------------------------------------------------------------------------
  // _to_array

  /** _to_array($validate): the declared fields and their values; with `validate`, only the set ones. */
  function ToArray(fields: seq<string>, props: Row, validate: bool): (r: Dict<string, Value>)
    ensures r.Valid()
    ensures forall f :: f in r.vals ==> f in fields && r.vals[f] == Col(props, f) && (validate ==> IsSet(Col(props, f)))
    ensures forall f :: f in fields && (!validate || IsSet(Col(props, f))) ==> f in r.vals
    ensures (forall i, j :: 0 <= i < j < |fields| ==> fields[i] != fields[j]) && !validate ==> r.keys == fields
  {
    if |fields| == 0 then EmptyDict()
    else
      var init := fields[..|fields| - 1];
      var f := fields[|fields| - 1];
      var m := ToArray(init, props, validate);
      assert fields == init + [f];
      if validate && !IsSet(Col(props, f)) then m else Put(m, f, Col(props, f))
  }

  // ---------------------------------------------------------------------------
  // _to_object

  /** Copy the row over the properties, then set every declared field the row lacks (or holds NULL) to NULL. */
  function LoadRow(fields: seq<string>, props: Row, row: Row): (r: Row)
    ensures forall f :: f in fields ==> Col(r, f) == Col(row, f)
    ensures forall k :: k in row ==> Col(r, k) == row[k]
    ensures forall k :: k !in row && k !in fields ==> Col(r, k) == Col(props, k)
  {
    if |fields| == 0 then props + row
    else
      var init := fields[..|fields| - 1];
      var f := fields[|fields| - 1];
      var m := LoadRow(init, props, row);
      assert fields == init + [f];
      if !IsSet(Col(row, f)) then m[f := Null] else m
  }

  /** The intval tracking: every tracked field that is set becomes an integer; unset ones stay unset. */
  function ForceInts(intval: seq<string>, props: Row): (r: Row)
    ensures forall f :: f in intval && IsSet(Col(props, f)) ==> Col(r, f) == Int(IntVal(Col(props, f)))
    ensures forall f :: f in intval && !IsSet(Col(props, f)) ==> Col(r, f) == Col(props, f)
    ensures forall k :: k !in intval ==> Col(r, k) == Col(props, k)
  {
    if |intval| == 0 then props
    else
      var init := intval[..|intval| - 1];
      var f := intval[|intval| - 1];
      var m := ForceInts(init, props);
      assert intval == init + [f];
      if IsSet(Col(m, f)) then m[f := Int(IntVal(Col(m, f)))] else m
  }

  /** Forcing integers twice changes nothing the first pass did not. */
  lemma ForceIntsIdempotent(intval: seq<string>, props: Row)
    ensures forall k :: Col(ForceInts(intval, ForceInts(intval, props)), k) == Col(ForceInts(intval, props), k)
  {
    var once := ForceInts(intval, props);
    forall k ensures Col(ForceInts(intval, once), k) == Col(once, k) {
      if k in intval && IsSet(Col(once, k)) {
        assert once[k] == Int(IntVal(Col(props, k)));
      }
    }
  }

  /**
   * A get-rule, run on a field: the DataMapper, extension and form-validation
   * rules and PHP functions the ORM dispatches to, as one opaque transformation
   * of the properties.
   */
  type RuleHook = (string, RuleParam, string, Row) -> Row

  /** One rule run by _run_get_rules: the rule, its parameter and the field it ran on. */
  datatype RuleCall = RuleCall(rule: string, param: RuleParam, field: string)

  /** The rules of a run, and the properties after it. */
  datatype GetRun = GetRun(props: Row, calls: seq<RuleCall>)

  function GetRulesOf(d: Descriptor, field: string): seq<RuleEntry> {
    if field in d.validation.vals && d.validation.vals[field].getRules.Some? then d.validation.vals[field].getRules.value else []
  }

  /**
   * The field a field's get-rules run on: the field itself when it is set or
   * allow_null is among its rules; for an unset has_one name, its `_id` column
   * when that is set; otherwise the rules are skipped.
   */
  function GetRuleTarget(d: Descriptor, props: Row, field: string, rules: seq<RuleEntry>): (r: Option<string>)
    ensures r.None? <==> !IsSet(Col(props, field)) && !RulesMention(rules, "allow_null")
                         && (!d.hasOne.Has(field) || !IsSet(Col(props, field + "_id")))
    ensures r.Some? ==> IsSet(Col(props, r.value)) || RulesMention(rules, "allow_null")
    ensures r.Some? && r.value != field ==> d.hasOne.Has(field) && r.value == field + "_id"
  {
    if IsSet(Col(props, field)) || RulesMention(rules, "allow_null") then Some(field)
    else if d.hasOne.Has(field) && IsSet(Col(props, field + "_id")) then Some(field + "_id")
    else None
  }

  /** The rule chain of one field; allow_null is a marker and never runs. */
  function RunFieldRules(rules: seq<RuleEntry>, field: string, props: Row, hook: RuleHook): (r: GetRun)
    ensures forall k :: 0 <= k < |r.calls| ==> !TextEq(r.calls[k].rule, "allow_null") && r.calls[k].field == field
    ensures |r.calls| <= |rules|
  {
    if |rules| == 0 then GetRun(props, [])
    else
      var e := rules[0];
      if TextEq(e.rule, "allow_null") then RunFieldRules(rules[1..], field, props, hook)
      else
        var rest := RunFieldRules(rules[1..], field, hook(e.rule, RuleArg(e), field, props), hook);
        GetRun(rest.props, [RuleCall(e.rule, RuleArg(e), field)] + rest.calls)
  }

  /** _run_get_rules over the tracked fields, in order; each field's target is chosen from the properties as they stand then. */
  function RunGetRules(d: Descriptor, tracked: seq<string>, props: Row, hook: RuleHook): (r: GetRun)
    ensures forall k :: 0 <= k < |r.calls| ==> !TextEq(r.calls[k].rule, "allow_null")
    ensures |tracked| > 0 && GetRuleTarget(d, props, tracked[0], GetRulesOf(d, tracked[0])).None? ==>
      r == RunGetRules(d, tracked[1..], props, hook)
  {
    if |tracked| == 0 then GetRun(props, [])
    else
      var field := tracked[0];
      var rules := GetRulesOf(d, field);
      match GetRuleTarget(d, props, field, rules)
      case None => RunGetRules(d, tracked[1..], props, hook)
      case Some(target) =>
        var here := RunFieldRules(rules, target, props, hook);
        var rest := RunGetRules(d, tracked[1..], here.props, hook);
        GetRun(rest.props, here.calls + rest.calls)
  }

  /** Set the stored copy of every declared field to its current value. */
  function StoreFields(fields: seq<string>, props: Row, stored: Row): (r: Row)
    ensures forall f :: f in fields ==> Col(r, f) == Col(props, f)
    ensures forall k :: k !in fields ==> Col(r, k) == Col(stored, k)
  {
    if |fields| == 0 then stored
    else
      var init := fields[..|fields| - 1];
      var f := fields[|fields| - 1];
      assert fields == init + [f];
      StoreFields(init, props, stored)[f := Col(props, f)]
  }

  /** For each `matches` pair, in order, the field and its stored copy take the matched field's current value. */
  function ApplyMatches(names: seq<string>, matches: Dict<string, string>, props: Row, stored: Row): (r: Item)
    ensures forall k :: k !in names || k !in matches.vals ==> Col(r.props, k) == Col(props, k) && Col(r.stored, k) == Col(stored, k)
    ensures forall k :: k in names && k in matches.vals ==> Col(r.props, k) == Col(r.stored, k)
    decreases |names|
  {
    if |names| == 0 then Item(props, stored)
    else
      var init := names[..|names| - 1];
      var f := names[|names| - 1];
      var m := ApplyMatches(init, matches, props, stored);
      assert names == init + [f];
      if f in matches.vals then
        var v := Col(m.props, matches.vals[f]);
        Item(m.props[f := v], m.stored[f := v])
      else m
  }

  /** _refresh_stored_values. */
  function Refresh(d: Descriptor, item: Item): (r: Item)
    ensures forall f :: f in d.fields ==> Col(r.stored, f) == Col(r.props, f)
    ensures forall f :: f in d.tracking.matches.keys && f in d.tracking.matches.vals ==> Col(r.stored, f) == Col(r.props, f)
    ensures forall k :: k !in d.tracking.matches.keys ==> Col(r.props, k) == Col(item.props, k)
  {
    var stored := StoreFields(d.fields, item.props, item.stored);
    ApplyMatches(d.tracking.matches.keys, d.tracking.matches, item.props, stored)
  }

  /**
   * With no chained matches (no matched field is itself matched to another),
   * each matched field ends with its partner's value from before the refresh.
   */
  lemma {:induction false} MatchesCopyPartner(names: seq<string>, matches: Dict<string, string>, props: Row, stored: Row)
    requires forall k :: k in matches.vals ==> matches.vals[k] !in names
    ensures forall k :: k in names && k in matches.vals ==>
      Col(ApplyMatches(names, matches, props, stored).props, k) == Col(props, matches.vals[k])
    decreases |names|
  {
    if |names| > 0 {
      var init := names[..|names| - 1];
      assert names == init + [names[|names| - 1]];
      MatchesCopyPartner(init, matches, props, stored);
    }
  }

  /** _to_object($item, $row): load the row, force integers, run get-rules when any are tracked, refresh the snapshot. */
  function ToObject(d: Descriptor, item: Item, row: Row, hook: RuleHook): (r: Item)
    ensures forall f :: f in d.fields ==> Col(r.stored, f) == Col(r.props, f)
  {
    var loaded := LoadRow(d.fields, item.props, row);
    var ints := ForceInts(d.tracking.intval, loaded);
    var ruled := if |d.tracking.getRules| > 0 then RunGetRules(d, d.tracking.getRules, ints, hook).props else ints;
    Refresh(d, Item(ruled, item.stored))
  }

  /**
   * Without get-rules or matches, a loaded object holds exactly the row's
   * values for its declared fields (integers for tracked ones), every other row
   * column as it came, and a snapshot equal to them: nothing reads as changed.
   */
  lemma LoadedFromRow(d: Descriptor, item: Item, row: Row, hook: RuleHook)
    requires |d.tracking.getRules| == 0 && d.tracking.matches.keys == []
    ensures var r := ToObject(d, item, row, hook);
      (forall f :: f in d.fields && f !in d.tracking.intval ==> Col(r.props, f) == Col(row, f))
      && (forall f :: f in d.fields && f in d.tracking.intval ==>
            Col(r.props, f) == (if IsSet(Col(row, f)) then Int(IntVal(Col(row, f))) else Null))
      && (forall k :: k in row && k !in d.tracking.intval ==> Col(r.props, k) == row[k])
      && (forall f :: f in d.fields ==> Col(r.stored, f) == Col(r.props, f))
  {
  }

  // ---------------------------------------------------------------------------
  // _process_query

  /** The largest integer key, if any. */
  function MaxKey(keys: seq<int>): (r: Option<int>)
    ensures r.None? <==> |keys| == 0
    ensures r.Some? ==> r.value in keys && forall k :: k in keys ==> k <= r.value
  {
    if |keys| == 0 then None
    else
      var rest := MaxKey(keys[1..]);
      assert forall k :: k in keys ==> k == keys[0] || k in keys[1..];
      if rest.None? || keys[0] >= rest.value then Some(keys[0]) else rest
  }

  /** The key $all[] = ... uses: one past the largest key, and never below 0. */
  function NextIndex<V>(all: Dict<int, V>): (r: int)
    ensures r >= 0 && forall k :: k in all.keys ==> k < r
  {
    match MaxKey(all.keys)
    case None => 0
    case Some(m) => if m + 1 > 0 then m + 1 else 0
  }

  /** The key an object goes into `all` under: its id with all_array_uses_ids, else the next index. */
  function AllKey(d: Descriptor, all: Dict<int, Item>, item: Item): int {
    if d.settings.allArrayUsesIds && IsSet(Col(item.props, "id")) then IntVal(Col(item.props, "id")) else NextIndex(all)
  }

  /** Each later row becomes a fresh object of the model. */
  function Objects(d: Descriptor, rows: seq<Row>, hook: RuleHook): (r: seq<Item>)
    ensures |r| == |rows| && forall i :: 0 <= i < |rows| ==> r[i] == ToObject(d, Fresh, rows[i], hook)
  {
    seq(|rows|, i requires 0 <= i < |rows| => ToObject(d, Fresh, rows[i], hook))
  }

  /** The objects are added to `all` in order. */
  function AddItems(d: Descriptor, all: Dict<int, Item>, items: seq<Item>): (r: Dict<int, Item>)
    requires all.Valid()
    ensures r.Valid()
    decreases |items|
  {
    if |items| == 0 then all
    else AddItems(d, Put(all, AllKey(d, all, items[0]), items[0]), items[1..])
  }

  /**
   * _process_query: the first row loads into this object and a copy of it goes
   * first into `all` (under its id with all_array_uses_ids); later rows follow.
   * With no rows only the snapshot is refreshed, and `all` is left as it was.
   */
  function ProcessQuery(d: Descriptor, e: Entity, rows: seq<Row>, hook: RuleHook): (r: Entity)
    ensures |rows| == 0 ==> r == e.(item := Refresh(d, e.item))
    ensures |rows| > 0 ==> r.item == ToObject(d, e.item, rows[0], hook) && r.all.Valid()
    ensures |rows| > 0 ==> AllKey(d, EmptyDict(), r.item) in r.all.vals
  {
    if |rows| == 0 then e.(item := Refresh(d, e.item))
    else
      var first := ToObject(d, e.item, rows[0], hook);
      var start := Put(EmptyDict(), AllKey(d, EmptyDict(), first), first);
      var all := AddItems(d, start, Objects(d, rows[1..], hook));
      AddItemsKeeps(d, start, Objects(d, rows[1..], hook), AllKey(d, EmptyDict(), first));
      e.(item := first, all := all)
  }

  lemma {:induction false} AddItemsKeeps(d: Descriptor, all: Dict<int, Item>, items: seq<Item>, k: int)
    requires all.Valid() && k in all.vals
    ensures k in AddItems(d, all, items).vals
    decreases |items|
  {
    if |items| > 0 {
      AddItemsKeeps(d, Put(all, AllKey(d, all, items[0]), items[0]), items[1..], k);
    }
  }

  /** The keys 0 .. n-1 in order. */
  function Upto(n: nat): (r: seq<int>)
    ensures |r| == n && forall i :: 0 <= i < n ==> r[i] == i
    ensures forall k :: k in r ==> 0 <= k < n
  {
    if n == 0 then [] else Upto(n - 1) + [n - 1]
  }

  lemma NextIndexUpto<V>(all: Dict<int, V>, n: nat)
    requires all.keys == Upto(n)
    ensures NextIndex(all) == n
  {
    if n > 0 {
      assert all.keys[n - 1] == n - 1;
      assert n - 1 in all.keys;
      assert MaxKey(all.keys).value == n - 1;
    }
  }

  /** Without all_array_uses_ids, adding to a list keyed 0 .. n-1 continues the numbering. */
  lemma {:induction false} AddItemsReindexed(d: Descriptor, xs: seq<Item>, ys: seq<Item>)
    requires !d.settings.allArrayUsesIds
    ensures AddItems(d, Reindexed(xs), ys) == Reindexed(xs + ys)
    decreases |ys|
  {
    if |ys| > 0 {
      NextIndexUpto(Reindexed(xs), |xs|);
      assert (xs + [ys[0]])[..|xs|] == xs;
      assert Put(Reindexed(xs), |xs|, ys[0]) == Reindexed(xs + [ys[0]]);
      AddItemsReindexed(d, xs + [ys[0]], ys[1..]);
      ShiftFirst(xs, ys);
    }
  }

  lemma ShiftFirst<T>(xs: seq<T>, ys: seq<T>)
    requires |ys| > 0
    ensures xs + [ys[0]] + ys[1..] == xs + ys
  {
  }

  /**
   * Without all_array_uses_ids, a query of n rows leaves exactly n objects in
   * `all`, keyed 0 .. n-1: this object first, then each later row's object in row order.
   */
  lemma ProcessQueryAll(d: Descriptor, e: Entity, rows: seq<Row>, hook: RuleHook)
    requires !d.settings.allArrayUsesIds && |rows| > 0
    ensures var r := ProcessQuery(d, e, rows, hook);
      r.all == Reindexed([r.item] + Objects(d, rows[1..], hook))
  {
    var first := ToObject(d, e.item, rows[0], hook);
    assert AllKey(d, EmptyDict(), first) == 0;
    assert Put(EmptyDict<int, Item>(), 0, first) == Reindexed([first]) by {
      assert [first][..0] == [];
    }
    AddItemsReindexed(d, [first], Objects(d, rows[1..], hook));
  }

  // ---------------------------------------------------------------------------
  // clear, refresh_all, exists

  /**
   * clear(): empty `all`, the errors and the query's joined aliases, set every
   * declared field to NULL, drop the iterator, and rebuild the snapshot.
   */
  function Clear(d: Descriptor, e: Entity): (r: Entity)
    ensures r.all.keys == [] && r.all.Valid() && r.error == NoErrors && r.queryRelated == [] && r.streamed.None?
    ensures forall f :: f in d.fields ==> Col(r.item.stored, f) == Col(r.item.props, f)
    ensures forall f :: f in d.fields && f !in d.tracking.matches.keys ==> Col(r.item.props, f) == Null
  {
    var props := NullFields(d.fields, e.item.props);
    e.(all := EmptyDict(), error := NoErrors, queryRelated := [], streamed := None, item := Refresh(d, Item(props, map[])))
  }

  function NullFields(fields: seq<string>, props: Row): (r: Row)
    ensures forall f :: f in fields ==> Col(r, f) == Null
    ensures forall k :: k !in fields ==> Col(r, k) == Col(props, k)
  {
    if |fields| == 0 then props
    else
      var init := fields[..|fields| - 1];
      assert fields == init + [fields[|fields| - 1]];
      NullFields(init, props)[fields[|fields| - 1] := Null]
  }

  /** Every declared field is NULL. */
  predicate AllNull(fields: seq<string>, props: Row) {
    forall f :: f in fields ==> Col(props, f) == Null
  }

  /** When every matched field and every match target is a declared field, matching keeps all fields NULL. */
  lemma {:induction false} MatchesKeepNull(fields: seq<string>, names: seq<string>, matches: Dict<string, string>, props: Row, stored: Row)
    requires AllNull(fields, props)
    requires forall k :: k in matches.vals ==> k in fields && matches.vals[k] in fields
    ensures AllNull(fields, ApplyMatches(names, matches, props, stored).props)
    decreases |names|
  {
    if |names| > 0 {
      var init := names[..|names| - 1];
      var f := names[|names| - 1];
      MatchesKeepNull(fields, init, matches, props, stored);
      var m := ApplyMatches(init, matches, props, stored);
      if f in matches.vals {
        var v := Col(m.props, matches.vals[f]);
        assert v == Null;
        assert ApplyMatches(names, matches, props, stored).props == m.props[f := v];
        MatchNullStaysNull(fields, m.props, f);
      } else {
        assert ApplyMatches(names, matches, props, stored) == m;
      }
    }
  }

  lemma MatchNullStaysNull(fields: seq<string>, props: Row, f: string)
    requires AllNull(fields, props)
    ensures AllNull(fields, props[f := Null])
  {
    forall g | g in fields ensures Col(props[f := Null], g) == Null {
      if g != f {
        assert Col(props[f := Null], g) == Col(props, g);
      }
    }
  }

  /** When the matches rules pair declared fields, clear() leaves every declared field NULL. */
  lemma ClearNullsFields(d: Descriptor, e: Entity)
    requires forall k :: k in d.tracking.matches.vals ==> k in d.fields && d.tracking.matches.vals[k] in d.fields
    ensures AllNull(d.fields, Clear(d, e).item.props)
  {
    var props := NullFields(d.fields, e.item.props);
    var stored := StoreFields(d.fields, props, map[]);
    MatchesKeepNull(d.fields, d.tracking.matches.keys, d.tracking.matches, props, stored);
  }

  /** result_count(): the iterator's count when streaming, else the size of `all`. */
  function ResultCount(e: Entity): nat {
    match e.streamed
    case Some(n) => n
    case None => |e.all.keys|
  }

  /** exists(): a set id decides by being non-empty; without one, any loaded row counts. */
  function Exists(e: Entity): (r: bool)
    ensures IsSet(Prop(e, "id")) ==> (r <==> !Empty(Prop(e, "id")))
    ensures !IsSet(Prop(e, "id")) ==> (r <==> ResultCount(e) > 0)
  {
    if IsSet(Prop(e, "id")) then !Empty(Prop(e, "id")) else ResultCount(e) > 0
  }

  /** A cleared object does not exist, provided `id` is a declared field that no matches rule sets. */
  lemma ClearedDoesNotExist(d: Descriptor, e: Entity)
    requires "id" in d.fields && "id" !in d.tracking.matches.keys
    ensures !Exists(Clear(d, e))
  {
  }

  /** The objects of `all` in key order. */
  function ItemList(all: Dict<int, Item>): (r: seq<Item>)
    ensures |r| <= |all.keys|
    decreases |all.keys|
  {
    if |all.keys| == 0 then []
    else
      var rest := ItemList(Dict(all.keys[1..], all.vals));
      if all.keys[0] in all.vals then [all.vals[all.keys[0]]] + rest else rest
  }

  /** The objects whose id is not empty, in order. */
  function WithIds(items: seq<Item>): (r: seq<Item>)
    ensures |r| <= |items|
    ensures forall i :: 0 <= i < |r| ==> !Empty(Col(r[i].props, "id")) && r[i] in items
    ensures forall i :: 0 <= i < |items| && !Empty(Col(items[i].props, "id")) ==> items[i] in r
  {
    if |items| == 0 then []
    else if !Empty(Col(items[0].props, "id")) then [items[0]] + WithIds(items[1..])
    else WithIds(items[1..])
  }

  /** A list stored as $all[] = ... under 0, 1, 2, ... */
  function Reindexed(items: seq<Item>): (r: Dict<int, Item>)
    ensures r.Valid() && r.keys == Upto(|items|)
    ensures forall i :: 0 <= i < |items| ==> i in r.vals && r.vals[i] == items[i]
  {
    if |items| == 0 then EmptyDict()
    else
      var init := items[..|items| - 1];
      var m := Reindexed(init);
      assert |items| - 1 !in m.keys;
      Put(m, |items| - 1, items[|items| - 1])
  }

  /**
   * refresh_all(): drop the objects of `all` whose id is empty, renumbering the
   * rest from 0 in their order; FALSE (and no change) when `all` was empty.
   */
  function RefreshAll(e: Entity): (r: (Entity, bool))
    ensures r.1 <==> |e.all.keys| > 0
    ensures !r.1 ==> r.0 == e
    ensures r.1 ==> r.0 == e.(all := Reindexed(WithIds(ItemList(e.all))))
  {
    if |e.all.keys| == 0 then (e, false)
    else (e.(all := Reindexed(WithIds(ItemList(e.all)))), true)
  }

  /** After refresh_all every object left in `all` has an id, and refreshing again keeps the same list. */
  lemma RefreshAllSettles(e: Entity)
    requires RefreshAll(e).1
    ensures var e2 := RefreshAll(e).0;
      (forall k :: k in e2.all.vals ==> !Empty(Col(e2.all.vals[k].props, "id")))
      && RefreshAll(e2).0.all == e2.all
  {
    var items := WithIds(ItemList(e.all));
    var e2 := RefreshAll(e).0;
    forall k | k in e2.all.vals ensures !Empty(Col(e2.all.vals[k].props, "id")) {
      assert k in Upto(|items|);
      var i :| 0 <= i < |items| && Upto(|items|)[i] == k;
    }
    ReindexedList(items);
    WithIdsKeepsAll(items);
  }

  lemma {:induction false} ReindexedList(items: seq<Item>)
    ensures ItemList(Reindexed(items)) == items
  {
    var r := Reindexed(items);
    UptoList(r, 0, |items|, items);
  }

  lemma {:induction false} UptoList(r: Dict<int, Item>, from: nat, n: nat, items: seq<Item>)
    requires from <= n == |items|
    requires forall i :: 0 <= i < n ==> i in r.vals && r.vals[i] == items[i]
    ensures ItemList(Dict(Upto(n)[from..], r.vals)) == items[from..]
    decreases n - from
  {
    if from < n {
      UptoList(r, from + 1, n, items);
      assert Upto(n)[from..][1..] == Upto(n)[from + 1..];
      assert Upto(n)[from..][0] == from;
      assert items[from..] == [items[from]] + items[from + 1..];
    }
  }

  lemma {:induction false} WithIdsKeepsAll(items: seq<Item>)
    requires forall i :: 0 <= i < |items| ==> !Empty(Col(items[i].props, "id"))
    ensures WithIds(items) == items
  {
    if |items| > 0 {
      WithIdsKeepsAll(items[1..]);
    }
  }
}
