/**
 * What a model class declares once it has been normalised: its table, columns,
 * validation entries, relationships and field tracking. One Descriptor is shared
 * by every instance of a class.
 */
module Models {
  import opened Results
  import opened PhpValues
  import opened Strings
  import opened Dicts

  /** A PHP array key as written in a declaration: a string key or an integer position. */
  datatype RawKey = Named(name: string) | Positional(index: int)

  /** The key as PHP turns it into a string (an integer key prints in decimal). */
  function KeyText(k: RawKey): string {
    match k
    case Named(n) => n
    case Positional(i) => IntToStr(i)
  }

  /** A normalised relationship: the related class and how each side is named in join columns. */
  datatype RelationSpec = RelationSpec(cls: string, otherField: string, joinSelfAs: string, joinOtherAs: string)

  /** join_self_as . '_id': the column that points at this side. */
  function SelfColumn(spec: RelationSpec): string {
    spec.joinSelfAs + "_id"
  }

  /** join_other_as . '_id': the column that points at the related side. */
  function OtherColumn(spec: RelationSpec): string {
    spec.joinOtherAs + "_id"
  }

  /** A rule parameter: a scalar or an array of scalars. */
  datatype RuleParam = Scalar(v: Value) | Items(vs: seq<Value>)

  /** One element of a rules array: `'required'` or `'min_size' => 3`. */
  datatype RuleEntry = Bare(rule: string) | Keyed(rule: string, param: RuleParam)

  /** The parameter a rule runs with: a bare rule gets the empty string. */
  function RuleArg(e: RuleEntry): RuleParam {
    match e
    case Bare(_) => Scalar(Str(""))
    case Keyed(_, p) => p
  }

  /** The array element in_array sees: a bare rule's name, a keyed rule's scalar parameter, nothing for an array parameter. */
  function RuleValue(e: RuleEntry): Option<Value> {
    match e
    case Bare(r) => Some(Str(r))
    case Keyed(_, Scalar(v)) => Some(v)
    case Keyed(_, Items(_)) => None
  }

  /** in_array($name, $rules): loose comparison against the array's values, not its keys. */
  predicate RulesMention(rules: seq<RuleEntry>, name: string) {
    exists k :: 0 <= k < |rules| && RuleValue(rules[k]).Some? && LooseEq(Str(name), RuleValue(rules[k]).value)
  }

  /** The parameter of the keyed rule `name`, when it is set (isset($rules[$name])). */
  function KeyedParam(rules: seq<RuleEntry>, name: string): (r: Option<RuleParam>)
    ensures r.Some? ==> exists k :: 0 <= k < |rules| && rules[k] == Keyed(name, r.value)
    ensures r.Some? ==> r.value != Scalar(Null)
    ensures r.None? ==> forall k :: 0 <= k < |rules| && rules[k].Keyed? && rules[k].rule == name ==> rules[k].param == Scalar(Null)
  {
    if |rules| == 0 then None
    else if rules[0].Keyed? && rules[0].rule == name && rules[0].param != Scalar(Null) then Some(rules[0].param)
    else KeyedParam(rules[1..], name)
  }

  /** A parameter used as text: an array parameter reads as "Array", as PHP's string conversion does. */
  function ParamText(p: RuleParam): string {
    match p
    case Scalar(v) => ToStr(v)
    case Items(_) => "Array"
  }

  datatype ValidationEntry = ValidationEntry(field: string, fieldLabel: string, rules: seq<RuleEntry>, getRules: Option<seq<RuleEntry>>)

  /** _field_tracking: fields with get-rules, confirm-style matches, and fields forced to integers on load. */
  datatype FieldTracking = FieldTracking(getRules: seq<string>, matches: Dict<string, string>, intval: seq<string>)

  /** One default_order_by element: `'name' => 'desc'` or a bare `'updated'`. */
  datatype OrderEntry = OrderEntry(key: RawKey, value: string)

  /** The per-model settings (instance properties loaded from configuration). */
  datatype Settings = Settings(
    createdField: string,
    updatedField: string,
    errorPrefix: string,
    errorSuffix: string,
    autoPopulateHasOne: bool,
    autoPopulateHasMany: bool,
    allArrayUsesIds: bool,
    defaultOrderBy: seq<OrderEntry>,
    freeResultThreshold: int)

  datatype Descriptor = Descriptor(
    cls: string,
    model: string,
    table: string,
    prefix: string,
    joinPrefix: string,
    fields: seq<string>,
    validation: Dict<string, ValidationEntry>,
    hasOne: Dict<string, RelationSpec>,
    hasMany: Dict<string, RelationSpec>,
    tracking: FieldTracking,
    settings: Settings)

  /** The related-object arrays are consulted has_many first, then has_one. */
  function RelationOf(d: Descriptor, rf: string): (r: Option<RelationSpec>)
    ensures r.Some? <==> d.hasMany.Has(rf) || d.hasOne.Has(rf)
    ensures d.hasMany.Has(rf) ==> r == Some(d.hasMany.vals[rf])
    ensures !d.hasMany.Has(rf) && d.hasOne.Has(rf) ==> r == Some(d.hasOne.vals[rf])
  {
    if d.hasMany.Has(rf) then Some(d.hasMany.vals[rf])
    else if d.hasOne.Has(rf) then Some(d.hasOne.vals[rf])
    else None
  }

  predicate IsRelated(d: Descriptor, rf: string) {
    d.hasMany.Has(rf) || d.hasOne.Has(rf)
  }
}
