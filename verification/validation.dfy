/**
 * Validation: the validate() engine (which fields are checked, how each rule
 * is dispatched, the first failing rule's message, the `valid` flag), the
 * built-in rules it runs itself, the related-count rules, and skip_validation.
 */
module Validation {
  import opened Results
  import opened Strings
  import opened PhpValues
  import opened Dicts
  import opened Models
  import opened Context
  import opened Store
  import opened Entities
  import opened Relations
  import opened Counting

  // ---------------------------------------------------------------------------
  // Collaborators

  /**
   * The rule implementations validate() reaches outside this model: `_rule`
   * methods the model class (or the ORM, for the regex, date and HTML filters)
   * defines beyond the rules modelled here, `rule_*` extension methods, CI's
   * form validation library, plain PHP functions, the language file, and
   * sprintf. A method gets its own name ("_x" or "rule_x").
   */
  datatype Hooks = Hooks(
    ownRule: string -> bool,
    extensionRule: string -> bool,
    runMethod: (string, string, RuleParam, Row) -> (Value, Row),
    runRelatedMethod: (string, Option<Passed>, string, RuleParam) -> Value,
    formRule: string -> bool,
    runForm: (string, Value, RuleParam) -> Value,
    phpFunction: string -> bool,
    runPhp: (string, Value) -> Value,
    lang: string -> Option<string>,
    format: (string, string, string) -> string)

  /** Everything one validate() call sees besides the object itself. */
  datatype Ctx = Ctx(env: Env, hooks: Hooks, db: Db, d: Descriptor)

  /**
   * What running one rule gave: `$line` (FALSE unless a method returned it),
   * `$result` ('' unless something returned it), and the properties after it.
   */
  datatype Outcome = Outcome(line: Value, result: Value, props: Row)

  /** A rule reports an error when its method returned a string, or when the result is exactly FALSE. */
  predicate Fails(o: Outcome) {
    o.line.Str? || o.result == Bool(false)
  }

  /** A method's return value is both the line and the result. */
  function Returned(v: Value, props: Row): (o: Outcome)
    ensures Fails(o) <==> v.Str? || v == Bool(false)
  {
    Outcome(v, v, props)
  }

  /** TRUE or FALSE, as the built-in checks return. */
  function Verdict(ok: bool, props: Row): (o: Outcome)
    ensures Fails(o) <==> !ok
  {
    Returned(Bool(ok), props)
  }

  // ---------------------------------------------------------------------------
  // Built-in rules

  /** $value < $array: an array is greater than any scalar, except that NULL and booleans compare by truth. */
  predicate BelowArray(v: Value, vs: seq<Value>) {
    if v.Null? || v.Bool? then !ToBool(v) && |vs| > 0 else true
  }

  /** $value > $array. */
  predicate AboveArray(v: Value, vs: seq<Value>) {
    if v.Null? || v.Bool? then ToBool(v) && |vs| == 0 else false
  }

  /** The first row of a table holding `conds`, as get_where(..., 1, 0) returns it. */
  function FirstMatch(db: Db, table: string, conds: seq<Cond>): (r: Result<Option<Row>>)
    ensures r.Success? <==> Select(db, table, conds).Success?
    ensures r.Success? ==> (r.value.None? <==> |Select(db, table, conds).value| == 0)
    ensures r.Success? && r.value.Some? ==> r.value.value == Select(db, table, conds).value[0]
  {
    var rows :- Select(db, table, conds);
    if |rows| == 0 then Success(None) else Success(Some(rows[0]))
  }

  /** The value is taken by another object: the first matching row's id differs from this one's. */
  function TakenBy(found: Option<Row>, id: Value): bool {
    found.Some? && !LooseEq(id, Col(found.value, "id"))
  }

  /** _unique: a non-empty value no other row of the table holds. */
  function UniqueRule(db: Db, d: Descriptor, props: Row, field: string): (r: Result<Outcome>)
    ensures Empty(Col(props, field)) ==> r == Success(Verdict(true, props))
    ensures r.Success? ==> r.value.props == props
  {
    var v := Col(props, field);
    if Empty(v) then Success(Verdict(true, props))
    else
      var found :- FirstMatch(db, d.table, [Eq(field, v)]);
      Success(Verdict(!TakenBy(found, Col(props, "id")), props))
  }

  /** _unique_pair: the pair of values, both non-empty, held together by no other row. */
  function UniquePairRule(db: Db, d: Descriptor, props: Row, field: string, other: string): (r: Result<Outcome>)
    ensures Empty(Col(props, field)) || Empty(Col(props, other)) ==> r == Success(Verdict(true, props))
    ensures r.Success? ==> r.value.props == props
  {
    var v := Col(props, field);
    var w := Col(props, other);
    if Empty(v) || Empty(w) then Success(Verdict(true, props))
    else
      var found :- FirstMatch(db, d.table, [Eq(field, v), Eq(other, w)]);
      Success(Verdict(!TakenBy(found, Col(props, "id")), props))
  }

  /** _trim: a non-empty value is trimmed (and becomes a string); empty values are left alone. */
  function TrimRule(props: Row, field: string): (r: Row)
    ensures Empty(Col(props, field)) ==> r == props
    ensures !Empty(Col(props, field)) ==> r == props[field := Str(Trim(ToStr(Col(props, field))))]
  {
    var v := Col(props, field);
    if Empty(v) then props else props[field := Str(Trim(ToStr(v)))]
  }

  /** _boolean: the value is replaced by its truth value. */
  function BooleanRule(props: Row, field: string): (r: Row)
    ensures Col(r, field) == Bool(ToBool(Col(props, field)))
    ensures forall k :: k != field ==> Col(r, k) == Col(props, k)
  {
    props[field := Bool(ToBool(Col(props, field)))]
  }

  /** The rules the ORM itself implements as `_rule` methods and that are modelled here. */
  const BuiltInRules: seq<string> := ["always_validate", "matches", "min_size", "max_size", "unique", "unique_pair", "valid_match", "boolean", "trim"]

  /** The rules the ORM implements as `_related_rule` methods. */
  const RelatedRules: seq<string> := ["related_required", "related_min_size", "related_max_size"]

  /** A built-in rule on `$this->{$field}` with parameter `param`. */
  function RunBuiltIn(db: Db, d: Descriptor, props: Row, field: string, name: string, param: RuleParam): (r: Result<Outcome>)
    requires name in BuiltInRules
  {
    var v := Col(props, field);
    if name == "always_validate" then Success(Returned(Null, props))
    else if name == "matches" then Success(Verdict(v == Col(props, ParamText(param)), props))
    else if name == "min_size" then
      Success(Verdict(!(if param.Items? then BelowArray(v, param.vs) else LooseLess(v, param.v)), props))
    else if name == "max_size" then
      Success(Verdict(!(if param.Items? then AboveArray(v, param.vs) else LooseLess(param.v, v)), props))
    else if name == "unique" then UniqueRule(db, d, props, field)
    else if name == "unique_pair" then UniquePairRule(db, d, props, field, ParamText(param))
    else if name == "valid_match" then
      // in_array() on a non-array parameter returns NULL, which is not a failure
      Success(if param.Items? then Verdict(InArray(v, param.vs), props) else Returned(Null, props))
    else if name == "boolean" then Success(Returned(Null, BooleanRule(props, field)))
    else Success(Returned(Null, TrimRule(props, field)))
  }

  /** A related rule, given the number _count_related reports. */
  function RelatedVerdict(name: string, count: nat, param: RuleParam): (ok: bool)
    requires name in RelatedRules
    ensures name == "related_required" ==> (ok <==> count != 0)
    ensures name == "related_min_size" && param.Scalar? && param.v.Int? ==> (ok <==> count >= param.v.i)
    ensures name == "related_max_size" && param.Scalar? && param.v.Int? ==> (ok <==> count <= param.v.i)
  {
    if name == "related_required" then count != 0
    else if name == "related_min_size" then
      !(if param.Items? then BelowArray(Int(count), param.vs) else LooseLess(Int(count), param.v))
    else
      !(if param.Items? then AboveArray(Int(count), param.vs) else LooseLess(param.v, Int(count)))
  }

  // ---------------------------------------------------------------------------
  // Dispatch of one rule

  /** The object as the related rules see it: its current properties. */
  function WithProps(e: Entity, props: Row): Entity {
    e.(item := e.item.(props := props))
  }

  /**
   * One rule of `field`: a related field's rules become `related_*` and see the
   * passed objects; otherwise the ORM's own method, an extension, the form
   * validation library, or a PHP function (which only transforms the value).
   * A rule nothing implements does nothing. Also returns the rule name used for
   * the language line.
   */
  function RunRule(ctx: Ctx, e: Entity, arg: Option<Passed>, field: string, related: bool, entry: RuleEntry, props: Row): (r: Result<(string, Outcome)>)
    ensures r.Success? && !related ==> r.value.0 == entry.rule
    ensures r.Success? && related ==> r.value.0 == "related_" + entry.rule && r.value.1.props == props
  {
    var param := RuleArg(entry);
    var h := ctx.hooks;
    if related then
      var name := "related_" + entry.rule;
      var lname := ToLower(name);
      if lname in RelatedRules then
        var count :- CountRelated(ctx.env, ctx.d, WithProps(e, props), ctx.db, field, arg);
        Success((name, Verdict(RelatedVerdict(lname, count, param), props)))
      else if h.ownRule(name) then Success((name, Returned(h.runRelatedMethod("_" + name, arg, field, param), props)))
      else if h.extensionRule(name) then Success((name, Returned(h.runRelatedMethod("rule_" + name, arg, field, param), props)))
      else Success((name, Outcome(Bool(false), Str(""), props)))
    else
      var name := entry.rule;
      var lname := ToLower(name);
      if lname in BuiltInRules then
        var o :- RunBuiltIn(ctx.db, ctx.d, props, field, lname, param);
        Success((name, o))
      else if h.ownRule(name) then
        var (v, p) := h.runMethod("_" + name, field, param, props);
        Success((name, Returned(v, p)))
      else if h.extensionRule(name) then
        var (v, p) := h.runMethod("rule_" + name, field, param, props);
        Success((name, Returned(v, p)))
      else if h.formRule(name) then Success((name, Outcome(Bool(false), h.runForm(name, Col(props, field), param), props)))
      else if h.phpFunction(name) then Success((name, Outcome(Bool(false), Str(""), props[field := h.runPhp(name, Col(props, field))])))
      else Success((name, Outcome(Bool(false), Str(""), props)))
  }

  // ---------------------------------------------------------------------------
  // The error message

  /** The last occurrence of `needle` (strrpos). */
  function FindLast(s: string, needle: string): (r: Option<nat>)
    ensures r.Some? ==> OccursAt(s, needle, r.value) && forall j :: r.value < j ==> !OccursAt(s, needle, j)
    ensures r.None? ==> forall j :: !OccursAt(s, needle, j)
  {
    FindLastBelow(s, needle, |s| + 1)
  }

  function FindLastBelow(s: string, needle: string, bound: nat): (r: Option<nat>)
    ensures r.Some? ==> r.value < bound && OccursAt(s, needle, r.value) && forall j: nat :: r.value < j < bound ==> !OccursAt(s, needle, j)
    ensures r.None? ==> forall j: nat :: j < bound ==> !OccursAt(s, needle, j)
    ensures bound > |s| ==> forall j: nat :: bound <= j ==> !OccursAt(s, needle, j)
    decreases bound
  {
    if bound == 0 then None
    else if OccursAt(s, needle, bound - 1) then Some(bound - 1)
    else FindLastBelow(s, needle, bound - 1)
  }

  /** An array parameter in a message: implode(', ', ...) with the last ", " turned into " or ". */
  function Alternatives(vs: seq<Value>): string {
    var joined := Join(seq(|vs|, i requires 0 <= i < |vs| => ToStr(vs[i])), ", ");
    match FindLast(joined, ", ")
    case None => joined
    case Some(pos) => joined[..pos] + " or " + joined[pos + 2..]
  }

  /** The parameter shown in a message: a field name with a validation entry shows as that field's label. */
  function ParamShown(d: Descriptor, param: RuleParam): (r: string)
    ensures var t := if param.Items? then Alternatives(param.vs) else ToStr(param.v);
      (d.validation.Get(t).Some? ==> r == d.validation.Get(t).value.fieldLabel)
      && (d.validation.Get(t).None? ==> r == t)
  {
    var t := if param.Items? then Alternatives(param.vs) else ToStr(param.v);
    match d.validation.Get(t)
    case Some(entry) => entry.fieldLabel
    case None => t
  }

  /** The message template: the string a method returned, else the language line, else the fallback. */
  function ErrorLine(h: Hooks, rule: string, o: Outcome): (r: string)
    ensures o.line.Str? ==> r == o.line.s
    ensures !o.line.Str? && h.lang(rule).Some? ==> r == h.lang(rule).value
    ensures !o.line.Str? && h.lang(rule).None? ==>
      r == "Unable to access an error message corresponding to your rule name: " + rule + "."
  {
    if o.line.Str? then o.line.s
    else match h.lang(rule)
      case Some(l) => l
      case None => "Unable to access an error message corresponding to your rule name: " + rule + "."
  }

  // ---------------------------------------------------------------------------
  // The rules of one field

  /** The message for a failing rule. */
  function Message(ctx: Ctx, caption: string, rule: string, o: Outcome, entry: RuleEntry): string {
    ctx.hooks.format(ErrorLine(ctx.hooks, rule, o), caption, ParamShown(ctx.d, RuleArg(entry)))
  }

  /** How one rule runs: its name for the language line and its outcome, given the entry and the properties so far. */
  type RuleStep = (RuleEntry, Row) -> Result<(string, Outcome)>

  /** The message of a failing rule, given its name, outcome and entry. */
  type RuleMessage = (string, Outcome, RuleEntry) -> string

  /** The rules from `i` on, in order, stopping at the first that fails; its message, if one did. */
  function RunChain(step: RuleStep, message: RuleMessage, rules: seq<RuleEntry>, i: nat, props: Row): (r: Result<(Row, Option<string>)>)
    requires i <= |rules|
    ensures i == |rules| ==> r == Success((props, None))
    decreases |rules| - i
  {
    if i == |rules| then Success((props, None))
    else
      var s :- step(rules[i], props);
      if Fails(s.1) then Success((s.1.props, Some(message(s.0, s.1, rules[i]))))
      else RunChain(step, message, rules, i + 1, s.1.props)
  }

  /** The rules of `field` from `i` on, each dispatched by RunRule, a failure worded by Message. */
  function RunRules(ctx: Ctx, e: Entity, arg: Option<Passed>, field: string, caption: string, related: bool,
                    rules: seq<RuleEntry>, i: nat, props: Row): (r: Result<(Row, Option<string>)>)
    requires i <= |rules|
    ensures i == |rules| ==> r == Success((props, None))
  {
    RunChain((entry: RuleEntry, p: Row) => RunRule(ctx, e, arg, field, related, entry, p),
             (name: string, o: Outcome, entry: RuleEntry) => Message(ctx, caption, name, o, entry), rules, i, props)
  }

  /** Once a rule has failed, the rules after it are never run. */
  lemma {:induction false} FailureIgnoresLaterRules(step: RuleStep, message: RuleMessage, rules: seq<RuleEntry>, more: seq<RuleEntry>, i: nat, props: Row)
    requires i <= |rules|
    requires RunChain(step, message, rules, i, props).Success?
    requires RunChain(step, message, rules, i, props).value.1.Some?
    ensures RunChain(step, message, rules + more, i, props) == RunChain(step, message, rules, i, props)
    decreases |rules| - i
  {
    assert (rules + more)[i] == rules[i];
    var s := step(rules[i], props).value;
    if !Fails(s.1) {
      FailureIgnoresLaterRules(step, message, rules, more, i + 1, s.1.props);
    }
  }

  /** When every rule passes, further rules run on from the properties the passing ones left. */
  lemma {:induction false} PassingRulesCompose(step: RuleStep, message: RuleMessage, rules: seq<RuleEntry>, more: seq<RuleEntry>, i: nat, props: Row)
    requires i <= |rules|
    requires RunChain(step, message, rules, i, props).Success?
    requires RunChain(step, message, rules, i, props).value.1.None?
    ensures RunChain(step, message, rules + more, i, props) ==
      RunChain(step, message, more, 0, RunChain(step, message, rules, i, props).value.0)
    decreases |rules| - i
  {
    if i == |rules| {
      RunChainShift(step, message, rules, more, 0, props);
    } else {
      assert (rules + more)[i] == rules[i];
      var s := step(rules[i], props).value;
      PassingRulesCompose(step, message, rules, more, i + 1, s.1.props);
    }
  }

  /** Running `rules + more` past the end of `rules` is running `more`. */
  lemma {:induction false} RunChainShift(step: RuleStep, message: RuleMessage, rules: seq<RuleEntry>, more: seq<RuleEntry>, j: nat, props: Row)
    requires j <= |more|
    ensures RunChain(step, message, rules + more, |rules| + j, props) == RunChain(step, message, more, j, props)
    decreases |more| - j
  {
    if j < |more| {
      assert (rules + more)[|rules| + j] == more[j];
      var s := step(more[j], props);
      if s.Success? && !Fails(s.value.1) {
        RunChainShift(step, message, rules, more, j + 1, s.value.1.props);
      }
    }
  }

  // ---------------------------------------------------------------------------
  // The fields

  /**
   * Whether a field with rules is checked: a related field always; otherwise
   * only when the value differs from the stored one (or nothing is stored), and
   * then only when it is set and not '' unless the rules say `required` or
   * `always_validate`.
   */
  predicate NeedsCheck(related: bool, rules: seq<RuleEntry>, value: Value, stored: Value) {
    (related || !IsSet(stored) || value != stored)
    && (related || RulesMention(rules, "required") || RulesMention(rules, "always_validate")
        || (IsSet(value) && value != Str("")))
  }

  /** The rules of one validation entry, with the message (if any) recorded against the field. */
  function CheckField(ctx: Ctx, e: Entity, arg: Option<Passed>, field: string, v: ValidationEntry,
                      props: Row, error: ErrorObject): (r: Result<(Row, ErrorObject)>)
    ensures r.Success? ==> |r.value.1.all| <= |error.all| + 1
    ensures r.Success? && |r.value.1.all| == |error.all| + 1 ==> r.value.1.all[..|error.all|] == error.all
    ensures r.Success? && |r.value.1.all| == |error.all| ==> r.value.1 == error
  {
    if |v.rules| == 0 then Success((props, error))
    else
      var related := ctx.d.hasMany.Has(field) || ctx.d.hasOne.Has(field);
      if !NeedsCheck(related, v.rules, Col(props, field), Col(e.item.stored, field)) then Success((props, error))
      else
        var caption := if EmptyText(v.fieldLabel) then field else v.fieldLabel;
        var ran :- RunRules(ctx, e, arg, field, caption, related, v.rules, 0, props);
        match ran.1
        case None => Success((ran.0, error))
        case Some(m) =>
          var error2 := ErrorMessage(ctx.d.settings, error, field, m);
          assert error2.all[..|error.all|] == error.all;
          Success((ran.0, error2))
  }

  /** The validation entries from `i` on, in declaration order. */
  function CheckFields(ctx: Ctx, e: Entity, arg: Option<Passed>, i: nat, props: Row, error: ErrorObject): (r: Result<(Row, ErrorObject)>)
    requires i <= |ctx.d.validation.keys|
    ensures r.Success? ==> |error.all| <= |r.value.1.all| <= |error.all| + |ctx.d.validation.keys| - i
    ensures r.Success? ==> r.value.1.all[..|error.all|] == error.all
    decreases |ctx.d.validation.keys| - i
  {
    if i == |ctx.d.validation.keys| then Success((props, error))
    else
      var field := ctx.d.validation.keys[i];
      match ctx.d.validation.Get(field)
      case None => CheckFields(ctx, e, arg, i + 1, props, error)
      case Some(v) =>
        var step :- CheckField(ctx, e, arg, field, v, props, error);
        var r := CheckFields(ctx, e, arg, i + 1, step.0, step.1);
        if r.Success? then
          assert r.value.1.all[..|error.all|] == r.value.1.all[..|step.1.all|][..|error.all|];
          r
        else r
  }

  /** The objects the related rules count: the passed object, keyed by the related field when one is given. */
  function RuleArgument(passed: Option<Passed>, relatedField: string): (r: Option<Passed>)
    ensures passed.None? ==> r.None?
    ensures passed.Some? && !EmptyText(relatedField) ==> r == Some(Many([PassedItem(Some(relatedField), passed.value)]))
  {
    if passed.Some? && !EmptyText(relatedField) then Some(Many([PassedItem(Some(relatedField), passed.value)]))
    else passed
  }

  /**
   * validate($object, $related_field): nothing if it already ran; otherwise the
   * errors are reset, every entry is checked, and the object is valid exactly
   * when no error was recorded.
   */
  function Validate(ctx: Ctx, e: Entity, passed: Option<Passed>, relatedField: string): (r: Result<Entity>)
    ensures e.validated ==> r == Success(e)
    ensures !e.validated && r.Success? ==>
      r.value.validated && (r.value.valid <==> |r.value.error.all| == 0)
      && |r.value.error.all| <= |ctx.d.validation.keys|
      && r.value.item.stored == e.item.stored && r.value.all == e.all && r.value.parent == e.parent
  {
    if e.validated then Success(e)
    else
      var checked :- CheckFields(ctx, e, RuleArgument(passed, relatedField), 0, e.item.props, NoErrors);
      Success(e.(validated := true, error := checked.1, item := e.item.(props := checked.0), valid := |checked.1.all| == 0))
  }

  /** skip_validation($skip): the next save neither validates nor fails validation. */
  function SkipValidation(e: Entity, skip: bool): (r: Entity)
    ensures r.validated == skip && r.valid == skip
    ensures r.item == e.item && r.error == e.error && r.all == e.all
  {
    e.(validated := skip, valid := skip)
  }

  /** After skip_validation(), validate() is a no-op and the object stays valid. */
  lemma SkippedStaysValid(ctx: Ctx, e: Entity, passed: Option<Passed>, relatedField: string)
    ensures Validate(ctx, SkipValidation(e, true), passed, relatedField) == Success(SkipValidation(e, true))
    ensures Validate(ctx, SkipValidation(e, true), passed, relatedField).value.valid
  {
  }

  /** validate() is idempotent: running it on its own result changes nothing. */
  lemma ValidateIdempotent(ctx: Ctx, e: Entity, passed: Option<Passed>, relatedField: string)
    requires Validate(ctx, e, passed, relatedField).Success?
    ensures Validate(ctx, Validate(ctx, e, passed, relatedField).value, passed, relatedField) == Validate(ctx, e, passed, relatedField)
  {
  }

  // ---------------------------------------------------------------------------
  // Properties of the engine and the rules

  /** With no rules declared anywhere, validate() records no error and the object is valid. */
  lemma NoRulesNoErrors(ctx: Ctx, e: Entity, passed: Option<Passed>, relatedField: string)
    requires !e.validated
    requires forall k :: k in ctx.d.validation.vals ==> |ctx.d.validation.vals[k].rules| == 0
    ensures Validate(ctx, e, passed, relatedField).Success?
    ensures Validate(ctx, e, passed, relatedField).value.valid
    ensures Validate(ctx, e, passed, relatedField).value.item.props == e.item.props
  {
    NoRulesFrom(ctx, e, RuleArgument(passed, relatedField), 0, e.item.props, NoErrors);
  }

  lemma {:induction false} NoRulesFrom(ctx: Ctx, e: Entity, arg: Option<Passed>, i: nat, props: Row, error: ErrorObject)
    requires i <= |ctx.d.validation.keys|
    requires forall k :: k in ctx.d.validation.vals ==> |ctx.d.validation.vals[k].rules| == 0
    ensures CheckFields(ctx, e, arg, i, props, error) == Success((props, error))
    decreases |ctx.d.validation.keys| - i
  {
    if i < |ctx.d.validation.keys| {
      NoRulesFrom(ctx, e, arg, i + 1, props, error);
    }
  }

  /** A non-related field whose value is still the stored one is not checked at all. */
  lemma UnchangedFieldSkipped(ctx: Ctx, e: Entity, arg: Option<Passed>, field: string, v: ValidationEntry, props: Row, error: ErrorObject)
    requires !ctx.d.hasMany.Has(field) && !ctx.d.hasOne.Has(field)
    requires IsSet(Col(e.item.stored, field)) && Col(props, field) == Col(e.item.stored, field)
    ensures CheckField(ctx, e, arg, field, v, props, error) == Success((props, error))
  {
  }

  /** An optional field left unset or '' is not checked, unless its rules say required or always_validate. */
  lemma BlankOptionalSkipped(ctx: Ctx, e: Entity, arg: Option<Passed>, field: string, v: ValidationEntry, props: Row, error: ErrorObject)
    requires !ctx.d.hasMany.Has(field) && !ctx.d.hasOne.Has(field)
    requires !RulesMention(v.rules, "required") && !RulesMention(v.rules, "always_validate")
    requires Col(props, field) == Null || Col(props, field) == Str("")
    ensures CheckField(ctx, e, arg, field, v, props, error) == Success((props, error))
  {
  }

  /** A failing rule's message is recorded against its field, wrapped in the configured prefix and suffix. */
  lemma FailureRecorded(ctx: Ctx, e: Entity, arg: Option<Passed>, field: string, v: ValidationEntry, props: Row, error: ErrorObject)
    requires |v.rules| > 0 && !EmptyText(field)
    requires var related := ctx.d.hasMany.Has(field) || ctx.d.hasOne.Has(field);
      NeedsCheck(related, v.rules, Col(props, field), Col(e.item.stored, field))
    requires var related := ctx.d.hasMany.Has(field) || ctx.d.hasOne.Has(field);
      var caption := if EmptyText(v.fieldLabel) then field else v.fieldLabel;
      var ran := RunRules(ctx, e, arg, field, caption, related, v.rules, 0, props);
      ran.Success? && ran.value.1.Some? && !EmptyText(ran.value.1.value)
    ensures CheckField(ctx, e, arg, field, v, props, error).Success?
    ensures var related := ctx.d.hasMany.Has(field) || ctx.d.hasOne.Has(field);
      var caption := if EmptyText(v.fieldLabel) then field else v.fieldLabel;
      var m := RunRules(ctx, e, arg, field, caption, related, v.rules, 0, props).value.1.value;
      var r := CheckField(ctx, e, arg, field, v, props, error).value.1;
      ErrorFor(r, field) == ctx.d.settings.errorPrefix + m + ctx.d.settings.errorSuffix
      && r.all == error.all + [ctx.d.settings.errorPrefix + m + ctx.d.settings.errorSuffix]
  {
  }

  /** A rule the ORM implements itself is run by that implementation, whatever hooks exist. */
  lemma BuiltInDispatch(ctx: Ctx, e: Entity, arg: Option<Passed>, field: string, entry: RuleEntry, props: Row)
    requires ToLower(entry.rule) in BuiltInRules
    ensures var r := RunRule(ctx, e, arg, field, false, entry, props);
      var b := RunBuiltIn(ctx.db, ctx.d, props, field, ToLower(entry.rule), RuleArg(entry));
      (r.Success? <==> b.Success?) && (r.Success? ==> r.value == (entry.rule, b.value))
  {
  }

  lemma LowerMinSize()
    ensures ToLower("min_size") == "min_size"
  {
    LowerIdle("min_size");
  }

  lemma LowerMaxSize()
    ensures ToLower("max_size") == "max_size"
  {
    LowerIdle("max_size");
  }

  /** min_size as the built-in rule runs it: TRUE unless the value is below the size. */
  lemma MinSizeBuiltIn(db: Db, d: Descriptor, props: Row, field: string, param: RuleParam)
    ensures "min_size" in BuiltInRules
    ensures RunBuiltIn(db, d, props, field, "min_size", param) ==
      Success(Verdict(!(if param.Items? then BelowArray(Col(props, field), param.vs) else LooseLess(Col(props, field), param.v)), props))
  {
    assert BuiltInRules[2] == "min_size";
  }

  /** max_size as the built-in rule runs it: TRUE unless the value is above the size. */
  lemma MaxSizeBuiltIn(db: Db, d: Descriptor, props: Row, field: string, param: RuleParam)
    ensures "max_size" in BuiltInRules
    ensures RunBuiltIn(db, d, props, field, "max_size", param) ==
      Success(Verdict(!(if param.Items? then AboveArray(Col(props, field), param.vs) else LooseLess(param.v, Col(props, field))), props))
  {
    assert BuiltInRules[3] == "max_size";
  }

  /** A min_size rule on an integer field with an integer size fails exactly when the value is below the size. */
  lemma MinSizeFailsBelow(ctx: Ctx, e: Entity, arg: Option<Passed>, field: string, size: int, props: Row)
    requires Col(props, field).Int?
    ensures var r := RunRule(ctx, e, arg, field, false, Keyed("min_size", Scalar(Int(size))), props);
      r.Success? && (Fails(r.value.1) <==> Col(props, field).i < size)
  {
    LowerMinSize();
    MinSizeBuiltIn(ctx.db, ctx.d, props, field, Scalar(Int(size)));
    BuiltInDispatch(ctx, e, arg, field, Keyed("min_size", Scalar(Int(size))), props);
  }

  /** A max_size rule on an integer field with an integer size fails exactly when the value is above the size. */
  lemma MaxSizeFailsAbove(ctx: Ctx, e: Entity, arg: Option<Passed>, field: string, size: int, props: Row)
    requires Col(props, field).Int?
    ensures var r := RunRule(ctx, e, arg, field, false, Keyed("max_size", Scalar(Int(size))), props);
      r.Success? && (Fails(r.value.1) <==> Col(props, field).i > size)
  {
    LowerMaxSize();
    MaxSizeBuiltIn(ctx.db, ctx.d, props, field, Scalar(Int(size)));
    BuiltInDispatch(ctx, e, arg, field, Keyed("max_size", Scalar(Int(size))), props);
  }

  lemma LowerMatches()
    ensures ToLower("matches") == "matches"
  {
    LowerIdle("matches");
  }

  lemma LowerValidMatch()
    ensures ToLower("valid_match") == "valid_match"
  {
    LowerIdle("valid_match");
  }

  lemma LowerAlwaysValidate()
    ensures ToLower("always_validate") == "always_validate"
  {
    LowerIdle("always_validate");
  }

  /** matches fails exactly when the field is not identical (!==) to the other field, and changes nothing. */
  lemma MatchesFailsUnlessIdentical(ctx: Ctx, e: Entity, arg: Option<Passed>, field: string, other: string, props: Row)
    ensures var r := RunRule(ctx, e, arg, field, false, Keyed("matches", Scalar(Str(other))), props);
      r.Success? && r.value.1.props == props
      && (Fails(r.value.1) <==> Col(props, field) != Col(props, other))
  {
    LowerMatches();
    assert BuiltInRules[1] == "matches";
    BuiltInDispatch(ctx, e, arg, field, Keyed("matches", Scalar(Str(other))), props);
  }

  /** valid_match as the built-in rule runs it: with a list, TRUE exactly when the value is loosely in it. */
  lemma ValidMatchBuiltIn(db: Db, d: Descriptor, props: Row, field: string, vs: seq<Value>)
    ensures "valid_match" in BuiltInRules
    ensures RunBuiltIn(db, d, props, field, "valid_match", Items(vs)) == Success(Verdict(InArray(Col(props, field), vs), props))
  {
    assert BuiltInRules[6] == "valid_match";
  }

  /** valid_match with a list fails exactly when the value is not loosely in the list, and changes nothing. */
  lemma ValidMatchFailsUnlessListed(ctx: Ctx, e: Entity, arg: Option<Passed>, field: string, vs: seq<Value>, props: Row)
    ensures var r := RunRule(ctx, e, arg, field, false, Keyed("valid_match", Items(vs)), props);
      r.Success? && r.value.1.props == props
      && (Fails(r.value.1) <==> !InArray(Col(props, field), vs))
  {
    LowerValidMatch();
    ValidMatchBuiltIn(ctx.db, ctx.d, props, field, vs);
    BuiltInDispatch(ctx, e, arg, field, Keyed("valid_match", Items(vs)), props);
  }

  lemma AlwaysValidateBuiltIn(db: Db, d: Descriptor, props: Row, field: string, param: RuleParam)
    ensures "always_validate" in BuiltInRules
    ensures RunBuiltIn(db, d, props, field, "always_validate", param) == Success(Returned(Null, props))
  {
    assert BuiltInRules[0] == "always_validate";
  }

  /** always_validate never fails and changes nothing. */
  lemma AlwaysValidateInert(ctx: Ctx, e: Entity, arg: Option<Passed>, field: string, props: Row)
    ensures var r := RunRule(ctx, e, arg, field, false, Bare("always_validate"), props);
      r.Success? && r.value.1.props == props && !Fails(r.value.1)
  {
    LowerAlwaysValidate();
    AlwaysValidateBuiltIn(ctx.db, ctx.d, props, field, RuleArg(Bare("always_validate")));
    BuiltInDispatch(ctx, e, arg, field, Bare("always_validate"), props);
  }

  /** unique accepts a value whose first holder in the table is this very object. */
  lemma UniqueAcceptsOwnRow(db: Db, d: Descriptor, props: Row, field: string)
    requires d.table in db.tables && field in db.tables[d.table].columns
    requires var rows := Filter(db.tables[d.table].rows, [Eq(field, Col(props, field))]);
      |rows| > 0 ==> LooseEq(Col(props, "id"), Col(rows[0], "id"))
    ensures UniqueRule(db, d, props, field) == Success(Verdict(true, props))
  {
  }

  /** unique rejects a non-empty value whose first holder in the table is another object. */
  lemma UniqueRejectsTaken(db: Db, d: Descriptor, props: Row, field: string)
    requires !Empty(Col(props, field))
    requires d.table in db.tables && field in db.tables[d.table].columns
    requires var rows := Filter(db.tables[d.table].rows, [Eq(field, Col(props, field))]);
      |rows| > 0 && !LooseEq(Col(props, "id"), Col(rows[0], "id"))
    ensures UniqueRule(db, d, props, field) == Success(Verdict(false, props))
  {
  }

  /** trim() leaves a trimmed string alone. */
  lemma TrimIdempotent(s: string)
    ensures Trim(Trim(s)) == Trim(s)
  {
    var t := LTrim(s);
    var u := RTrim(t);
    if |u| > 0 {
      assert u[0] == t[0];
    }
    LTrimKeeps(u);
    RTrimKeeps(u);
  }

  /** Running the trim rule twice is running it once. */
  lemma TrimRuleIdempotent(props: Row, field: string)
    ensures TrimRule(TrimRule(props, field), field) == TrimRule(props, field)
  {
    var v := Col(props, field);
    if !Empty(v) {
      var t := Trim(ToStr(v));
      TrimIdempotent(ToStr(v));
      var once := props[field := Str(t)];
      assert Col(once, field) == Str(t);
      if !Empty(Str(t)) {
        assert once[field := Str(Trim(t))] == once;
      }
    }
  }

  /** Running the boolean rule twice is running it once. */
  lemma BooleanRuleIdempotent(props: Row, field: string)
    ensures BooleanRule(BooleanRule(props, field), field) == BooleanRule(props, field)
  {
  }

  /** Two alternatives read "a or b" in a message, provided the second has no comma. */
  lemma AlternativesOfTwo(x: Value, y: Value)
    requires !HasChar(ToStr(y), ',')
    ensures Alternatives([x, y]) == ToStr(x) + " or " + ToStr(y)
  {
    var a, b := ToStr(x), ToStr(y);
    var parts := seq(2, i requires 0 <= i < 2 => ToStr([x, y][i]));
    assert parts == [a, b];
    var joined := a + ", " + b;
    assert Join(parts, ", ") == joined;
    LastSeparator(a, b);
    assert joined[..|a|] == a && joined[|a| + 2..] == b;
  }

  /** In `a, b` with no comma in `b`, the last ", " is the one after `a`. */
  lemma LastSeparator(a: string, b: string)
    requires !HasChar(b, ',')
    ensures FindLast(a + ", " + b, ", ") == Some(|a|)
  {
    var joined := a + ", " + b;
    assert OccursAt(joined, ", ", |a|) by {
      assert joined[|a|..|a| + 2] == ", ";
    }
    forall j: nat | |a| < j
      ensures !OccursAt(joined, ", ", j)
    {
      if j + 2 <= |joined| {
        if j == |a| + 1 {
          assert joined[j] == ' ';
        } else {
          assert joined[j] == b[j - |a| - 2];
        }
        assert joined[j..j + 2][0] == joined[j];
      }
    }
  }

  /** Two alternatives that do not name a validated field are shown as "a or b". */
  lemma ParamShownOfTwo(d: Descriptor, x: Value, y: Value)
    requires !HasChar(ToStr(y), ',')
    requires d.validation.Get(ToStr(x) + " or " + ToStr(y)).None?
    ensures ParamShown(d, Items([x, y])) == ToStr(x) + " or " + ToStr(y)
  {
    AlternativesOfTwo(x, y);
  }

  /** A message string the rule returned is used whatever the language file holds. */
  lemma ReturnedLineOverridesLang(h1: Hooks, h2: Hooks, rule: string, o: Outcome)
    requires o.line.Str?
    ensures ErrorLine(h1, rule, o) == ErrorLine(h2, rule, o) == o.line.s
  {
  }

  /** Without a returned string or a language line, the message names the rule and ends with a full stop. */
  lemma FallbackNamesRule(h: Hooks, rule: string, o: Outcome)
    requires !o.line.Str? && h.lang(rule).None?
    ensures var m := ErrorLine(h, rule, o);
      |m| == 68 + |rule| && m[67..67 + |rule|] == rule && m[|m| - 1] == '.'
  {
  }

  lemma LowerRelatedRequired()
    ensures ToLower("related_" + "required") == "related_required"
  {
    assert "related_" + "required" == "related_required";
    LowerIdle("related_required");
  }

  /**
   * A required relation is satisfied, without consulting the database, by a
   * passed existing object of a has_one that resolves under its own name.
   */
  lemma RelatedRequiredByPassedObject(ctx: Ctx, e: Entity, field: string, model: string, o: Entity, props: Row)
    requires RelatedProperties(ctx.env, ctx.d, field, true).Success?
    requires var found := RelatedProperties(ctx.env, ctx.d, field, true).value;
      CountedField(found, field) == field && ctx.d.hasOne.Has(field)
    requires Exists(o) && TextEq(model, field)
    ensures var r := RunRule(ctx, e, Some(One(model, o)), field, true, Bare("required"), props);
      r.Success? && !Fails(r.value.1)
  {
    LowerRelatedRequired();
    assert PassedTally(field, Some(One(model, o))).count == 1;
    CountRelatedSkipsStore(ctx.env, ctx.d, WithProps(e, props), ctx.db, field, Some(One(model, o)));
  }
}
