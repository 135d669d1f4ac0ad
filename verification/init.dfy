/**
 * The one-time normalisation a model class goes through the first time it is
 * instantiated: model and table names, the validation array keyed by field,
 * field tracking, the table's columns, and old-style relationship declarations
 * turned into full RelationSpecs.
 */
module ModelInit {
  import opened Results
  import opened PhpValues
  import opened Strings
  import opened Dicts
  import opened Models

  /** The word inflector the framework provides; its rules are outside this model. */
  datatype Inflector = Inflector(singular: string -> string, plural: string -> string)

  /** A relationship as declared: just a class name, or an options array with any subset of keys. */
  datatype RawRelation =
    | ClassOnly(cls: string)
    | Options(className: Option<string>, otherField: Option<string>, joinSelfAs: Option<string>, joinOtherAs: Option<string>)

  /** A validation element as declared; the key may be a field name or a position. */
  datatype RawValidation = RawValidation(
    key: RawKey,
    field: Option<string>,
    fieldLabel: Option<string>,
    rules: Option<seq<RuleEntry>>,
    getRules: Option<seq<RuleEntry>>)

  /** Everything a model subclass declares, plus the column names the table reports. */
  datatype ClassDecl = ClassDecl(
    cls: string,
    model: string,
    table: string,
    prefix: string,
    joinPrefix: string,
    fields: seq<string>,
    validation: seq<RawValidation>,
    hasOne: seq<(RawKey, RawRelation)>,
    hasMany: seq<(RawKey, RawRelation)>,
    settings: Settings)

  /** A validation entry before its label is localised. */
  datatype Draft = Draft(field: string, fieldLabel: Option<string>, rules: seq<RuleEntry>, getRules: Option<seq<RuleEntry>>)

  // ---------------------------------------------------------------------------
  // Model name and configuration

  /**
   * The singular model key of a class, looked up in (and recorded into) the
   * per-class cache so that the inflector runs once per class.
   */
  function ClassKey(cache: map<string, string>, cls: string, infl: Inflector): (r: (string, map<string, string>))
    ensures ToLower(cls) in r.1 && r.0 == r.1[ToLower(cls)]
    ensures ToLower(cls) in cache ==> r.1 == cache
    ensures ToLower(cls) !in cache ==> r.1 == cache[ToLower(cls) := infl.singular(ToLower(cls))]
  {
    var lc := ToLower(cls);
    if lc in cache then (cache[lc], cache) else (infl.singular(lc), cache[lc := infl.singular(lc)])
  }

  /** A second lookup of the same class gives the same key and leaves the cache alone. */
  lemma ClassKeyStable(cache: map<string, string>, cls: string, infl: Inflector)
    ensures var (k1, c1) := ClassKey(cache, cls, infl);
            ClassKey(c1, cls, infl) == (k1, c1)
  {
  }

  /** The declared model name, or the class key when none is declared. */
  function ModelName(declared: string, key: string): (r: string)
    ensures !EmptyText(declared) ==> r == declared
    ensures EmptyText(declared) ==> r == key
  {
    if EmptyText(declared) then key else declared
  }

  /** The configuration values filled in when the configuration file leaves them empty. */
  const ConfigDefaults: seq<(string, string)> := [
    ("timestamp_format", "Y-m-d H:i:s O"),
    ("created_field", "created"),
    ("updated_field", "updated"),
    ("extensions_path", "datamapper"),
    ("field_label_lang_format", "${model}_${field}")
  ]

  function FillDefaults(config: map<string, Value>, defaults: seq<(string, string)>): (r: map<string, Value>)
    ensures forall k :: 0 <= k < |defaults| && !EmptyText(defaults[k].1) ==> defaults[k].0 in r && !Empty(r[defaults[k].0])
    ensures forall key :: key in config && !Empty(config[key]) ==> key in r && r[key] == config[key]
    ensures forall key :: key in config && (forall k :: 0 <= k < |defaults| ==> defaults[k].0 != key) ==> key in r && r[key] == config[key]
    decreases |defaults|
  {
    if |defaults| == 0 then config
    else
      var (key, value) := defaults[0];
      var next := if key !in config || Empty(config[key]) then config[key := Str(value)] else config;
      var r := FillDefaults(next, defaults[1..]);
      assert forall k :: 1 <= k < |defaults| ==> defaults[k] == defaults[1..][k - 1];
      r
  }

  /**
   * A default whose key is missing or empty in the configuration ends up
   * holding the default value itself; the keys of the defaults are distinct,
   * as the keys of a PHP array are.
   */
  lemma {:induction false} FillDefaultsValue(config: map<string, Value>, defaults: seq<(string, string)>, k: nat)
    requires k < |defaults|
    requires forall j :: 0 <= j < |defaults| && j != k ==> defaults[j].0 != defaults[k].0
    requires defaults[k].0 !in config || Empty(config[defaults[k].0])
    ensures defaults[k].0 in FillDefaults(config, defaults)
    ensures FillDefaults(config, defaults)[defaults[k].0] == Str(defaults[k].1)
    decreases |defaults|
  {
    var (key, value) := defaults[0];
    var next := if key !in config || Empty(config[key]) then config[key := Str(value)] else config;
    assert FillDefaults(config, defaults) == FillDefaults(next, defaults[1..]);
    if k == 0 {
      assert forall j :: 0 <= j < |defaults[1..]| ==> defaults[1..][j].0 != key by {
        forall j | 0 <= j < |defaults[1..]| ensures defaults[1..][j].0 != key {
          assert defaults[1..][j] == defaults[j + 1];
        }
      }
    } else {
      assert defaults[1..][k - 1] == defaults[k];
      assert forall j :: 0 <= j < |defaults[1..]| && j != k - 1 ==> defaults[1..][j].0 != defaults[k].0 by {
        forall j | 0 <= j < |defaults[1..]| && j != k - 1 ensures defaults[1..][j].0 != defaults[k].0 {
          assert defaults[1..][j] == defaults[j + 1];
        }
      }
      FillDefaultsValue(next, defaults[1..], k - 1);
    }
  }

  /** The table name: the declared table or the pluralised class name, after the table prefix. */
  function TableName(decl: ClassDecl, infl: Inflector): (r: string)
    ensures StartsWith(r, decl.prefix)
    ensures EmptyText(decl.table) ==> r == decl.prefix + infl.plural(decl.cls)
    ensures !EmptyText(decl.table) ==> r == decl.prefix + decl.table
  {
    decl.prefix + (if EmptyText(decl.table) then infl.plural(decl.cls) else decl.table)
  }

  // ---------------------------------------------------------------------------
  // Validation array keyed by field name

  datatype ValidationFold = ValidationFold(entries: Dict<string, Draft>, getRules: seq<string>, matches: Dict<string, string>)

  /** The key an element is stored under: its string key, or its own 'field' entry (empty when missing). */
  function ValidationName(r: RawValidation): string {
    match r.key
    case Named(n) => n
    case Positional(_) => r.field.GetOr("")
  }

  function DraftOf(r: RawValidation): Draft {
    Draft(ValidationName(r), r.fieldLabel, r.rules.GetOr([]), r.getRules)
  }

  /** The keys the validation elements are stored under, in declaration order. */
  function ValidationNames(raws: seq<RawValidation>): (r: seq<string>)
    ensures |r| == |raws|
    ensures forall i :: 0 <= i < |raws| ==> r[i] == ValidationName(raws[i])
    decreases |raws|
  {
    if |raws| == 0 then [] else ValidationNames(raws[..|raws| - 1]) + [ValidationName(raws[|raws| - 1])]
  }

  /** A non-empty get_rules entry puts the element's name on the get_rules list. */
  predicate HasGetRules(raw: RawValidation) {
    raw.getRules.Some? && |raw.getRules.value| > 0
  }

  /** The field a set `matches` rule names. */
  function MatchesTarget(raw: RawValidation): Option<RuleParam> {
    KeyedParam(DraftOf(raw).rules, "matches")
  }

  /** The validation array processed element by element, left to right. */
  function FoldValidation(raws: seq<RawValidation>): (r: ValidationFold)
    ensures r.entries.Valid() && r.matches.Valid()
    ensures forall n :: r.entries.Has(n) <==> n in ValidationNames(raws)
    ensures |r.getRules| <= |raws|
    decreases |raws|
  {
    if |raws| == 0 then ValidationFold(EmptyDict(), [], EmptyDict())
    else
      var acc := FoldValidation(raws[..|raws| - 1]);
      var raw := raws[|raws| - 1];
      var name := ValidationName(raw);
      var draft := DraftOf(raw);
      var getRules := if HasGetRules(raw) then acc.getRules + [name] else acc.getRules;
      var target := MatchesTarget(raw);
      var matches := if target.Some? then Put(acc.matches, name, ParamText(target.value)) else acc.matches;
      ValidationFold(Put(acc.entries, name, draft), getRules, matches)
  }

  /** A later element with the same field name replaces the earlier one. */
  lemma {:induction false} FoldValidationLastWins(raws: seq<RawValidation>, i: nat)
    requires i < |raws|
    requires forall j :: i < j < |raws| ==> ValidationName(raws[j]) != ValidationName(raws[i])
    ensures FoldValidation(raws).entries.Has(ValidationName(raws[i]))
    ensures FoldValidation(raws).entries.vals[ValidationName(raws[i])] == DraftOf(raws[i])
    decreases |raws|
  {
    if i < |raws| - 1 {
      var prefix := raws[..|raws| - 1];
      FoldValidationLastWins(prefix, i);
    }
  }

  /** get_rules lists the name of each element with non-empty get_rules, and nothing else. */
  lemma {:induction false} FoldGetRules(raws: seq<RawValidation>)
    ensures forall i :: 0 <= i < |raws| && HasGetRules(raws[i]) ==> ValidationName(raws[i]) in FoldValidation(raws).getRules
    ensures forall n :: n in FoldValidation(raws).getRules ==>
      exists i :: 0 <= i < |raws| && HasGetRules(raws[i]) && ValidationName(raws[i]) == n
    decreases |raws|
  {
    if |raws| > 0 {
      var prefix := raws[..|raws| - 1];
      FoldGetRules(prefix);
      forall n | n in FoldValidation(raws).getRules
        ensures exists i :: 0 <= i < |raws| && HasGetRules(raws[i]) && ValidationName(raws[i]) == n
      {
        if n in FoldValidation(prefix).getRules {
          var i :| 0 <= i < |prefix| && HasGetRules(prefix[i]) && ValidationName(prefix[i]) == n;
          assert raws[i] == prefix[i];
        } else {
          assert ValidationName(raws[|raws| - 1]) == n;
        }
      }
      forall i | 0 <= i < |raws| && HasGetRules(raws[i])
        ensures ValidationName(raws[i]) in FoldValidation(raws).getRules
      {
        if i < |prefix| {
          assert prefix[i] == raws[i];
        }
      }
    }
  }

  /** `matches` holds the name of each element with a `matches` rule, and nothing else. */
  lemma {:induction false} FoldMatches(raws: seq<RawValidation>)
    ensures forall i :: 0 <= i < |raws| && MatchesTarget(raws[i]).Some? ==> FoldValidation(raws).matches.Has(ValidationName(raws[i]))
    ensures forall n :: FoldValidation(raws).matches.Has(n) ==>
      exists i :: 0 <= i < |raws| && MatchesTarget(raws[i]).Some? && ValidationName(raws[i]) == n
    decreases |raws|
  {
    if |raws| > 0 {
      var prefix := raws[..|raws| - 1];
      FoldMatches(prefix);
      forall n | FoldValidation(raws).matches.Has(n)
        ensures exists i :: 0 <= i < |raws| && MatchesTarget(raws[i]).Some? && ValidationName(raws[i]) == n
      {
        if FoldValidation(prefix).matches.Has(n) {
          var i :| 0 <= i < |prefix| && MatchesTarget(prefix[i]).Some? && ValidationName(prefix[i]) == n;
          assert raws[i] == prefix[i];
        } else {
          assert ValidationName(raws[|raws| - 1]) == n;
        }
      }
      forall i | 0 <= i < |raws| && MatchesTarget(raws[i]).Some?
        ensures FoldValidation(raws).matches.Has(ValidationName(raws[i]))
      {
        if i < |prefix| {
          assert prefix[i] == raws[i];
        }
      }
    }
  }

  /** A `matches` rule records its target under the element's name, unless a later element of that name sets its own. */
  lemma {:induction false} FoldMatchesLastWins(raws: seq<RawValidation>, i: nat)
    requires i < |raws| && MatchesTarget(raws[i]).Some?
    requires forall j :: i < j < |raws| && MatchesTarget(raws[j]).Some? ==> ValidationName(raws[j]) != ValidationName(raws[i])
    ensures FoldValidation(raws).matches.Has(ValidationName(raws[i]))
    ensures FoldValidation(raws).matches.vals[ValidationName(raws[i])] == ParamText(MatchesTarget(raws[i]).value)
    decreases |raws|
  {
    if i < |raws| - 1 {
      var prefix := raws[..|raws| - 1];
      assert prefix[i] == raws[i];
      FoldMatchesLastWins(prefix, i);
    }
  }

  /** The id entry added when the declaration has none. */
  const IdDraft: Draft := Draft("id", None, [Bare("integer")], None)

  function WithIdEntry(entries: Dict<string, Draft>): (r: Dict<string, Draft>)
    requires entries.Valid()
    ensures r.Valid() && r.Has("id")
    ensures forall n :: entries.Has(n) ==> r.Has(n) && r.vals[n] == entries.vals[n]
    ensures entries.Has("id") ==> r == entries
    ensures !entries.Has("id") ==> r.vals["id"] == IdDraft && r.keys == entries.keys + ["id"]
  {
    if entries.Has("id") then entries else Put(entries, "id", IdDraft)
  }

  // ---------------------------------------------------------------------------
  // Integer tracking for has_one foreign keys

  /** Whether a has_one key's '_id' column is forced to an integer on load. */
  predicate TracksIntval(related: string, fields: seq<string>, entries: Dict<string, Draft>) {
    var field := related + "_id";
    field in fields
    && (!entries.Has(field) || entries.vals[field].getRules.None?)
    && (!entries.Has(related) || entries.vals[related].getRules.None?)
  }

  /**
   * The has_one loop over the declaration as written: integer keys give "0_id",
   * "1_id" ...; only the class's declared fields are consulted.
   */
  function IntvalFields(hasOne: seq<(RawKey, RawRelation)>, fields: seq<string>, entries: Dict<string, Draft>): (r: seq<string>)
    ensures forall x :: x in r ==> x in fields
    ensures fields == [] ==> r == []
    ensures forall i :: 0 <= i < |hasOne| && TracksIntval(KeyText(hasOne[i].0), fields, entries) ==> KeyText(hasOne[i].0) + "_id" in r
    ensures forall x :: x in r ==> exists i :: 0 <= i < |hasOne| && TracksIntval(KeyText(hasOne[i].0), fields, entries) && x == KeyText(hasOne[i].0) + "_id"
    decreases |hasOne|
  {
    if |hasOne| == 0 then []
    else
      var related := KeyText(hasOne[0].0);
      var rest := IntvalFields(hasOne[1..], fields, entries);
      assert forall i :: 1 <= i < |hasOne| ==> hasOne[i] == hasOne[1..][i - 1];
      if TracksIntval(related, fields, entries) then [related + "_id"] + rest else rest
  }

  // ---------------------------------------------------------------------------
  // Table columns

  /** Every table column is appended to the fields and gets an empty validation entry when it has none. */
  function AddColumns(entries: Dict<string, Draft>, columns: seq<string>): (r: Dict<string, Draft>)
    requires entries.Valid()
    ensures r.Valid()
    ensures forall c :: c in columns ==> r.Has(c)
    ensures forall n :: entries.Has(n) ==> r.Has(n) && r.vals[n] == entries.vals[n]
    ensures forall n :: r.Has(n) ==> entries.Has(n) || n in columns
    ensures forall n :: r.Has(n) && !entries.Has(n) ==> r.vals[n] == Draft(n, None, [], None)
    decreases |columns|
  {
    if |columns| == 0 then entries
    else
      var c := columns[0];
      var next := if entries.Has(c) then entries else Put(entries, c, Draft(c, None, [], None));
      AddColumns(next, columns[1..])
  }

  // ---------------------------------------------------------------------------
  // Relationship normalisation

  /** The key a relationship is stored under; an integer key takes the class name, and an array under an integer key is dropped. */
  function RelationName(key: RawKey, raw: RawRelation): Option<string> {
    match key
    case Named(n) => Some(n)
    case Positional(_) =>
      match raw
      case ClassOnly(c) => Some(c)
      case Options(_, _, _, _) => None
  }

  /** Fills in class, other_field, join_self_as and join_other_as. */
  function NormalizeRelation(rf: string, raw: RawRelation, model: string): (r: RelationSpec)
    ensures raw.ClassOnly? ==> r == RelationSpec(raw.cls, model, model, rf)
    ensures raw.Options? ==> r.cls == raw.className.GetOr(rf)
    ensures raw.Options? ==> r.otherField == raw.otherField.GetOr(model)
    ensures raw.Options? ==> r.joinSelfAs == raw.joinSelfAs.GetOr(r.otherField)
    ensures raw.Options? ==> r.joinOtherAs == raw.joinOtherAs.GetOr(rf)
  {
    match raw
    case ClassOnly(c) => RelationSpec(c, model, model, rf)
    case Options(c, of, jsa, joa) =>
      var other := of.GetOr(model);
      RelationSpec(c.GetOr(rf), other, jsa.GetOr(other), joa.GetOr(rf))
  }

  /** The keys the relationship elements are stored under, in declaration order. */
  function RelationNames(raws: seq<(RawKey, RawRelation)>): (r: seq<string>)
    ensures forall i :: 0 <= i < |raws| && RelationName(raws[i].0, raws[i].1).Some? ==> RelationName(raws[i].0, raws[i].1).value in r
    decreases |raws|
  {
    if |raws| == 0 then []
    else
      var rest := RelationNames(raws[..|raws| - 1]);
      match RelationName(raws[|raws| - 1].0, raws[|raws| - 1].1)
      case None => rest
      case Some(rf) => rest + [rf]
  }

  datatype RelationFold = RelationFold(specs: Dict<string, RelationSpec>, entries: Dict<string, Draft>)

  /** One relationship array processed left to right, adding a validation entry for each relationship with a non-empty label. */
  function FoldRelations(raws: seq<(RawKey, RawRelation)>, model: string, entries: Dict<string, Draft>, localize: (string, Option<string>) -> string): (r: RelationFold)
    requires entries.Valid()
    ensures r.specs.Valid() && r.entries.Valid()
    ensures forall n :: entries.Has(n) ==> r.entries.Has(n) && r.entries.vals[n] == entries.vals[n]
    ensures forall n :: r.specs.Has(n) <==> n in RelationNames(raws)
    ensures forall n :: r.specs.Has(n) && !EmptyText(localize(n, None)) ==> r.entries.Has(n)
    decreases |raws|
  {
    if |raws| == 0 then RelationFold(EmptyDict(), entries)
    else
      var acc := FoldRelations(raws[..|raws| - 1], model, entries, localize);
      var (key, raw) := raws[|raws| - 1];
      match RelationName(key, raw)
      case None => acc
      case Some(rf) =>
        var spec := NormalizeRelation(rf, raw, model);
        var newEntries := if !acc.entries.Has(rf) && !EmptyText(localize(rf, None))
          then Put(acc.entries, rf, Draft(rf, None, [], None))
          else acc.entries;
        RelationFold(Put(acc.specs, rf, spec), newEntries)
  }

  /** The last declaration of a relationship name is the one kept. */
  lemma {:induction false} FoldRelationsLastWins(raws: seq<(RawKey, RawRelation)>, model: string, entries: Dict<string, Draft>, localize: (string, Option<string>) -> string, i: nat)
    requires entries.Valid()
    requires i < |raws| && RelationName(raws[i].0, raws[i].1).Some?
    requires forall j :: i < j < |raws| ==> RelationName(raws[j].0, raws[j].1) != RelationName(raws[i].0, raws[i].1)
    ensures FoldRelations(raws, model, entries, localize).specs.Has(RelationName(raws[i].0, raws[i].1).value)
    ensures var rf := RelationName(raws[i].0, raws[i].1).value;
            FoldRelations(raws, model, entries, localize).specs.vals[rf] == NormalizeRelation(rf, raws[i].1, model)
    decreases |raws|
  {
    if i < |raws| - 1 {
      FoldRelationsLastWins(raws[..|raws| - 1], model, entries, localize, i);
    }
  }

  // ---------------------------------------------------------------------------
  // Labels

  function Localize(entries: Dict<string, Draft>, localize: (string, Option<string>) -> string): (r: Dict<string, ValidationEntry>)
    requires entries.Valid()
    ensures r.Valid() && r.keys == entries.keys
    ensures forall n :: r.Has(n) ==> entries.Has(n)
    ensures forall n :: entries.Has(n) ==> r.Has(n) && r.vals[n] == ValidationEntry(entries.vals[n].field, localize(n, entries.vals[n].fieldLabel), entries.vals[n].rules, entries.vals[n].getRules)
  {
    Dict(entries.keys, map n | n in entries.vals :: ValidationEntry(entries.vals[n].field, localize(n, entries.vals[n].fieldLabel), entries.vals[n].rules, entries.vals[n].getRules))
  }

  // ---------------------------------------------------------------------------
  // The whole constructor

  datatype Normalized = Normalized(validation: Dict<string, ValidationEntry>, hasOne: Dict<string, RelationSpec>, hasMany: Dict<string, RelationSpec>)

  /** Validation keyed by field, the id entry, the columns' entries, then has_one and has_many. */
  function Normalize(decl: ClassDecl, columns: seq<string>, model: string, localize: (string, Option<string>) -> string): (r: Normalized)
    ensures r.validation.Valid() && r.hasOne.Valid() && r.hasMany.Valid()
    ensures r.validation.Has("id")
    ensures forall c :: c in columns ==> r.validation.Has(c)
    ensures forall i :: 0 <= i < |decl.validation| ==> r.validation.Has(ValidationName(decl.validation[i]))
    ensures "id" !in ValidationNames(decl.validation) ==> r.validation.vals["id"].rules == [Bare("integer")]
    ensures forall n :: r.hasOne.Has(n) <==> n in RelationNames(decl.hasOne)
    ensures forall n :: r.hasMany.Has(n) <==> n in RelationNames(decl.hasMany)
  {
    var fold := FoldValidation(decl.validation);
    var withId := WithIdEntry(fold.entries);
    var withColumns := AddColumns(withId, columns);
    var ones := FoldRelations(decl.hasOne, model, withColumns, localize);
    var manys := FoldRelations(decl.hasMany, model, ones.entries, localize);
    Normalized(Localize(manys.entries, localize), ones.specs, manys.specs)
  }

  /** Fields forced to integers on load: id, then the has_one foreign keys found among the declared fields. */
  function IntvalTracking(decl: ClassDecl): (r: seq<string>)
    ensures |r| >= 1 && r[0] == "id"
    ensures forall f :: f in r[1..] ==> f in decl.fields
    ensures decl.fields == [] ==> r == ["id"]
  {
    var fold := FoldValidation(decl.validation);
    var extra := IntvalFields(decl.hasOne, decl.fields, WithIdEntry(fold.entries));
    assert (["id"] + extra)[1..] == extra;
    ["id"] + extra
  }

  /**
   * Normalises a class declaration against its table's columns. Returns the
   * descriptor and the updated class-key cache.
   */
  function Construct(decl: ClassDecl, columns: seq<string>, cache: map<string, string>, infl: Inflector, localize: (string, Option<string>) -> string): (r: (Descriptor, map<string, string>))
    ensures r.0.table == TableName(decl, infl)
    ensures r.0.fields == decl.fields + columns
    ensures r.0.model == ModelName(decl.model, ClassKey(cache, decl.cls, infl).0)
    ensures r.0.tracking.intval == IntvalTracking(decl)
    ensures r.0.validation.Valid() && r.0.hasOne.Valid() && r.0.hasMany.Valid()
    ensures r.1 == ClassKey(cache, decl.cls, infl).1
  {
    var (key, cache2) := ClassKey(cache, decl.cls, infl);
    var model := ModelName(decl.model, key);
    var norm := Normalize(decl, columns, model, localize);
    var fold := FoldValidation(decl.validation);
    var d := Descriptor(
      decl.cls, model, TableName(decl, infl), decl.prefix, decl.joinPrefix,
      decl.fields + columns, norm.validation, norm.hasOne, norm.hasMany,
      FieldTracking(fold.getRules, fold.matches, IntvalTracking(decl)),
      decl.settings);
    (d, cache2)
  }
}
