/**
 * The magic methods: __call's reading of method names such as
 * where_related_user into a handler and its arguments, the extension lookup it
 * falls back to, and __get's instantiation of related objects.
 */
module Magic {
  import opened Results
  import opened Strings
  import opened PhpValues
  import opened Dicts
  import opened Models
  import opened Context
  import opened Entities
  import opened SqlFunctions

  /** The watched name fragments, most specific first; the first one found in a method name wins. */
  const Watched: seq<string> := [
    "save_", "delete_",
    "get_by_related_", "get_by_related", "get_by_",
    "_related_subquery", "_subquery",
    "_related_", "_related",
    "_join_field",
    "_field_func", "_func"]

  /** trim($s, '_'): underscores removed from both ends. */
  function TrimUnderscores(s: string): (r: string)
    ensures |r| == 0 || (r[0] != '_' && r[|r| - 1] != '_')
    decreases |s|
  {
    if |s| > 0 && s[0] == '_' then TrimUnderscores(s[1..])
    else if |s| > 0 && s[|s| - 1] == '_' then TrimUnderscores(s[..|s| - 1])
    else s
  }

  /** The index of the first watched fragment the name contains, if any. */
  function FirstWatched(name: string, k: nat): (r: Option<nat>)
    requires k <= |Watched|
    ensures r.Some? ==> k <= r.value < |Watched| && Contains(name, Watched[r.value])
    ensures r.Some? ==> forall j :: k <= j < r.value ==> !Contains(name, Watched[j])
    ensures r.None? ==> forall j :: k <= j < |Watched| ==> !Contains(name, Watched[j])
    decreases |Watched| - k
  {
    if k == |Watched| then None
    else if Contains(name, Watched[k]) then Some(k)
    else FirstWatched(name, k + 1)
  }

  /** The extension classes a model, or every model, has loaded: method name -> extension name. */
  datatype Extensions = Extensions(methods: map<string, string>)

  /** Where _extension_method_exists looks. */
  datatype Scope = Local | Global | Both

  /** _extension_method_exists($method, $which): the model's own extensions unless 'global', then the shared ones unless 'local'. */
  predicate ExtensionMethodExists(local: Extensions, global: Extensions, m: string, which: Scope) {
    (which != Global && m in local.methods) || (which != Local && m in global.methods)
  }

  /** What __call ends in: a handler with its first argument and the rest, an extension method, or an exception. */
  datatype Dispatch =
    | Handler(handler: string, first: string, args: seq<SubArg>)
    | Extension(ext: string, local: bool, args: seq<SubArg>)

  /**
   * __call($method, $arguments). With the first watched fragment found in the
   * name, and text on both sides of its first occurrence, the handler gets the
   * text before it and the text after it prepended to the arguments; otherwise
   * it gets the name with the fragment removed. With none, an extension method
   * (the model's own before the shared ones) is called with the object first.
   */
  function Call(m: string, args: seq<SubArg>, local: Extensions, global: Extensions, cls: string): (r: Result<Dispatch>)
    ensures FirstWatched(m, 0).Some? ==>
      r.Success? && r.value.Handler?
      && r.value.handler == "_" + TrimUnderscores(Watched[FirstWatched(m, 0).value])
    ensures FirstWatched(m, 0).None? ==>
      (r.Success? <==> ExtensionMethodExists(local, global, m, Both))
      && (r.Success? ==> r.value.Extension? && (r.value.local <==> ExtensionMethodExists(local, global, m, Local)))
  {
    match FirstWatched(m, 0)
    case Some(k) =>
      var w := Watched[k];
      var pieces := Split(m, w);
      var h := "_" + TrimUnderscores(w);
      if |pieces| >= 2 && !EmptyText(pieces[0]) && !EmptyText(pieces[1]) then
        Success(Handler(h, pieces[0], [Plain(Raw(pieces[1]))] + args))
      else Success(Handler(h, ReplaceAll(m, w, ""), args))
    case None =>
      if ExtensionMethodExists(local, global, m, Local) then Success(Extension(local.methods[m], true, args))
      else if ExtensionMethodExists(local, global, m, Global) then Success(Extension(global.methods[m], false, args))
      else Failure("Unable to call the method \"" + m + "\" on the class " + cls)
  }

  /** Looking in both places finds a method exactly when one of the two single lookups does. */
  lemma BothIsLocalOrGlobal(local: Extensions, global: Extensions, m: string)
    ensures ExtensionMethodExists(local, global, m, Both)
      <==> ExtensionMethodExists(local, global, m, Local) || ExtensionMethodExists(local, global, m, Global)
  {
  }

  /** A method the model and the shared extensions both define is the model's own. */
  lemma LocalExtensionWins(m: string, args: seq<SubArg>, local: Extensions, global: Extensions, cls: string)
    requires FirstWatched(m, 0).None?
    requires m in local.methods && m in global.methods
    ensures Call(m, args, local, global, cls) == Success(Extension(local.methods[m], true, args))
  {
  }

  /**
   * A fragment in the middle: 'prefix<fragment>suffix', where neither side is
   * empty, no earlier fragment occurs, and the fragment occurs once, calls the
   * handler with the prefix and then the suffix before the arguments.
   */
  lemma MiddleFragment(prefix: string, k: nat, suffix: string, args: seq<SubArg>, local: Extensions, global: Extensions, cls: string)
    requires k < |Watched|
    requires var m := prefix + Watched[k] + suffix;
      (forall j :: 0 <= j < k ==> !Contains(m, Watched[j]))
    requires !Contains(prefix, Watched[k]) && !Contains(suffix, Watched[k])
    requires !Contains(prefix + Watched[k][..|Watched[k]| - 1], Watched[k])
    requires !EmptyText(prefix) && !EmptyText(suffix)
    ensures Call(prefix + Watched[k] + suffix, args, local, global, cls)
      == Success(Handler("_" + TrimUnderscores(Watched[k]), prefix, [Plain(Raw(suffix))] + args))
  {
    var w := Watched[k];
    var m := prefix + w + suffix;
    assert |w| > 0;
    FindAfterPrefix(prefix, w, suffix);
    assert Contains(m, w);
    NotFoundBefore(m, 0, k);
    assert FirstWatched(m, 0) == Some(k);
    assert m[..|prefix|] == prefix;
    assert m[|prefix| + |w|..] == suffix;
    SplitNoOccurrence(suffix, w);
    assert Split(m, w) == [prefix, suffix];
  }

  /** Nothing before index k: the first fragment search starting at 0 reaches k. */
  lemma {:induction false} NotFoundBefore(m: string, j: nat, k: nat)
    requires j <= k < |Watched| && Contains(m, Watched[k])
    requires forall i :: j <= i < k ==> !Contains(m, Watched[i])
    ensures FirstWatched(m, j) == Some(k)
    decreases k - j
  {
    if j < k {
      NotFoundBefore(m, j + 1, k);
    }
  }

  /**
   * In 'prefix<w>suffix', the first occurrence of w is right after the
   * prefix when it occurs neither in the prefix nor across its end.
   */
  lemma FindAfterPrefix(prefix: string, w: string, suffix: string)
    requires |w| > 0
    requires !Contains(prefix + w[..|w| - 1], w)
    ensures Find(prefix + w + suffix, w) == Some(|prefix|)
  {
    var m := prefix + w + suffix;
    var p2 := prefix + w[..|w| - 1];
    assert m[|prefix|..|prefix| + |w|] == w;
    forall j | 0 <= j < |prefix| ensures !OccursAt(m, w, j) {
      assert j + |w| <= |p2|;
      assert m[j..j + |w|] == p2[j..j + |w|];
      assert !OccursAt(p2, w, j);
    }
    assert OccursAt(m, w, |prefix|);
  }

  /** A text without the separator explodes to itself. */
  lemma SplitNoOccurrence(s: string, w: string)
    requires |w| > 0 && !Contains(s, w)
    ensures Split(s, w) == [s]
  {
  }

  /** 'save_user': a leading fragment has nothing before it, so the handler gets the rest of the name. */
  lemma LeadingFragment(rest: string, args: seq<SubArg>, local: Extensions, global: Extensions, cls: string)
    requires !Contains(rest, "save_")
    ensures Call("save_" + rest, args, local, global, cls) == Success(Handler("_save", rest, args))
  {
    var m := "save_" + rest;
    assert m[0..5] == "save_";
    assert OccursAt(m, "save_", 0);
    assert FirstWatched(m, 0) == Some(0);
    assert Find(m, "save_") == Some(0);
    assert m[5..] == rest;
    assert m[..0] == "";
    assert Split(m, "save_")[0] == "";
    ReplaceAbsent(rest, "save_", "");
    assert ReplaceAll(m, "save_", "") == "" + "" + rest;
    assert TrimUnderscores("save_") == "save" by {
      assert "save_"[..4] == "save";
      assert TrimUnderscores("save") == "save";
    }
    assert Split(m, "save_") == [""] + Split(rest, "save_");
    assert EmptyText(Split(m, "save_")[0]);
    assert Watched[0] == "save_";
    assert ReplaceAll(m, "save_", "") == rest;
    assert "_" + TrimUnderscores(Watched[0]) == "_save";
  }

  // ---------------------------------------------------------------------------
  // __get for a relation

  /** A related object as __get creates it: the model, the new object, and whether get() runs on it straight away. */
  datatype Related = Related(model: Descriptor, obj: Entity, populated: bool)

  /**
   * The object __get($name) creates for a relation: a new object of the
   * related class whose parent is (other_field, this id), populated or not as
   * decided by the caller.
   */
  function NewRelated(env: Env, d: Descriptor, e: Entity, name: string, populate: bool): (r: Result<Option<Related>>)
    ensures !IsRelated(d, name) ==> r == Success(None)
    ensures IsRelated(d, name) ==> (r.Success? <==> Lookup(env, RelationOf(d, name).value.cls).Success?)
    ensures r.Success? && r.value.Some? ==>
      var spec := RelationOf(d, name).value;
      r.value.value.obj.parent == Some(Parent(spec.otherField, Prop(e, "id")))
      && Lookup(env, spec.cls).Success? && r.value.value.model == Lookup(env, spec.cls).value
      && r.value.value.populated == populate
  {
    if !IsRelated(d, name) then Success(None)
    else
      var spec := RelationOf(d, name).value;
      var obj :- Lookup(env, spec.cls);
      Success(Some(Related(obj, NewEntity.(parent := Some(Parent(spec.otherField, Prop(e, "id")))), populate)))
  }

  /**
   * The relation __get instantiates, as written: the condition reads
   * `exists && many && autoMany || one && autoOne`, so has_one
   * auto-population does not ask whether this object exists.
   */
  function GetRelatedAsWritten(env: Env, d: Descriptor, e: Entity, name: string, autoMany: bool, autoOne: bool): (r: Result<Option<Related>>)
    ensures r.Success? && r.value.Some? ==>
      (r.value.value.populated <==> (Exists(e) && d.hasMany.Has(name) && autoMany) || (d.hasOne.Has(name) && autoOne))
  {
    NewRelated(env, d, e, name, (Exists(e) && d.hasMany.Has(name) && autoMany) || (d.hasOne.Has(name) && autoOne))
  }

  /**
   * The relation __get instantiates, with the existence test applied to both
   * kinds of relation, as the comment above the condition says it should be.
   */
  function GetRelated(env: Env, d: Descriptor, e: Entity, name: string, autoMany: bool, autoOne: bool): (r: Result<Option<Related>>)
    ensures r.Success? && r.value.Some? ==>
      (r.value.value.populated <==> Exists(e) && ((d.hasMany.Has(name) && autoMany) || (d.hasOne.Has(name) && autoOne)))
  {
    NewRelated(env, d, e, name, Exists(e) && ((d.hasMany.Has(name) && autoMany) || (d.hasOne.Has(name) && autoOne)))
  }

  /**
   * __get($name): a relation is instantiated with the model's own switches,
   * under the condition as written; any other name is tried once more in its
   * singular form.
   */
  function Get(env: Env, d: Descriptor, e: Entity, name: string): (r: Result<Option<Related>>)
    ensures IsRelated(d, name) ==> r == GetRelatedAsWritten(env, d, e, name, d.settings.autoPopulateHasMany, d.settings.autoPopulateHasOne)
    ensures !IsRelated(d, name) && env.infl.singular(name) == name ==> r == Success(None)
  {
    if IsRelated(d, name) then GetRelatedAsWritten(env, d, e, name, d.settings.autoPopulateHasMany, d.settings.autoPopulateHasOne)
    else
      var single := env.infl.singular(name);
      if single != name then GetRelatedAsWritten(env, d, e, single, d.settings.autoPopulateHasMany, d.settings.autoPopulateHasOne)
      else Success(None)
  }

  /**
   * As written, reading a has_one of an object that does not exist populates it
   * when has_one auto-population is on; the corrected condition does not.
   */
  lemma HasOnePopulatesUnsaved(env: Env, d: Descriptor, e: Entity, name: string)
    requires !Exists(e) && d.hasOne.Has(name) && d.settings.autoPopulateHasOne
    requires Lookup(env, RelationOf(d, name).value.cls).Success?
    ensures var r := Get(env, d, e, name); r.Success? && r.value.Some? && r.value.value.populated
    ensures var r := GetRelated(env, d, e, name, d.settings.autoPopulateHasMany, d.settings.autoPopulateHasOne);
      r.Success? && r.value.Some? && !r.value.value.populated
  {
  }

  /** Corrected, an object that does not exist never populates a relation, whatever the switches. */
  lemma UnsavedNeverPopulates(env: Env, d: Descriptor, e: Entity, name: string, autoMany: bool, autoOne: bool)
    requires !Exists(e)
    ensures var r := GetRelated(env, d, e, name, autoMany, autoOne); r.Success? && r.value.Some? ==> !r.value.value.populated
  {
  }

  /** For an object that exists, the corrected condition and the one as written agree. */
  lemma ExistingAgrees(env: Env, d: Descriptor, e: Entity, name: string, autoMany: bool, autoOne: bool)
    requires Exists(e)
    ensures GetRelated(env, d, e, name, autoMany, autoOne) == GetRelatedAsWritten(env, d, e, name, autoMany, autoOne)
  {
  }

  /**
   * _get_without_auto_populating($related): both switches off for the one
   * access and then restored, so the object is never populated and the model's
   * switches are what they were.
   */
  function GetWithoutAutoPopulating(env: Env, d: Descriptor, e: Entity, name: string): (r: (Result<Option<Related>>, Settings))
    ensures r.1 == d.settings
    ensures r.0.Success? && r.0.value.Some? ==> !r.0.value.value.populated
    ensures r.0.Success? && r.0.value.Some? ==>
      Get(env, d, e, name).Success? && Get(env, d, e, name).value.Some?
      && r.0.value.value.obj == Get(env, d, e, name).value.value.obj
  {
    var off := d.(settings := d.settings.(autoPopulateHasMany := false, autoPopulateHasOne := false));
    var got := Get(env, off, e, name);
    (got, off.settings.(autoPopulateHasMany := d.settings.autoPopulateHasMany, autoPopulateHasOne := d.settings.autoPopulateHasOne))
  }
}
