/**
 * The SQL function mini-language of func() and the magic *_func,
 * *_field_func and *_subquery methods built on it: how each argument becomes
 * SQL text, the argument-count checks, and how the clause is handed on.
 */
module SqlFunctions {
  import opened Results
  import opened Strings
  import opened PhpValues
  import opened Models
  import opened Context
  import opened Query
  import opened Relations

  /**
   * An argument of func(): a string, any other scalar, or an array read as a
   * formula. A formula element under a numeric key is an operand; under a
   * string key it is a nested function call with the element as its arguments.
   */
  datatype FuncArg = Raw(text: string) | Literal(v: Value) | Formula(parts: seq<Part>)
  datatype Part = Operand(arg: FuncArg) | Nested(call: FuncCall)
  datatype FuncCall = FuncCall(name: string, args: seq<FuncArg>)

  /** Generated SQL text and the query after any joins it needed. */
  datatype Sql = Sql(text: string, q: QueryState)

  /** The operators a formula copies as they are. */
  const Operators: set<string> := {
    "AND", "OR", "NOT",
    "<", ">", "<=", ">=", "=", "<>", "!=",
    "+", "-", "*", "/", "%", "^",
    "|/", "||/", "!", "!!", "@", "&", "|", "#", "~",
    "<<", ">>"}

  /** The first character is `open` and the last `close`. */
  predicate Enclosed(s: string, open: char, close: char) {
    |s| >= 1 && s[0] == open && s[|s| - 1] == close
  }

  /** Copied without escaping: an operator inside a formula, '*', a quoted string or a bracketed one. */
  predicate Verbatim(s: string, inFormula: bool) {
    (inFormula && s in Operators) || s == "*" || Enclosed(s, '\'', '\'') || Enclosed(s, '[', ']')
  }

  /** A string argument as PHP converts it for a function name or an alias. */
  function ArgText(a: FuncArg): string {
    match a
    case Raw(s) => s
    case Literal(v) => ToStr(v)
    case Formula(_) => "Array"
  }

  /**
   * The part after '@': a field of this model (qualified, then protected), a
   * 'parent/' reference kept for a subquery, or a property at the end of a
   * relation path, read from the alias the path is joined under.
   */
  function FieldRef(env: Env, d: Descriptor, q: QueryState, a: string): (r: Result<Sql>)
    ensures !HasChar(a, '/') ==> r == Success(Sql(env.protect(Qualify(d, a)), q))
    ensures r.Success? ==> r.value.q.where == q.where
  {
    if HasChar(a, '/') then
      if StartsWith(a, "parent/") then Success(Sql(ReplaceAll(a, "parent/", "${parent}."), q))
      else
        var pieces := Split(a, "/");
        var j :- AddRelatedTable(env, d, q, Join(pieces[..|pieces| - 1], "/"), false);
        AddRelatedTableKeepsWhere(env, d, q, Join(pieces[..|pieces| - 1], "/"), false);
        Success(Sql(env.protect(j.alias + "." + pieces[|pieces| - 1]), j.q))
    else Success(Sql(env.protect(Qualify(d, a)), q))
  }

  /** A string argument: verbatim (brackets dropped), a '@' reference, or an escaped value. */
  function TextArg(env: Env, d: Descriptor, q: QueryState, s: string, inFormula: bool): (r: Result<Sql>)
    ensures Verbatim(s, inFormula) && !Enclosed(s, '[', ']') ==> r == Success(Sql(s, q))
    ensures !Verbatim(s, inFormula) && !(|s| > 0 && s[0] == '@') ==> r == Success(Sql(env.escape(s), q))
    ensures r.Success? ==> r.value.q.where == q.where
  {
    if Verbatim(s, inFormula) then Success(Sql(if Enclosed(s, '[', ']') then s[1..|s| - 1] else s, q))
    else if |s| > 0 && s[0] == '@' then FieldRef(env, d, q, s[1..])
    else Success(Sql(env.escape(s), q))
  }

  /** _process_function_arg($arg, $is_formula). */
  function ProcessArg(env: Env, d: Descriptor, q: QueryState, a: FuncArg, inFormula: bool): (r: Result<Sql>)
    ensures r.Success? ==> r.value.q.where == q.where
    decreases a, 2
  {
    match a
    case Raw(s) => TextArg(env, d, q, s, inFormula)
    case Literal(v) => Success(Sql(ToStr(v), q))
    case Formula(_) => FormulaFrom(env, d, q, a, 0, "")
  }

  /** A formula's elements from `i` on, separated by one space once the text so far is non-empty in PHP's sense. */
  function FormulaFrom(env: Env, d: Descriptor, q: QueryState, f: FuncArg, i: nat, acc: string): (r: Result<Sql>)
    requires f.Formula? && i <= |f.parts|
    ensures r.Success? ==> r.value.q.where == q.where
    decreases f, 1, |f.parts| - i
  {
    if i == |f.parts| then Success(Sql(acc, q))
    else
      var piece :- match f.parts[i]
        case Operand(x) => ProcessArg(env, d, q, x, true)
        case Nested(c) => CallText(env, d, q, c);
      FormulaFrom(env, d, piece.q, f, i + 1, (if EmptyText(acc) then acc else acc + " ") + piece.text)
  }

  /** func($name, ...$args): the name, then the processed arguments in parentheses, separated by ', '. */
  function CallText(env: Env, d: Descriptor, q: QueryState, c: FuncCall): (r: Result<Sql>)
    ensures r.Success? ==> r.value.q.where == q.where
    ensures r.Success? ==> StartsWith(r.value.text, c.name + "(") && r.value.text[|r.value.text| - 1] == ')'
    decreases c, 1
  {
    var done :- ArgsFrom(env, d, q, c, 0, []);
    var text := c.name + "(" + Join(done.0, ", ") + ")";
    assert text[..|c.name + "("|] == c.name + "(";
    Success(Sql(text, done.1))
  }

  /** The arguments of a call from `i` on, each processed outside any formula, collected in order. */
  function ArgsFrom(env: Env, d: Descriptor, q: QueryState, c: FuncCall, i: nat, texts: seq<string>): (r: Result<(seq<string>, QueryState)>)
    requires i <= |c.args|
    ensures r.Success? ==> r.value.1.where == q.where
    ensures r.Success? ==> |r.value.0| == |texts| + |c.args| - i && r.value.0[..|texts|] == texts
    ensures r.Success? && i < |c.args| ==>
      var first := ProcessArg(env, d, q, c.args[i], false);
      first.Success? && r.value.0[|texts|] == first.value.text
    decreases c, 0, |c.args| - i
  {
    if i == |c.args| then Success((texts, q))
    else
      var piece :- ProcessArg(env, d, q, c.args[i], false);
      var rest :- ArgsFrom(env, d, piece.q, c, i + 1, texts + [piece.text]);
      assert rest.0[..|texts|] == rest.0[..|texts| + 1][..|texts|];
      assert rest.0[|texts|] == rest.0[..|texts| + 1][|texts|];
      Success(rest)
  }

  /** func() as called: the name, then the arguments. */
  function Func(env: Env, d: Descriptor, q: QueryState, name: string, args: seq<FuncArg>): (r: Result<Sql>)
    ensures r.Success? ==> r.value.q.where == q.where
  {
    CallText(env, d, q, FuncCall(name, args))
  }

  /** An argument that processes without adding a join. */
  predicate KeepsQuery(env: Env, d: Descriptor, q: QueryState, a: FuncArg, inFormula: bool) {
    ProcessArg(env, d, q, a, inFormula).Success? && ProcessArg(env, d, q, a, inFormula).value.q == q
  }

  /** The texts of arguments that all keep the query, in order. */
  function ArgTexts(env: Env, d: Descriptor, q: QueryState, args: seq<FuncArg>, inFormula: bool): (r: seq<string>)
    requires forall k :: 0 <= k < |args| ==> KeepsQuery(env, d, q, args[k], inFormula)
    ensures |r| == |args|
    ensures forall k :: 0 <= k < |args| ==> KeepsQuery(env, d, q, args[k], inFormula) && r[k] == ProcessArg(env, d, q, args[k], inFormula).value.text
  {
    if |args| == 0 then []
    else
      assert KeepsQuery(env, d, q, args[0], inFormula);
      assert forall k :: 1 <= k < |args| ==> args[1..][k - 1] == args[k];
      [ProcessArg(env, d, q, args[0], inFormula).value.text] + ArgTexts(env, d, q, args[1..], inFormula)
  }

  lemma {:induction false} ArgsFromKeeping(env: Env, d: Descriptor, q: QueryState, c: FuncCall, i: nat, texts: seq<string>)
    requires i <= |c.args|
    requires forall k :: i <= k < |c.args| ==> KeepsQuery(env, d, q, c.args[k], false)
    ensures ArgsFrom(env, d, q, c, i, texts) == Success((texts + ArgTexts(env, d, q, c.args[i..], false), q))
    decreases |c.args| - i
  {
    if i == |c.args| {
      assert c.args[i..] == [];
      assert texts + [] == texts;
    } else {
      var text := ProcessArg(env, d, q, c.args[i], false).value.text;
      ArgsFromKeeping(env, d, q, c, i + 1, texts + [text]);
      ArgsFromStep(env, d, q, c, i, texts);
      ArgTextsStep(env, d, q, c.args, i);
      var rest := ArgTexts(env, d, q, c.args[i + 1..], false);
      assert (texts + [text]) + rest == texts + ([text] + rest);
    }
  }

  /** An argument that adds no join passes its text on and the query unchanged. */
  lemma ArgsFromStep(env: Env, d: Descriptor, q: QueryState, c: FuncCall, i: nat, texts: seq<string>)
    requires i < |c.args| && KeepsQuery(env, d, q, c.args[i], false)
    ensures ArgsFrom(env, d, q, c, i, texts) == ArgsFrom(env, d, q, c, i + 1, texts + [ProcessArg(env, d, q, c.args[i], false).value.text])
  {
  }

  lemma ArgTextsStep(env: Env, d: Descriptor, q: QueryState, args: seq<FuncArg>, i: nat)
    requires i < |args|
    requires forall k :: i <= k < |args| ==> KeepsQuery(env, d, q, args[k], false)
    ensures ArgTexts(env, d, q, args[i..], false) == [ProcessArg(env, d, q, args[i], false).value.text] + ArgTexts(env, d, q, args[i + 1..], false)
  {
    assert args[i..][1..] == args[i + 1..];
  }

  /**
   * func('NAME', args...) with arguments that add no join: `NAME(`, each
   * argument's processed text separated by ', ', then `)`, on the query unchanged.
   */
  lemma FuncOfArgs(env: Env, d: Descriptor, q: QueryState, name: string, args: seq<FuncArg>)
    requires forall k :: 0 <= k < |args| ==> KeepsQuery(env, d, q, args[k], false)
    ensures Func(env, d, q, name, args) == Success(Sql(name + "(" + Join(ArgTexts(env, d, q, args, false), ", ") + ")", q))
  {
    ArgsFromKeeping(env, d, q, FuncCall(name, args), 0, []);
    assert args[0..] == args;
  }

  /** A formula part that adds no join and whose text is non-empty in PHP's sense. */
  predicate PlainPart(env: Env, d: Descriptor, q: QueryState, p: Part) {
    var r := match p
      case Operand(x) => ProcessArg(env, d, q, x, true)
      case Nested(c) => CallText(env, d, q, c);
    r.Success? && r.value.q == q && !EmptyText(r.value.text)
  }

  function PartText(env: Env, d: Descriptor, q: QueryState, p: Part): string
    requires PlainPart(env, d, q, p)
  {
    match p
    case Operand(x) => ProcessArg(env, d, q, x, true).value.text
    case Nested(c) => CallText(env, d, q, c).value.text
  }

  function PartTexts(env: Env, d: Descriptor, q: QueryState, parts: seq<Part>): (r: seq<string>)
    requires forall k :: 0 <= k < |parts| ==> PlainPart(env, d, q, parts[k])
    ensures |r| == |parts|
    ensures forall k :: 0 <= k < |parts| ==> r[k] == PartText(env, d, q, parts[k])
  {
    if |parts| == 0 then [] else [PartText(env, d, q, parts[0])] + PartTexts(env, d, q, parts[1..])
  }

  lemma {:induction false} FormulaFromPlain(env: Env, d: Descriptor, q: QueryState, f: FuncArg, i: nat, acc: string)
    requires f.Formula? && i <= |f.parts|
    requires forall k :: i <= k < |f.parts| ==> PlainPart(env, d, q, f.parts[k])
    requires !EmptyText(acc)
    ensures FormulaFrom(env, d, q, f, i, acc) == Success(Sql(Join([acc] + PartTexts(env, d, q, f.parts[i..]), " "), q))
    decreases |f.parts| - i
  {
    if i == |f.parts| {
      assert f.parts[i..] == [];
    } else {
      var text := PartText(env, d, q, f.parts[i]);
      FormulaFromPlain(env, d, q, f, i + 1, acc + " " + text);
      var rest := PartTexts(env, d, q, f.parts[i + 1..]);
      assert f.parts[i..][1..] == f.parts[i + 1..];
      assert PartTexts(env, d, q, f.parts[i..]) == [text] + rest;
      JoinStep(acc, text, rest, " ");
    }
  }

  /** Joining `a`, `b` and the rest is joining `a + sep + b` and the rest. */
  lemma JoinStep(a: string, b: string, rest: seq<string>, sep: string)
    ensures Join([a] + ([b] + rest), sep) == Join([a + sep + b] + rest, sep)
  {
    if |rest| == 0 {
      assert [a] + ([b] + rest) == [a, b];
      assert [a + sep + b] + rest == [a + sep + b];
    } else {
      assert ([a] + ([b] + rest))[1..] == [b] + rest;
      assert ([b] + rest)[1..] == rest;
      assert ([a + sep + b] + rest)[1..] == rest;
    }
  }

  /**
   * A formula of parts that add no join and have non-empty texts: the parts'
   * texts separated by single spaces, on the query unchanged.
   */
  lemma FormulaOfParts(env: Env, d: Descriptor, q: QueryState, f: FuncArg)
    requires f.Formula?
    requires forall k :: 0 <= k < |f.parts| ==> PlainPart(env, d, q, f.parts[k])
    ensures FormulaFrom(env, d, q, f, 0, "") == Success(Sql(Join(PartTexts(env, d, q, f.parts), " "), q))
  {
    if |f.parts| > 0 {
      var text := PartText(env, d, q, f.parts[0]);
      FormulaFromPlain(env, d, q, f, 1, text);
      assert PartTexts(env, d, q, f.parts) == [text] + PartTexts(env, d, q, f.parts[1..]);
      assert "" + text == text;
      assert FormulaFrom(env, d, q, f, 0, "") == FormulaFrom(env, d, q, f, 1, text);
    }
  }

  // ---------------------------------------------------------------------------
  // Argument forms

  /** A bracketed string goes in as it is, without its brackets, inside a formula or out. */
  lemma BracketStripped(env: Env, d: Descriptor, q: QueryState, x: string, inFormula: bool)
    ensures ProcessArg(env, d, q, Raw("[" + x + "]"), inFormula) == Success(Sql(x, q))
  {
    var s := "[" + x + "]";
    assert Enclosed(s, '[', ']');
    assert s[1..|s| - 1] == x;
  }

  /** An operator is copied only inside a formula; as a plain argument it is escaped like any value. */
  lemma OperatorOnlyInFormula(env: Env, d: Descriptor, q: QueryState, op: string)
    requires op in Operators && op != "*" && op != "@"
    ensures ProcessArg(env, d, q, Raw(op), true) == Success(Sql(op, q))
    ensures ProcessArg(env, d, q, Raw(op), false) == Success(Sql(env.escape(op), q))
  {
    assert !Enclosed(op, '\'', '\'') && !Enclosed(op, '[', ']') && !(|op| > 0 && op[0] == '@') by {
      assert |op| > 0 && op[0] != '\'' && op[0] != '[' && op[0] != '@';
    }
  }

  /** Only the operator '@' itself begins with '@'. */
  lemma AtNotOperator(s: string)
    requires |s| >= 2 && s[0] == '@'
    ensures s !in Operators
  {
  }

  /** '@field' is this model's field, table-qualified and protected; the query is unchanged. */
  lemma FieldReference(env: Env, d: Descriptor, q: QueryState, f: string, inFormula: bool)
    requires !HasChar(f, '/') && |f| > 0
    ensures ProcessArg(env, d, q, Raw("@" + f), inFormula) == Success(Sql(env.protect(Qualify(d, f)), q))
  {
    var s := "@" + f;
    assert s[1..] == f;
    assert s[0] == '@';
    AtNotOperator(s);
  }

  /** '@parent/x' stays a '${parent}.x' reference for the enclosing query to fill in. */
  lemma ParentReference(env: Env, d: Descriptor, q: QueryState, x: string, inFormula: bool)
    requires !Contains(x, "parent/")
    ensures ProcessArg(env, d, q, Raw("@parent/" + x), inFormula) == Success(Sql("${parent}." + x, q))
  {
    var s := "@parent/" + x;
    var a := s[1..];
    assert a == "parent/" + x;
    assert a[6] == '/';
    assert StartsWith(a, "parent/");
    assert s[0] == '@';
    AtNotOperator(s);
    assert Find(a, "parent/") == Some(0) by {
      assert a[0..7] == "parent/";
    }
    assert a[7..] == x;
    ReplaceAbsent(x, "parent/", "${parent}.");
    assert a[..0] == "";
    assert ReplaceAll(a, "parent/", "${parent}.") == "" + "${parent}." + x;
    assert "" + "${parent}." + x == "${parent}." + x;
    assert FieldRef(env, d, q, a) == Success(Sql("${parent}." + x, q));
  }

  /**
   * '@a/b/prop' joins the path 'a/b' as _add_related_table does and reads
   * 'prop' from the alias it returns.
   */
  lemma RelatedReference(env: Env, d: Descriptor, q: QueryState, path: string, prop: string, inFormula: bool)
    requires !HasChar(prop, '/')
    requires !StartsWith(path + "/" + prop, "parent/")
    ensures var r := ProcessArg(env, d, q, Raw("@" + path + "/" + prop), inFormula);
      var j := AddRelatedTable(env, d, q, path, false);
      (j.Failure? ==> r.Failure?)
      && (j.Success? ==> r == Success(Sql(env.protect(j.value.alias + "." + prop), j.value.q)))
  {
    var s := "@" + path + "/" + prop;
    assert s[1..] == path + "/" + prop;
    assert s[0] == '@';
    AtNotOperator(s);
    RelatedFieldRef(env, d, q, path, prop);
  }

  /** The reference after '@' of a relation path and a property. */
  lemma RelatedFieldRef(env: Env, d: Descriptor, q: QueryState, path: string, prop: string)
    requires !HasChar(prop, '/')
    requires !StartsWith(path + "/" + prop, "parent/")
    ensures var r := FieldRef(env, d, q, path + "/" + prop);
      var j := AddRelatedTable(env, d, q, path, false);
      (j.Failure? ==> r.Failure?)
      && (j.Success? ==> r == Success(Sql(env.protect(j.value.alias + "." + prop), j.value.q)))
  {
    var a := path + "/" + prop;
    assert a[|path|] == '/';
    SplitLast(path, '/', prop);
    var pieces := Split(a, "/");
    assert pieces[..|pieces| - 1] == Split(path, "/");
    assert pieces[|pieces| - 1] == prop;
    JoinSplit(path, "/");
  }

  /** Exploding 'x/last', where 'last' has no separator, gives the pieces of x and then 'last'. */
  lemma {:induction false} SplitLast(x: string, c: char, last: string)
    requires !HasChar(last, c)
    ensures Split(x + [c] + last, [c]) == Split(x, [c]) + [last]
    decreases |x|
  {
    if !HasChar(x, c) {
      SplitAtFirst(x, c, last);
      SplitNoSep(last, c);
      SplitNoSep(x, c);
    } else {
      var i := FirstOccurrence(x, c);
      var head := x[..i];
      var tail := x[i + 1..];
      assert x == head + [c] + tail;
      SplitAtFirst(head, c, tail + [c] + last);
      assert x + [c] + last == head + [c] + (tail + [c] + last);
      SplitLast(tail, c, last);
      SplitAtFirst(head, c, tail);
    }
  }

  /** The first position of a character that occurs. */
  lemma FirstOccurrence(x: string, c: char) returns (i: nat)
    requires HasChar(x, c)
    ensures i < |x| && x[i] == c && !HasChar(x[..i], c)
  {
    var k :| 0 <= k < |x| && x[k] == c;
    assert OccursAt(x, [c], k) by {
      assert x[k..k + 1] == [c];
    }
    i := Find(x, [c]).value;
    assert x[i..i + 1] == [c];
    assert !HasChar(x[..i], c) by {
      forall m | 0 <= m < i ensures x[..i][m] != c {
        assert !OccursAt(x, [c], m);
        assert x[m..m + 1] == [x[m]];
      }
    }
  }

  /** where_in and or_where_in call the plain where and or_where builders, with ` IN ` after the field and the escape flag FALSE. */
  lemma InBuilder(q: QueryState, pre: string, field: string, value: SubArg)
    requires pre == "where" || pre == "or_where"
    ensures SpecialClause(q, pre + "_in", field, value, None).call.value == Invocation(pre, field + " IN ", value, Some(Plain(Literal(Bool(false)))))
  {
    var s := pre + "_in";
    assert OccursAt(s, "where_in", |pre| - 5) by {
      assert s[|pre| - 5..|pre| + 3] == "where_in";
    }
    assert Contains(s, "where_in");
    NoEarlierIn(pre);
    ReplaceAllOnce(pre, "_in");
  }

  /** where_not_in and or_where_not_in call where and or_where, with ` NOT IN ` after the field. */
  lemma NotInBuilder(q: QueryState, pre: string, field: string, value: SubArg)
    requires pre == "where" || pre == "or_where"
    ensures SpecialClause(q, pre + "_not_in", field, value, None).call.value == Invocation(pre, field + " NOT IN ", value, Some(Plain(Literal(Bool(false)))))
  {
    var s := pre + "_not_in";
    assert OccursAt(s, "where_not_in", |pre| - 5) by {
      assert s[|pre| - 5..|pre| + 7] == "where_not_in";
    }
    assert Contains(s, "where_not_in");
    NoWhereIn(pre);
    NoEarlierNotIn(pre);
    ReplaceAllOnce(pre, "_not_in");
  }

  /** `where_not_in` and `or_where_not_in` do not contain `where_in`. */
  lemma NoWhereIn(pre: string)
    requires pre == "where" || pre == "or_where"
    ensures !Contains(pre + "_not_in", "where_in")
  {
    var s := pre + "_not_in";
    forall j: nat ensures !OccursAt(s, "where_in", j) {
      if j + 8 <= |s| {
        assert s[j..j + 8][0] == s[j] && s[j..j + 8][6] == s[j + 6];
      }
    }
  }

  /** In `where_in` and `or_where_in` the only `_in` is the last. */
  lemma NoEarlierIn(pre: string)
    requires pre == "where" || pre == "or_where"
    ensures forall j: nat :: j < |pre| ==> !OccursAt(pre + "_in", "_in", j)
  {
    forall j: nat | j < |pre| ensures !OccursAt(pre + "_in", "_in", j) {
      var s := pre + "_in";
      if j + 3 <= |s| {
        assert s[j..j + 3][0] == s[j] && s[j..j + 3][1] == s[j + 1];
      }
    }
  }

  /** In `where_not_in` and `or_where_not_in` the only `_not_in` is the last. */
  lemma NoEarlierNotIn(pre: string)
    requires pre == "where" || pre == "or_where"
    ensures forall j: nat :: j < |pre| ==> !OccursAt(pre + "_not_in", "_not_in", j)
  {
    forall j: nat | j < |pre| ensures !OccursAt(pre + "_not_in", "_not_in", j) {
      var s := pre + "_not_in";
      if j + 7 <= |s| {
        assert s[j..j + 7][0] == s[j] && s[j..j + 7][1] == s[j + 1];
      }
    }
  }

  /** Two field arguments: func('NAME', '@a', '@b') is NAME(<a>, <b>) with both qualified. */
  lemma TwoFields(env: Env, d: Descriptor, q: QueryState, name: string, a: string, b: string)
    requires !HasChar(a, '/') && !HasChar(b, '/') && |a| > 0 && |b| > 0
    ensures Func(env, d, q, name, [Raw("@" + a), Raw("@" + b)])
      == Success(Sql(name + "(" + env.protect(Qualify(d, a)) + ", " + env.protect(Qualify(d, b)) + ")", q))
  {
    FieldReference(env, d, q, a, false);
    FieldReference(env, d, q, b, false);
    var args := [Raw("@" + a), Raw("@" + b)];
    var pa := env.protect(Qualify(d, a));
    var pb := env.protect(Qualify(d, b));
    assert KeepsQuery(env, d, q, args[0], false) && KeepsQuery(env, d, q, args[1], false);
    FuncOfArgs(env, d, q, name, args);
    var texts := ArgTexts(env, d, q, args, false);
    assert texts == [pa, pb];
    assert texts[1..] == [pb];
    assert Join(texts, ", ") == pa + ", " + pb;
    CallOfTwo(name, pa, pb);
  }

  lemma CallOfTwo(name: string, x: string, y: string)
    ensures name + "(" + (x + ", " + y) + ")" == name + "(" + x + ", " + y + ")"
  {
  }

  /** A formula's operands are joined by single spaces, operators copied: ['@a', '+', 1] is '<a> + 1'. */
  lemma FormulaOfOperands(env: Env, d: Descriptor, q: QueryState, a: string, n: int)
    requires !HasChar(a, '/') && |a| > 0
    requires !EmptyText(env.protect(Qualify(d, a)))
    ensures ProcessArg(env, d, q, Formula([Operand(Raw("@" + a)), Operand(Raw("+")), Operand(Literal(Int(n)))]), false)
      == Success(Sql(env.protect(Qualify(d, a)) + " + " + IntToStr(n), q))
  {
    var f := Formula([Operand(Raw("@" + a)), Operand(Raw("+")), Operand(Literal(Int(n)))]);
    var pa := env.protect(Qualify(d, a));
    FieldReference(env, d, q, a, true);
    OperatorOnlyInFormula(env, d, q, "+");
    var acc2 := pa + " " + "+";
    assert !EmptyText(acc2) by {
      assert |acc2| >= 2;
    }
    OperandStep(env, d, q, f, 0, "", pa);
    assert "" + pa == pa;
    OperandStep(env, d, q, f, 1, pa, "+");
    OperandStep(env, d, q, f, 2, acc2, IntToStr(n));
    SpacedOperator(pa, IntToStr(n));
  }

  lemma SpacedOperator(x: string, s: string)
    ensures x + " " + "+" + " " + s == x + " + " + s
  {
    assert " " + "+" + " " == " + ";
  }

  /** One operand of a formula that leaves the query alone adds its text to what came before. */
  lemma OperandStep(env: Env, d: Descriptor, q: QueryState, f: FuncArg, i: nat, acc: string, t: string)
    requires f.Formula? && i < |f.parts| && f.parts[i].Operand?
    requires ProcessArg(env, d, q, f.parts[i].arg, true) == Success(Sql(t, q))
    ensures FormulaFrom(env, d, q, f, i, acc) == FormulaFrom(env, d, q, f, i + 1, (if EmptyText(acc) then acc else acc + " ") + t)
  {
  }

  // ---------------------------------------------------------------------------
  // The magic *_func, *_field_func and *_subquery methods

  /** An argument of a *_subquery method: a query object (its SQL) or an ordinary value. */
  datatype SubArg = Sub(sql: string) | Plain(a: FuncArg)

  /** A call on the query builder the method ends in: where/having/... with a field, a value and, if given, a third argument. */
  datatype Invocation = Invocation(builder: string, field: string, value: SubArg, extra: Option<SubArg>)

  /** What a magic method leaves: the query (with any direct SELECT added) and the builder call it delegates to. */
  datatype Emitted = Emitted(q: QueryState, call: Option<Invocation>)

  /**
   * _process_special_query_clause: '…where_in' and '…where_not_in' become the
   * plain where with ' IN ' / ' NOT IN ' after the field; a missing third
   * argument defaults to FALSE.
   */
  function SpecialClause(q: QueryState, query: string, field: string, value: SubArg, extra: Option<SubArg>): (r: Emitted)
    ensures r.q == q && r.call.Some? && r.call.value.value == value
    ensures extra.None? ==> r.call.value.extra == Some(Plain(Literal(Bool(false))))
    ensures extra.Some? ==> r.call.value.extra == extra
    ensures Contains(query, "where_in") ==> r.call.value.field == field + " IN "
    ensures !Contains(query, "where_in") && Contains(query, "where_not_in") ==> r.call.value.field == field + " NOT IN "
    ensures Contains(query, "where_in") ==> r.call.value.builder == ReplaceAll(query, "_in", "")
    ensures !Contains(query, "where_in") && Contains(query, "where_not_in") ==> r.call.value.builder == ReplaceAll(query, "_not_in", "")
    ensures !Contains(query, "where_in") && !Contains(query, "where_not_in") ==> r.call.value.builder == query && r.call.value.field == field
  {
    var extra2 := if extra.None? then Some(Plain(Literal(Bool(false)))) else extra;
    if Contains(query, "where_in") then Emitted(q, Some(Invocation(ReplaceAll(query, "_in", ""), field + " IN ", value, extra2)))
    else if Contains(query, "where_not_in") then Emitted(q, Some(Invocation(ReplaceAll(query, "_not_in", ""), field + " NOT IN ", value, extra2)))
    else Emitted(q, Some(Invocation(query, field, value, extra2)))
  }

  /**
   * _func($query, $args): at least two arguments. For select, the last is the
   * alias and 'func(...) AS alias' is added to the SELECT list directly;
   * otherwise the last is the value the builder method gets with the function text.
   */
  function FuncClause(env: Env, d: Descriptor, q: QueryState, query: string, args: seq<FuncArg>): (r: Result<Emitted>)
    ensures |args| < 2 ==> r == Failure("Invalid number of arguments to " + query + "_func: must be at least 2 arguments.")
    ensures r.Success? && query == "select" ==>
      var f := Func(env, d, q, ArgText(args[0]), args[1..|args| - 1]);
      r.value.call.None? && f.Success? && |r.value.q.select| > 0
      && r.value.q.select[|r.value.q.select| - 1] == f.value.text + " AS " + ArgText(args[|args| - 1])
    ensures r.Success? && query != "select" ==>
      var f := Func(env, d, q, ArgText(args[0]), args[1..|args| - 1]);
      f.Success? && r.value.q == f.value.q && r.value.call == Some(Invocation(query, f.value.text, Plain(args[|args| - 1]), None))
    ensures r.Success? ==> r.value.q.where == q.where
  {
    if |args| < 2 then Failure("Invalid number of arguments to " + query + "_func: must be at least 2 arguments.")
    else if query == "select" then
      var s :- Func(env, d, q, ArgText(args[0]), args[1..|args| - 1]);
      Success(Emitted(s.q.(select := s.q.select + [s.text + " AS " + ArgText(args[|args| - 1])]), None))
    else
      var s :- Func(env, d, q, ArgText(args[0]), args[1..|args| - 1]);
      Success(Emitted(s.q, Some(Invocation(query, s.text, Plain(args[|args| - 1]), None))))
  }

  /** _field_func($query, $args): at least two arguments; the first is the field, the rest a func() call. */
  function FieldFuncClause(env: Env, d: Descriptor, q: QueryState, query: string, args: seq<FuncArg>): (r: Result<Emitted>)
    ensures |args| < 2 ==> r == Failure("Invalid number of arguments to " + query + "_field_func: must be at least 2 arguments.")
    ensures r.Success? ==> r.value.call.Some? && r.value.q.where == q.where
  {
    if |args| < 2 then Failure("Invalid number of arguments to " + query + "_field_func: must be at least 2 arguments.")
    else
      var s :- Func(env, d, q, ArgText(args[1]), args[2..]);
      Success(SpecialClause(s.q, query, ArgText(args[0]), Plain(Raw(s.text)), None))
  }

  /** isset($args[k]) for an argument that was given. */
  predicate IsSetArg(a: SubArg) {
    !(a.Plain? && a.a.Literal? && a.a.v.Null?)
  }

  /**
   * _parse_subquery_object: a query object is wrapped in parentheses; the
   * table-reference rewriting of the subquery's SQL is `rewrite`; newlines get
   * a tab; '${parent}' becomes this table.
   */
  function ParseSubquery(d: Descriptor, rewrite: string -> string, a: SubArg): string {
    var s := match a
      case Sub(sql) => "(" + sql + ")"
      case Plain(x) => ArgText(x);
    ReplaceAll(ReplaceAll(rewrite(s), "\n", "\n\t"), "${parent}", d.table)
  }

  /** A '${parent}.x' reference in a subquery is read from this model's table. */
  lemma ParentIsTable(d: Descriptor, x: string)
    requires !Contains(x, "${parent}") && !Contains(x, "\n") && !HasChar(d.table, '\n')
    ensures ParseSubquery(d, s => s, Plain(Raw("${parent}." + x))) == d.table + "." + x
  {
    var s := "${parent}." + x;
    ParentRefHasNoNewline(x);
    ReplaceAbsent(s, "\n", "\n\t");
    assert Find(s, "${parent}") == Some(0) by {
      assert s[0..9] == "${parent}";
    }
    assert s[9..] == "." + x;
    DotKeepsParentAbsent(x);
    ReplaceAbsent("." + x, "${parent}", d.table);
  }

  lemma ParentRefHasNoNewline(x: string)
    requires !Contains(x, "\n")
    ensures !Contains("${parent}." + x, "\n")
  {
    var s := "${parent}." + x;
    if Contains(s, "\n") {
      var i := Find(s, "\n").value;
      assert s[i..i + 1] == "\n";
      assert s[i] == '\n';
      if i < 10 {
        assert false;
      } else {
        assert x[i - 10..i - 9] == "\n";
        assert OccursAt(x, "\n", i - 10);
        assert false;
      }
    }
  }

  lemma DotKeepsParentAbsent(x: string)
    requires !Contains(x, "${parent}")
    ensures !Contains("." + x, "${parent}")
  {
    if Contains("." + x, "${parent}") {
      var i := Find("." + x, "${parent}").value;
      assert ("." + x)[i] == '$';
      assert i >= 1;
      assert ("." + x)[i..i + 9] == x[i - 1..i + 8];
      assert OccursAt(x, "${parent}", i - 1);
      assert false;
    }
  }

  /**
   * _subquery($query, $args): at least one argument, and two for select, which
   * adds '(subquery) AS alias' to the SELECT list. Otherwise a query object (or
   * a lone string) first is the field, compared with the protected second
   * argument; a field name first is compared with the second argument.
   */
  function SubqueryClause(env: Env, d: Descriptor, rewrite: string -> string, q: QueryState, query: string, args: seq<SubArg>): (r: Result<Emitted>)
    ensures |args| < 1 ==> r == Failure("Invalid arguments on " + query + "_subquery: must be at least one argument.")
    ensures |args| == 1 && query == "select" ==> r == Failure("Invalid number of arguments to select_subquery: must be exactly 2 arguments.")
    ensures |args| >= 2 && query == "select" ==>
      r == Success(Emitted(q.(select := q.select + [ParseSubquery(d, rewrite, args[0]) + " AS " + SubText(args[1])]), None))
    ensures |args| >= 1 && query != "select" ==> r.Success? && r.value.q == q && r.value.call.Some?
  {
    if |args| < 1 then Failure("Invalid arguments on " + query + "_subquery: must be at least one argument.")
    else if query == "select" then
      if |args| < 2 then Failure("Invalid number of arguments to select_subquery: must be exactly 2 arguments.")
      else Success(Emitted(q.(select := q.select + [ParseSubquery(d, rewrite, args[0]) + " AS " + SubText(args[1])]), None))
    else
      var second := |args| > 1 && IsSetArg(args[1]);
      var extra := if |args| > 2 && IsSetArg(args[2]) then Some(args[2]) else None;
      if args[0].Sub? || (args[0].a.Raw? && !second) then
        var value := if second then Plain(Raw(env.protect(Qualify(d, SubText(args[1]))))) else Plain(Literal(Null));
        Success(SpecialClause(q, query, ParseSubquery(d, rewrite, args[0]), value, extra))
      else
        var value := if |args| < 2 then Plain(Literal(Null))
          else if args[1].Sub? then Plain(Raw(ParseSubquery(d, rewrite, args[1])))
          else args[1];
        Success(SpecialClause(q, query, Qualify(d, SubText(args[0])), value, extra))
  }

  /** A subquery argument used as text. */
  function SubText(a: SubArg): string {
    match a
    case Sub(sql) => sql
    case Plain(x) => ArgText(x)
  }

  /** where_subquery(field, $subquery): the field is qualified and the subquery's SQL compared with it. */
  lemma FieldAgainstSubquery(env: Env, d: Descriptor, rewrite: string -> string, q: QueryState, field: string, sql: string)
    ensures var r := SubqueryClause(env, d, rewrite, q, "where", [Plain(Raw(field)), Sub(sql)]);
      r.Success? && r.value.call == Some(Invocation("where", Qualify(d, field), Plain(Raw(ParseSubquery(d, rewrite, Sub(sql)))), Some(Plain(Literal(Bool(false))))))
  {
    assert !Contains("where", "where_in") && !Contains("where", "where_not_in") by {
      assert forall j :: !OccursAt("where", "where_in", j);
      assert forall j :: !OccursAt("where", "where_not_in", j);
    }
  }
}
