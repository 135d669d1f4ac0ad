/**
 * PHP scalar values as the ORM sees them in fields, rows and rule parameters,
 * with the truthiness, casting and loose-comparison rules of PHP 5/7.
 */
module PhpValues {
  import opened Strings

  datatype Value = Null | Int(i: int) | Str(s: string) | Bool(b: bool)

  /** isset($x): present and not NULL. */
  predicate IsSet(v: Value) {
    !v.Null?
  }

  /** empty($s) for a string: "" and "0" are empty. */
  predicate EmptyText(s: string) {
    s == "" || s == "0"
  }

  /** empty($x): NULL, FALSE, 0, "" and "0". */
  predicate Empty(v: Value) {
    match v
    case Null => true
    case Int(i) => i == 0
    case Str(s) => EmptyText(s)
    case Bool(b) => !b
  }

  /** (bool)$x. */
  predicate ToBool(v: Value) {
    !Empty(v)
  }

  /** The text of a value used as a string: NULL and FALSE give "", TRUE gives "1". */
  function ToStr(v: Value): string {
    match v
    case Null => ""
    case Int(i) => IntToStr(i)
    case Str(s) => s
    case Bool(b) => if b then "1" else ""
  }

  /** intval($x). */
  function IntVal(v: Value): int {
    match v
    case Null => 0
    case Int(i) => i
    case Str(s) => LeadingInt(s)
    case Bool(b) => if b then 1 else 0
  }

  /** The number a value stands for in a numeric comparison with an integer. */
  function NumberOf(v: Value): int {
    IntVal(v)
  }

  /**
   * $a == $b. Booleans (and NULL against non-strings) compare by truth value,
   * NULL equals only the empty string among strings, an integer against a string
   * compares numbers, and two strings compare numerically only when both are numeric.
   */
  predicate LooseEq(a: Value, b: Value) {
    if a.Bool? || b.Bool? then ToBool(a) == ToBool(b)
    else if a.Null? && b.Null? then true
    else if a.Null? && b.Str? then b.s == ""
    else if a.Str? && b.Null? then a.s == ""
    else if a.Null? || b.Null? then ToBool(a) == ToBool(b)
    else if a.Str? && b.Str? then
      if IsIntText(a.s) && IsIntText(b.s) then LeadingInt(a.s) == LeadingInt(b.s) else a.s == b.s
    else NumberOf(a) == NumberOf(b)
  }

  /** $a < $b, by the same conversion rules as LooseEq; two non-numeric strings compare as strcmp does. */
  predicate LooseLess(a: Value, b: Value) {
    if a.Str? && b.Str? then
      if IsIntText(a.s) && IsIntText(b.s) then LeadingInt(a.s) < LeadingInt(b.s) else StrLess(a.s, b.s)
    else if a.Null? && b.Str? then b.s != ""
    else if a.Str? && b.Null? then false
    else if a.Bool? || b.Bool? || a.Null? || b.Null? then !ToBool(a) && ToBool(b)
    else NumberOf(a) < NumberOf(b)
  }

  /** in_array($needle, $haystack) with its default loose comparison. */
  predicate InArray(needle: Value, haystack: seq<Value>) {
    exists k :: 0 <= k < |haystack| && LooseEq(needle, haystack[k])
  }

  /** $a == $b for two strings: numeric strings compare as numbers, others character by character. */
  predicate TextEq(a: string, b: string) {
    LooseEq(Str(a), Str(b))
  }

  /** in_array($x, $xs) over an array of strings. */
  predicate TextIn(x: string, xs: seq<string>) {
    exists k :: 0 <= k < |xs| && TextEq(x, xs[k])
  }

  /** A string is always found in an array it was appended to. */
  lemma TextInAppended(x: string, xs: seq<string>)
    ensures TextIn(x, xs + [x])
  {
    assert (xs + [x])[|xs|] == x;
  }

  /** Loose equality is symmetric. */
  lemma LooseEqSymmetric(a: Value, b: Value)
    ensures LooseEq(a, b) == LooseEq(b, a)
  {
  }

  /** Every value loosely equals itself, and never compares below itself. */
  lemma LooseEqReflexive(a: Value)
    ensures LooseEq(a, a)
    ensures !LooseLess(a, a)
  {
    if a.Str? {
      StrLessTrichotomy(a.s, a.s);
    }
  }

  /** The quirk behind in_array('required', $rules): a non-numeric string loosely equals integer 0. */
  lemma NonNumericTextEqualsZero(s: string)
    requires LeadingInt(s) == 0
    ensures LooseEq(Str(s), Int(0))
  {
  }

  /** An integer survives a trip through its string form. */
  lemma IntTextRoundTrip(i: int)
    ensures IntVal(Str(ToStr(Int(i)))) == i
    ensures LooseEq(Str(ToStr(Int(i))), Int(i))
  {
    IntToStrRoundTrip(i);
  }
}
