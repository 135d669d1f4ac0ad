/**
 * The byte-string primitives the ORM leans on, written as PHP defines them:
 * strpos, explode, implode, str_replace, ltrim/trim, strtoupper/strtolower,
 * strcmp ordering and integer <-> decimal text conversion.
 */
module Strings {
  import opened Results

  /** True when `needle` occurs in `s` starting at index `i`. */
  predicate OccursAt(s: string, needle: string, i: nat) {
    i + |needle| <= |s| && s[i..i + |needle|] == needle
  }

  /** First occurrence of `needle` at or after `from` (strpos with an offset). */
  function FindFrom(s: string, needle: string, from: nat): (r: Option<nat>)
    requires from <= |s|
    decreases |s| - from
    ensures r.Some? ==> from <= r.value && OccursAt(s, needle, r.value)
    ensures r.Some? ==> forall j :: from <= j < r.value ==> !OccursAt(s, needle, j)
    ensures r.None? ==> forall j :: from <= j ==> !OccursAt(s, needle, j)
  {
    if from + |needle| > |s| then None
    else if s[from..from + |needle|] == needle then Some(from)
    else FindFrom(s, needle, from + 1)
  }

  /** strpos($s, $needle): the first occurrence, or None for FALSE. */
  function Find(s: string, needle: string): (r: Option<nat>)
    ensures r.Some? ==> OccursAt(s, needle, r.value)
    ensures r.Some? ==> forall j :: 0 <= j < r.value ==> !OccursAt(s, needle, j)
    ensures r.None? ==> forall j :: !OccursAt(s, needle, j)
  {
    FindFrom(s, needle, 0)
  }

  /** strpos($s, $needle) !== FALSE. */
  predicate Contains(s: string, needle: string) {
    Find(s, needle).Some?
  }

  predicate StartsWith(s: string, prefix: string) {
    |prefix| <= |s| && s[..|prefix|] == prefix
  }

  /** True when some character of `s` is `c`. */
  predicate HasChar(s: string, c: char) {
    exists i :: 0 <= i < |s| && s[i] == c
  }

  /** explode($sep, $s) for a non-empty separator: every piece, in order. */
  function Split(s: string, sep: string): (parts: seq<string>)
    requires |sep| > 0
    ensures |parts| >= 1
    decreases |s|
  {
    match Find(s, sep)
    case None => [s]
    case Some(i) => [s[..i]] + Split(s[i + |sep|..], sep)
  }

  /** implode($sep, $parts). */
  function Join(parts: seq<string>, sep: string): string
  {
    if |parts| == 0 then ""
    else if |parts| == 1 then parts[0]
    else parts[0] + sep + Join(parts[1..], sep)
  }

  /** The text before the first `sep`: the first element of explode($sep, $s, 2). */
  function Before(s: string, sep: string): (r: string)
    requires |sep| > 0
    ensures r == Split(s, sep)[0]
    ensures StartsWith(s, r)
  {
    match Find(s, sep)
    case None => s
    case Some(i) => s[..i]
  }

  /** str_replace($needle, $rep, $s): every non-overlapping occurrence, left to right; an empty needle changes nothing. */
  function ReplaceAll(s: string, needle: string, rep: string): string
    decreases |s|
  {
    if |needle| == 0 then s
    else match Find(s, needle)
      case None => s
      case Some(i) => s[..i] + rep + ReplaceAll(s[i + |needle|..], needle, rep)
  }

  /** Joining the pieces of an explode with the same separator gives back the original text. */
  lemma {:induction false} JoinSplit(s: string, sep: string)
    requires |sep| > 0
    ensures Join(Split(s, sep), sep) == s
    decreases |s|
  {
    match Find(s, sep)
    case None =>
    case Some(i) =>
      var rest := s[i + |sep|..];
      JoinSplit(rest, sep);
      var parts := Split(rest, sep);
      var whole := [s[..i]] + parts;
      assert Split(s, sep) == whole;
      assert whole[1..] == parts;
      calc {
        Join(whole, sep);
        s[..i] + sep + Join(parts, sep);
        s[..i] + sep + rest;
        { assert s[i..i + |sep|] == sep; SplitAround(s, i, i + |sep|); }
        s;
      }
  }

  lemma SplitAround(s: string, i: nat, j: nat)
    requires i <= j <= |s|
    ensures s[..i] + s[i..j] + s[j..] == s
  {
  }

  /** A text without the separator character explodes to itself alone. */
  lemma SplitNoSep(p: string, c: char)
    requires !HasChar(p, c)
    ensures Split(p, [c]) == [p]
  {
    forall j | 0 <= j && j + 1 <= |p| ensures !OccursAt(p, [c], j) {
      assert p[j..j + 1][0] == p[j];
    }
  }

  /** Exploding at a first separator character peels off the text before it. */
  lemma SplitAtFirst(p: string, c: char, rest: string)
    requires !HasChar(p, c)
    ensures Split(p + [c] + rest, [c]) == [p] + Split(rest, [c])
  {
    var s := p + [c] + rest;
    assert OccursAt(s, [c], |p|) by {
      assert s[|p|..|p| + 1] == [c];
    }
    forall j | 0 <= j < |p| ensures !OccursAt(s, [c], j) {
      assert s[j..j + 1][0] == s[j] == p[j];
    }
    assert Find(s, [c]) == Some(|p|);
    assert s[..|p|] == p;
    assert s[|p| + 1..] == rest;
  }

  /** No piece of an explode contains the separator. */
  lemma {:induction false} SplitPiecesAreFree(s: string, sep: string)
    requires |sep| > 0
    ensures forall k :: 0 <= k < |Split(s, sep)| ==> !Contains(Split(s, sep)[k], sep)
    decreases |s|
  {
    match Find(s, sep)
    case None =>
    case Some(i) =>
      var rest := s[i + |sep|..];
      SplitPiecesAreFree(rest, sep);
      var head := s[..i];
      if Contains(head, sep) {
        var j := Find(head, sep).value;
        assert head[j..j + |sep|] == s[j..j + |sep|];
        assert OccursAt(s, sep, j);
        assert false;
      }
      forall k | 0 <= k < |Split(s, sep)|
        ensures !Contains(Split(s, sep)[k], sep)
      {
        if k > 0 {
          assert Split(s, sep)[k] == Split(rest, sep)[k - 1];
        }
      }
  }

  /** str_replace is implode over explode with the replacement as glue. */
  lemma {:induction false} ReplaceAllIsJoinSplit(s: string, needle: string, rep: string)
    requires |needle| > 0
    ensures ReplaceAll(s, needle, rep) == Join(Split(s, needle), rep)
    decreases |s|
  {
    match Find(s, needle)
    case None =>
    case Some(i) =>
      var rest := s[i + |needle|..];
      ReplaceAllIsJoinSplit(rest, needle, rep);
      var parts := Split(rest, needle);
      assert Split(s, needle) == [s[..i]] + parts;
      assert ([s[..i]] + parts)[1..] == parts;
  }

  /** A needle that does not occur leaves the text unchanged. */
  lemma ReplaceAbsent(s: string, needle: string, rep: string)
    requires !Contains(s, needle)
    ensures ReplaceAll(s, needle, rep) == s
  {
  }

  /** A text ending in its only occurrence of the needle loses exactly that occurrence. */
  lemma ReplaceAllOnce(pre: string, needle: string)
    requires |needle| > 0
    requires forall j: nat :: j < |pre| ==> !OccursAt(pre + needle, needle, j)
    ensures ReplaceAll(pre + needle, needle, "") == pre
  {
    var s := pre + needle;
    assert OccursAt(s, needle, |pre|) by {
      assert s[|pre|..|pre| + |needle|] == needle;
    }
    assert Find(s, needle) == Some(|pre|);
    assert s[|pre| + |needle|..] == [];
    assert s[..|pre|] == pre;
  }

  /** A character of one piece is a character of the imploded text. */
  lemma {:induction false} JoinKeepsChar(parts: seq<string>, sep: string, k: nat, c: char)
    requires k < |parts| && HasChar(parts[k], c)
    ensures HasChar(Join(parts, sep), c)
    decreases |parts|
  {
    var i :| 0 <= i < |parts[k]| && parts[k][i] == c;
    if |parts| == 1 {
    } else if k == 0 {
      var j := Join(parts, sep);
      assert j == parts[0] + sep + Join(parts[1..], sep);
      assert j[i] == c;
    } else {
      JoinKeepsChar(parts[1..], sep, k - 1, c);
      var tail := Join(parts[1..], sep);
      var i2 :| 0 <= i2 < |tail| && tail[i2] == c;
      var j := Join(parts, sep);
      assert j == parts[0] + sep + tail;
      assert j[|parts[0]| + |sep| + i2] == c;
    }
  }

  /** A character found in no piece and not in the glue is not in the imploded text. */
  lemma {:induction false} JoinLacksChar(parts: seq<string>, sep: string, c: char)
    requires forall k :: 0 <= k < |parts| ==> !HasChar(parts[k], c)
    requires !HasChar(sep, c)
    ensures !HasChar(Join(parts, sep), c)
    decreases |parts|
  {
    if |parts| > 1 {
      JoinLacksChar(parts[1..], sep, c);
      var tail := Join(parts[1..], sep);
      var j := Join(parts, sep);
      assert j == parts[0] + sep + tail;
      forall i | 0 <= i < |j|
        ensures j[i] != c
      {
        if i < |parts[0]| {
          assert j[i] == parts[0][i];
        } else if i < |parts[0]| + |sep| {
          assert j[i] == sep[i - |parts[0]|];
        } else {
          assert j[i] == tail[i - |parts[0]| - |sep|];
        }
      }
    }
  }

  // ---------------------------------------------------------------------------
  // Whitespace trimming

  /** The characters PHP's trim family strips by default: space, tab, newline, carriage return, NUL and vertical tab. */
  predicate IsSpace(c: char) {
    c == ' ' || c == '\t' || c == '\n' || c == '\r' || c == '\0' || c as int == 11
  }

  /** ltrim($s). */
  function LTrim(s: string): (r: string)
    ensures |r| <= |s| && r == s[|s| - |r|..]
    ensures |r| > 0 ==> !IsSpace(r[0])
    ensures forall i :: 0 <= i < |s| - |r| ==> IsSpace(s[i])
    decreases |s|
  {
    if |s| > 0 && IsSpace(s[0]) then LTrim(s[1..]) else s
  }

  /** rtrim($s). */
  function RTrim(s: string): (r: string)
    ensures |r| <= |s| && r == s[..|r|]
    ensures |r| > 0 ==> !IsSpace(r[|r| - 1])
    ensures forall i :: |r| <= i < |s| ==> IsSpace(s[i])
    decreases |s|
  {
    if |s| > 0 && IsSpace(s[|s| - 1]) then RTrim(s[..|s| - 1]) else s
  }

  /** trim($s). */
  function Trim(s: string): string {
    RTrim(LTrim(s))
  }

  /** Text that does not start with a blank is its own ltrim. */
  lemma LTrimKeeps(s: string)
    requires |s| == 0 || !IsSpace(s[0])
    ensures LTrim(s) == s
  {
  }

  /** Text that does not end with a blank is its own rtrim. */
  lemma RTrimKeeps(s: string)
    requires |s| == 0 || !IsSpace(s[|s| - 1])
    ensures RTrim(s) == s
  {
  }

  /** ltrim strips nothing from text that starts with a non-blank. */
  lemma LTrimIdempotent(s: string)
    ensures LTrim(LTrim(s)) == LTrim(s)
  {
  }

  /** A leading blank makes no difference to ltrim. */
  lemma LTrimSpaceCons(c: char, s: string)
    requires IsSpace(c)
    ensures LTrim([c] + s) == LTrim(s)
  {
    assert ([c] + s)[1..] == s;
  }

  // ---------------------------------------------------------------------------
  // Case mapping (ASCII, as strtoupper/strtolower do in the C locale)

  function UpperChar(c: char): char {
    if 'a' <= c <= 'z' then (c as int - 32) as char else c
  }

  function LowerChar(c: char): char {
    if 'A' <= c <= 'Z' then (c as int + 32) as char else c
  }

  function ToUpper(s: string): (r: string)
    ensures |r| == |s|
    ensures forall i :: 0 <= i < |s| ==> r[i] == UpperChar(s[i])
  {
    if |s| == 0 then "" else [UpperChar(s[0])] + ToUpper(s[1..])
  }

  function ToLower(s: string): (r: string)
    ensures |r| == |s|
    ensures forall i :: 0 <= i < |s| ==> r[i] == LowerChar(s[i])
  {
    if |s| == 0 then "" else [LowerChar(s[0])] + ToLower(s[1..])
  }

  /** Text without capitals is its own lower-case form. */
  lemma LowerIdle(s: string)
    requires forall i :: 0 <= i < |s| ==> !('A' <= s[i] <= 'Z')
    ensures ToLower(s) == s
  {
    assert forall i :: 0 <= i < |s| ==> ToLower(s)[i] == s[i];
  }

  // ---------------------------------------------------------------------------
  // strcmp ordering

  /** strcmp($a, $b) < 0: byte-wise lexicographic order, a proper prefix sorting first. */
  predicate StrLess(a: string, b: string)
    decreases |a|
  {
    if |a| == 0 then |b| > 0
    else if |b| == 0 then false
    else if a[0] != b[0] then a[0] < b[0]
    else StrLess(a[1..], b[1..])
  }

  /** strcmp is a strict order: never both ways, and always one way for distinct texts. */
  lemma {:induction false} StrLessTrichotomy(a: string, b: string)
    ensures !(StrLess(a, b) && StrLess(b, a))
    ensures a != b ==> StrLess(a, b) || StrLess(b, a)
    ensures !StrLess(a, a)
    decreases |a|
  {
    if |a| > 0 && |b| > 0 {
      StrLessTrichotomy(a[1..], b[1..]);
      StrLessTrichotomy(a[1..], a[1..]);
      if a[0] == b[0] && a != b {
        assert a == [a[0]] + a[1..];
        assert b == [b[0]] + b[1..];
      }
    } else if |a| > 0 {
      StrLessTrichotomy(a[1..], a[1..]);
    }
  }

  // ---------------------------------------------------------------------------
  // Decimal text of integers

  predicate IsDigit(c: char) {
    '0' <= c <= '9'
  }

  function DigitValue(c: char): nat
    requires IsDigit(c)
  {
    c as int - '0' as int
  }

  function DigitChar(d: nat): (c: char)
    requires d < 10
    ensures IsDigit(c) && DigitValue(c) == d
  {
    (d + '0' as int) as char
  }

  /** The value of a run of decimal digits. */
  function DigitsValue(ds: string): nat
    requires forall i :: 0 <= i < |ds| ==> IsDigit(ds[i])
  {
    if |ds| == 0 then 0 else DigitsValue(ds[..|ds| - 1]) * 10 + DigitValue(ds[|ds| - 1])
  }

  /** The decimal text of a natural number, without leading zeros. */
  function NatToStr(n: nat): (r: string)
    ensures |r| > 0
    ensures forall i :: 0 <= i < |r| ==> IsDigit(r[i])
  {
    if n < 10 then [DigitChar(n)] else NatToStr(n / 10) + [DigitChar(n % 10)]
  }

  /** The text PHP produces when an integer is used as a string. */
  function IntToStr(i: int): string {
    if i < 0 then "-" + NatToStr(-i) else NatToStr(i)
  }

  /** Number of leading decimal digits of `s`. */
  function DigitRun(s: string): (n: nat)
    ensures n <= |s|
    ensures forall i :: 0 <= i < n ==> IsDigit(s[i])
    ensures n < |s| ==> !IsDigit(s[n])
  {
    if |s| > 0 && IsDigit(s[0]) then 1 + DigitRun(s[1..]) else 0
  }

  /** The blanks strtol skips before a number: space, tab, newline, vertical tab, form feed, carriage return. */
  predicate IsNumSpace(c: char) {
    c == ' ' || c == '\t' || c == '\n' || c == '\r' || c as int == 11 || c as int == 12
  }

  function SkipNumSpace(s: string): (r: string)
    ensures |r| <= |s|
    ensures |r| > 0 ==> !IsNumSpace(r[0])
  {
    if |s| > 0 && IsNumSpace(s[0]) then SkipNumSpace(s[1..]) else s
  }

  /** Sign and digits of the leading number: the integer (int) cast reads from a string. */
  function LeadingInt(s: string): int {
    var t := SkipNumSpace(s);
    if |t| > 0 && (t[0] == '-' || t[0] == '+') then
      var n: int := DigitsValue(t[1..][..DigitRun(t[1..])]);
      if t[0] == '-' then -n else n
    else DigitsValue(t[..DigitRun(t)])
  }

  /** is_numeric restricted to integers: optional blanks, an optional sign, at least one digit, nothing else. */
  predicate IsIntText(s: string) {
    var t := SkipNumSpace(s);
    if |t| > 0 && (t[0] == '-' || t[0] == '+') then
      |t| > 1 && DigitRun(t[1..]) == |t| - 1
    else
      |t| > 0 && DigitRun(t) == |t|
  }

  lemma {:induction false} DigitRunAll(ds: string)
    requires forall i :: 0 <= i < |ds| ==> IsDigit(ds[i])
    ensures DigitRun(ds) == |ds|
    decreases |ds|
  {
    if |ds| > 0 {
      DigitRunAll(ds[1..]);
    }
  }

  lemma {:induction false} NatToStrValue(n: nat)
    ensures DigitsValue(NatToStr(n)) == n
    decreases n
  {
    if n >= 10 {
      NatToStrValue(n / 10);
      var r := NatToStr(n);
      assert r[..|r| - 1] == NatToStr(n / 10);
    }
  }

  /** Reading back the decimal text of an integer gives the integer, and the text is numeric. */
  lemma IntToStrRoundTrip(i: int)
    ensures LeadingInt(IntToStr(i)) == i
    ensures IsIntText(IntToStr(i))
  {
    var s := IntToStr(i);
    if i < 0 {
      var digits := NatToStr(-i);
      assert SkipNumSpace(s) == s;
      assert s[1..] == digits;
      DigitRunAll(digits);
      assert digits[..DigitRun(digits)] == digits;
      NatToStrValue(-i);
    } else {
      var digits := NatToStr(i);
      assert SkipNumSpace(s) == s;
      DigitRunAll(digits);
      assert digits[..DigitRun(digits)] == digits;
      NatToStrValue(i);
    }
  }
}
