/**
 * add_table_name: qualifies the bare column names in a comma-separated field
 * list with the model's table, leaving anything with a dot or a parenthesis alone.
 */
module TableNames {
  import opened Strings
  import opened PhpValues
  import opened Results

  /** The text add_table_name leaves untouched: anything with '.' or '('. */
  predicate Qualified(field: string) {
    HasChar(field, '.') || HasChar(field, '(')
  }

  /** The leading word of an already left-trimmed piece: explode(' ', $part, 2)[0]. */
  function Head(piece: string): string {
    Before(piece, " ")
  }

  /** Whether a left-trimmed piece names '*' or one of the model's fields, by in_array's loose comparison. */
  predicate NamesField(fields: seq<string>, piece: string) {
    Head(piece) == "*" || TextIn(Head(piece), fields)
  }

  /** One comma-separated piece, left-trimmed and prefixed with the table when it names a field. */
  function QualifyPiece(table: string, fields: seq<string>, part: string): (r: string)
    ensures NamesField(fields, LTrim(part)) ==> r == table + "." + LTrim(part)
    ensures !NamesField(fields, LTrim(part)) ==> r == LTrim(part)
  {
    var p := LTrim(part);
    if NamesField(fields, p) then table + "." + p else p
  }

  /** Every piece of the exploded list, qualified. */
  function QualifyAll(table: string, fields: seq<string>, parts: seq<string>): (r: seq<string>)
    ensures |r| == |parts|
    ensures forall i :: 0 <= i < |parts| ==> r[i] == QualifyPiece(table, fields, parts[i])
  {
    if |parts| == 0 then [] else [QualifyPiece(table, fields, parts[0])] + QualifyAll(table, fields, parts[1..])
  }

  /** The loop that rebuilds the list: ', ' goes in only once the text built so far is non-empty in PHP's sense. */
  function Accumulate(acc: string, qs: seq<string>): string
    decreases |qs|
  {
    if |qs| == 0 then acc
    else Accumulate((if EmptyText(acc) then acc else acc + ", ") + qs[0], qs[1..])
  }

  /** add_table_name($field) for a model with the given table and fields. */
  function AddTableName(table: string, fields: seq<string>, field: string): (r: string)
    ensures Qualified(field) ==> r == field
  {
    if Qualified(field) then field else Accumulate("", QualifyAll(table, fields, Split(field, ",")))
  }

  /** '*' always names the table's every column: it comes back as 'table.*'. */
  lemma StarQualified(table: string, fields: seq<string>)
    ensures AddTableName(table, fields, "*") == table + ".*"
  {
    assert !HasChar("*", ',') && !HasChar("*", ' ') && !Qualified("*");
    NoCommaNotFound("*");
    HeadOfWord("*");
    LTrimKeeps("*");
    var t := table + ".*";
    assert NamesField(fields, LTrim("*"));
    assert table + "." + "*" == t;
    assert QualifyAll(table, fields, ["*"]) == [t];
    assert Accumulate("", [t]) == Accumulate("" + t, []);
    assert "" + t == t;
  }

  /** A lone bare field name comes back prefixed with the table; a lone word that is no field comes back as it is. */
  lemma BareWord(table: string, fields: seq<string>, w: string)
    requires Word(w)
    ensures TextIn(w, fields) ==> AddTableName(table, fields, w) == table + "." + w
    ensures !TextIn(w, fields) ==> AddTableName(table, fields, w) == w
  {
    NoCommaNotFound(w);
    HeadOfWord(w);
    var q := QualifyPiece(table, fields, w);
    assert QualifyAll(table, fields, [w]) == [q];
    assert Accumulate("", [q]) == Accumulate("" + q, []);
    assert "" + q == q;
  }

  // ---------------------------------------------------------------------------
  // Idempotence

  lemma HasCharAppend(a: string, b: string, c: char)
    requires HasChar(a, c) || HasChar(b, c)
    ensures HasChar(a + b, c)
  {
    if HasChar(a, c) {
      var i :| 0 <= i < |a| && a[i] == c;
      assert (a + b)[i] == c;
    } else {
      var i :| 0 <= i < |b| && b[i] == c;
      assert (a + b)[|a| + i] == c;
    }
  }

  /** Text already built is never taken back, so its characters stay. */
  lemma {:induction false} AccumulateKeepsChar(acc: string, qs: seq<string>, c: char)
    requires HasChar(acc, c)
    ensures HasChar(Accumulate(acc, qs), c)
    decreases |qs|
  {
    if |qs| > 0 {
      var lead := if EmptyText(acc) then acc else acc + ", ";
      HasCharAppend(acc, ", ", c);
      HasCharAppend(lead, qs[0], c);
      AccumulateKeepsChar(lead + qs[0], qs[1..], c);
    }
  }

  /** A character of any piece ends up in the result. */
  lemma {:induction false} AccumulateHasChar(acc: string, qs: seq<string>, k: nat, c: char)
    requires k < |qs| && HasChar(qs[k], c)
    ensures HasChar(Accumulate(acc, qs), c)
    decreases |qs|
  {
    var lead := if EmptyText(acc) then acc else acc + ", ";
    if k == 0 {
      HasCharAppend(lead, qs[0], c);
      AccumulateKeepsChar(lead + qs[0], qs[1..], c);
    } else {
      AccumulateHasChar(lead + qs[0], qs[1..], k - 1, c);
    }
  }

  /** The pieces with leading empty ones dropped. */
  function DropLeadingEmpty(qs: seq<string>): (r: seq<string>)
    ensures |r| <= |qs|
    ensures |r| > 0 ==> r[0] != ""
    ensures r == qs[|qs| - |r|..]
    ensures forall i :: 0 <= i < |qs| - |r| ==> qs[i] == ""
  {
    if |qs| == 0 then [] else if qs[0] == "" then DropLeadingEmpty(qs[1..]) else qs
  }

  /** Once the text is non-empty in PHP's sense, every further piece is appended after ', '. */
  lemma {:induction false} AccumulateNonEmpty(acc: string, qs: seq<string>)
    requires !EmptyText(acc)
    ensures |qs| == 0 ==> Accumulate(acc, qs) == acc
    ensures |qs| > 0 ==> Accumulate(acc, qs) == acc + ", " + Join(qs, ", ")
    decreases |qs|
  {
    if |qs| > 0 {
      var next := acc + ", " + qs[0];
      assert !EmptyText(next);
      assert Accumulate(acc, qs) == Accumulate(next, qs[1..]);
      AccumulateNonEmpty(next, qs[1..]);
      if |qs| > 1 {
        assert Join(qs, ", ") == qs[0] + ", " + Join(qs[1..], ", ");
      }
    }
  }

  /** With no piece equal to "0", the result is the pieces from the first non-empty one on, joined by ', '. */
  lemma {:induction false} AccumulateFromEmpty(qs: seq<string>)
    requires forall i :: 0 <= i < |qs| ==> qs[i] != "0"
    ensures Accumulate("", qs) == Join(DropLeadingEmpty(qs), ", ")
    decreases |qs|
  {
    if |qs| > 0 {
      assert "" + qs[0] == qs[0];
      assert Accumulate("", qs) == Accumulate(qs[0], qs[1..]);
      if qs[0] == "" {
        AccumulateFromEmpty(qs[1..]);
      } else {
        AccumulateNonEmpty(qs[0], qs[1..]);
        if |qs| > 1 {
          assert Join(qs, ", ") == qs[0] + ", " + Join(qs[1..], ", ");
        }
      }
    }
  }

  function LTrimAll(parts: seq<string>): (r: seq<string>)
    ensures |r| == |parts|
    ensures forall i :: 0 <= i < |parts| ==> r[i] == LTrim(parts[i])
  {
    if |parts| == 0 then [] else [LTrim(parts[0])] + LTrimAll(parts[1..])
  }

  /** The text implode(', ', ...) puts after the first piece: ", p1, p2, ...". */
  function JoinTail(ps: seq<string>): string
    decreases |ps|
  {
    if |ps| == 0 then "" else ", " + ps[0] + JoinTail(ps[1..])
  }

  /** Each piece with a blank in front. */
  function Spaced(ps: seq<string>): (r: seq<string>)
    ensures |r| == |ps| && forall i :: 0 <= i < |ps| ==> r[i] == " " + ps[i]
  {
    if |ps| == 0 then [] else [" " + ps[0]] + Spaced(ps[1..])
  }

  lemma {:induction false} JoinHeadTail(ps: seq<string>)
    requires |ps| > 0
    ensures Join(ps, ", ") == ps[0] + JoinTail(ps[1..])
    decreases |ps|
  {
    if |ps| == 1 {
      assert JoinTail(ps[1..]) == "";
    } else {
      JoinHeadTail(ps[1..]);
      assert ps[1..][1..] == ps[2..];
      assert JoinTail(ps[1..]) == ", " + ps[1] + JoinTail(ps[2..]);
    }
  }

  /** A first piece without a comma splits off by itself. */
  lemma SplitCons(p: string, rest: string)
    requires !HasChar(p, ',')
    ensures Split(p + "," + rest, ",") == [p] + Split(rest, ",")
  {
    var s := p + "," + rest;
    NoCommaFirst(p, rest);
    assert s[..|p|] == p;
    assert s[|p| + 1..] == rest;
  }

  lemma {:induction false} SplitJoinTail(head: string, ps: seq<string>)
    requires !HasChar(head, ',')
    requires forall i :: 0 <= i < |ps| ==> !HasChar(ps[i], ',')
    ensures Split(head + JoinTail(ps), ",") == [head] + Spaced(ps)
    decreases |ps|
  {
    if |ps| == 0 {
      assert head + JoinTail(ps) == head;
      NoCommaNotFound(head);
    } else {
      var next := " " + ps[0];
      var later := JoinTail(ps[1..]);
      NoCommaCons(ps[0]);
      assert head + JoinTail(ps) == head + "," + (next + later);
      SplitCons(head, next + later);
      SplitJoinTail(next, ps[1..]);
      assert Spaced(ps) == [next] + Spaced(ps[1..]);
    }
  }

  /** Splitting "a, b, c" on commas gives "a", " b", " c" when no piece has a comma. */
  lemma SplitCommaJoin(ps: seq<string>)
    requires |ps| > 0
    requires forall i :: 0 <= i < |ps| ==> !HasChar(ps[i], ',')
    ensures Split(Join(ps, ", "), ",") == [ps[0]] + Spaced(ps[1..])
  {
    JoinHeadTail(ps);
    SplitJoinTail(ps[0], ps[1..]);
  }

  lemma NoCommaCons(p: string)
    requires !HasChar(p, ',')
    ensures !HasChar(" " + p, ',')
  {
    var s := " " + p;
    forall i | 0 <= i < |s| ensures s[i] != ',' {
      if i > 0 {
        assert s[i] == p[i - 1];
      }
    }
  }

  lemma NoCommaNotFound(p: string)
    requires !HasChar(p, ',')
    ensures Split(p, ",") == [p]
  {
    forall j | 0 <= j && j + 1 <= |p| ensures !OccursAt(p, ",", j) {
      assert p[j..j + 1][0] == p[j];
    }
  }

  lemma NoCommaFirst(p: string, rest: string)
    requires !HasChar(p, ',')
    ensures Find(p + "," + rest, ",") == Some(|p|)
  {
    var s := p + "," + rest;
    assert OccursAt(s, ",", |p|) by {
      assert s[|p|..|p| + 1] == ",";
    }
    forall j | 0 <= j < |p| ensures !OccursAt(s, ",", j) {
      assert s[j..j + 1][0] == s[j] == p[j];
    }
  }

  /** A piece of an explode carries no character its text lacks. */
  lemma SplitPieceLacks(s: string, sep: string, c: char, k: nat)
    requires |sep| > 0 && k < |Split(s, sep)|
    requires !HasChar(s, c)
    ensures !HasChar(Split(s, sep)[k], c)
  {
    if HasChar(Split(s, sep)[k], c) {
      JoinKeepsChar(Split(s, sep), sep, k, c);
      JoinSplit(s, sep);
    }
  }

  lemma LTrimLacks(p: string, c: char)
    requires !HasChar(p, c)
    ensures !HasChar(LTrim(p), c)
  {
    var q := LTrim(p);
    forall i | 0 <= i < |q| ensures q[i] != c {
      assert q[i] == p[|p| - |q| + i];
    }
  }

  lemma LTrimOfSpaced(p: string)
    requires p == LTrim(p)
    ensures LTrim(" " + p) == p
  {
    LTrimSpaceCons(' ', p);
  }

  /**
   * add_table_name is idempotent: qualifying an already qualified list changes
   * nothing, provided no piece of the list is the text "0" (which the loop's
   * empty() test would glue to the following piece).
   */
  lemma AddTableNameIdempotent(table: string, fields: seq<string>, field: string)
    requires forall k :: 0 <= k < |Split(field, ",")| ==> LTrim(Split(field, ",")[k]) != "0"
    ensures AddTableName(table, fields, AddTableName(table, fields, field)) == AddTableName(table, fields, field)
  {
    if Qualified(field) {
      return;
    }
    var parts := Split(field, ",");
    var qs := QualifyAll(table, fields, parts);
    if k :| 0 <= k < |parts| && NamesField(fields, LTrim(parts[k])) {
      assert qs[k] == table + "." + LTrim(parts[k]);
      assert qs[k][|table|] == '.';
      AccumulateHasChar("", qs, k, '.');
    } else {
      IdempotentWhenNothingNamed(table, fields, field);
    }
  }

  /** Trimmed pieces of a list without '.' or '(' carry neither, nor a comma, and are already trimmed. */
  lemma TrimmedPieces(field: string, qs: seq<string>)
    requires !Qualified(field)
    requires qs == LTrimAll(Split(field, ","))
    ensures forall i :: 0 <= i < |qs| ==> !HasChar(qs[i], ',') && !HasChar(qs[i], '.') && !HasChar(qs[i], '(')
    ensures forall i :: 0 <= i < |qs| ==> qs[i] == LTrim(qs[i])
  {
    var parts := Split(field, ",");
    forall j | 0 <= j < |qs|
      ensures !HasChar(qs[j], ',') && !HasChar(qs[j], '.') && !HasChar(qs[j], '(')
      ensures qs[j] == LTrim(qs[j])
    {
      PieceLacksComma(field, j);
      SplitPieceLacks(field, ",", '.', j);
      SplitPieceLacks(field, ",", '(', j);
      LTrimLacks(parts[j], ',');
      LTrimLacks(parts[j], '.');
      LTrimLacks(parts[j], '(');
      LTrimIdempotent(parts[j]);
    }
  }

  /** When no piece names a field, qualifying is just left-trimming. */
  lemma QualifyNone(table: string, fields: seq<string>, parts: seq<string>)
    requires forall k :: 0 <= k < |parts| ==> !NamesField(fields, LTrim(parts[k]))
    ensures QualifyAll(table, fields, parts) == LTrimAll(parts)
  {
  }

  /** Re-exploding "a, b, c" and trimming gives back the trimmed pieces. */
  lemma ReSplitTrims(ps: seq<string>)
    requires |ps| > 0
    requires forall i :: 0 <= i < |ps| ==> !HasChar(ps[i], ',') && ps[i] == LTrim(ps[i])
    ensures LTrimAll(Split(Join(ps, ", "), ",")) == ps
  {
    SplitCommaJoin(ps);
    SpacedTrimsBack(ps);
  }

  lemma SpacedTrimsBack(ps: seq<string>)
    requires |ps| > 0
    requires forall i :: 0 <= i < |ps| ==> ps[i] == LTrim(ps[i])
    ensures LTrimAll([ps[0]] + Spaced(ps[1..])) == ps
  {
    LTrimAllCons(ps[0], Spaced(ps[1..]));
    LTrimSpaced(ps[1..]);
    assert ps == [ps[0]] + ps[1..];
  }

  lemma LTrimAllCons(x: string, t: seq<string>)
    ensures LTrimAll([x] + t) == [LTrim(x)] + LTrimAll(t)
  {
    assert ([x] + t)[1..] == t;
  }

  /** Trimmed pieces with a blank put in front trim back to themselves. */
  lemma {:induction false} LTrimSpaced(qs: seq<string>)
    requires forall i :: 0 <= i < |qs| ==> qs[i] == LTrim(qs[i])
    ensures LTrimAll(Spaced(qs)) == qs
    decreases |qs|
  {
    if |qs| > 0 {
      assert Spaced(qs) == [" " + qs[0]] + Spaced(qs[1..]);
      LTrimAllCons(" " + qs[0], Spaced(qs[1..]));
      LTrimOfSpaced(qs[0]);
      LTrimSpaced(qs[1..]);
      assert qs == [qs[0]] + qs[1..];
    }
  }

  /** A trimmed piece that a second pass keeps as it is. */
  predicate Settled(fields: seq<string>, q: string) {
    !HasChar(q, ',') && !HasChar(q, '.') && !HasChar(q, '(') && q == LTrim(q) && !NamesField(fields, q) && q != "0"
  }

  lemma SeparatorLacksDot()
    ensures !HasChar(", ", '.') && !HasChar(", ", '(')
  {
  }

  /** Only empty pieces: the list rebuilds to "", which rebuilds to "" again. */
  lemma SecondPassEmpty(table: string, fields: seq<string>)
    requires !NamesField(fields, "")
    ensures Accumulate("", QualifyAll(table, fields, Split("", ","))) == ""
  {
    NoCommaNotFound("");
    assert LTrim("") == "";
    assert QualifyAll(table, fields, [""]) == [""];
    assert Accumulate("", [""]) == "";
  }

  /** Settled pieces joined by ', ' come back, piece by piece, from a second pass. */
  lemma SecondPassJoined(table: string, fields: seq<string>, ps: seq<string>)
    requires |ps| > 0 && ps[0] != ""
    requires forall i :: 0 <= i < |ps| ==> Settled(fields, ps[i])
    ensures !Qualified(Join(ps, ", "))
    ensures Accumulate("", QualifyAll(table, fields, Split(Join(ps, ", "), ","))) == Join(ps, ", ")
  {
    SeparatorLacksDot();
    JoinLacksChar(ps, ", ", '.');
    JoinLacksChar(ps, ", ", '(');
    ReSplitTrims(ps);
    QualifyNone(table, fields, Split(Join(ps, ", "), ","));
    AccumulateFromEmpty(ps);
  }

  /** The pieces after the first `k` of a settled list are settled. */
  lemma SettledSuffix(fields: seq<string>, qs: seq<string>, k: nat)
    requires k <= |qs|
    requires forall i :: 0 <= i < |qs| ==> Settled(fields, qs[i])
    ensures forall i :: 0 <= i < |qs[k..]| ==> Settled(fields, qs[k..][i])
  {
    forall i | 0 <= i < |qs[k..]| ensures Settled(fields, qs[k..][i]) {
      assert qs[k..][i] == qs[k + i];
    }
  }

  /** Rebuilding settled pieces gives text that a second pass reproduces exactly. */
  lemma SecondPass(table: string, fields: seq<string>, qs: seq<string>)
    requires |qs| > 0
    requires forall i :: 0 <= i < |qs| ==> Settled(fields, qs[i])
    ensures !Qualified(Accumulate("", qs))
    ensures Accumulate("", QualifyAll(table, fields, Split(Accumulate("", qs), ","))) == Accumulate("", qs)
  {
    forall i | 0 <= i < |qs| ensures qs[i] != "0" {
      assert Settled(fields, qs[i]);
    }
    AccumulateFromEmpty(qs);
    var ps := DropLeadingEmpty(qs);
    if |ps| == 0 {
      assert Settled(fields, qs[0]) && qs[0] == "";
      assert Accumulate("", qs) == "";
      SecondPassEmpty(table, fields);
    } else {
      SettledSuffix(fields, qs, |qs| - |ps|);
      SecondPassJoined(table, fields, ps);
    }
  }

  /** The case where no piece names a field: the output is the trimmed pieces, which a second pass reproduces. */
  lemma IdempotentWhenNothingNamed(table: string, fields: seq<string>, field: string)
    requires !Qualified(field)
    requires forall k :: 0 <= k < |Split(field, ",")| ==> !NamesField(fields, LTrim(Split(field, ",")[k]))
    requires forall k :: 0 <= k < |Split(field, ",")| ==> LTrim(Split(field, ",")[k]) != "0"
    ensures AddTableName(table, fields, AddTableName(table, fields, field)) == AddTableName(table, fields, field)
  {
    var parts := Split(field, ",");
    QualifyNone(table, fields, parts);
    var qs := LTrimAll(parts);
    TrimmedPieces(field, qs);
    SecondPass(table, fields, qs);
  }

  /** The pieces of explode(',', ...) hold no comma. */
  lemma PieceLacksComma(field: string, j: nat)
    requires j < |Split(field, ",")|
    ensures !HasChar(Split(field, ",")[j], ',')
  {
    var p := Split(field, ",")[j];
    SplitPiecesAreFree(field, ",");
    forall x | 0 <= x < |p| ensures p[x] != ',' {
      if x + 1 <= |p| {
        assert !OccursAt(p, ",", x) by {
          assert !Contains(p, ",");
        }
        assert p[x..x + 1][0] == p[x];
      }
    }
  }

  /** Text with no blank is its own leading word. */
  lemma HeadOfWord(w: string)
    requires !HasChar(w, ' ')
    ensures Head(w) == w
  {
    forall j | 0 <= j && j + 1 <= |w| ensures !OccursAt(w, " ", j) {
      assert w[j..j + 1][0] == w[j];
    }
  }

  /** A bare word: no blank, comma, dot or parenthesis, and not '*'. */
  predicate Word(w: string) {
    |w| > 0 && !HasChar(w, ' ') && !HasChar(w, ',') && !HasChar(w, '.') && !HasChar(w, '(') && LTrim(w) == w && w != "*"
  }

  lemma SplitZeroWord(w: string)
    requires Word(w)
    ensures Split("0," + w, ",") == ["0", w]
  {
    var s := "0," + w;
    assert !HasChar("0", ',');
    NoCommaFirst("0", w);
    assert s == "0" + "," + w;
    assert s[..1] == "0" && s[1 + 1..] == w;
    NoCommaNotFound(w);
  }

  lemma ZeroGlued(w: string)
    requires Word(w)
    ensures !Qualified("0" + w) && !HasChar("0" + w, ',') && !HasChar("0" + w, ' ') && LTrim("0" + w) == "0" + w
    ensures !Qualified("0," + w)
  {
    var g := "0" + w;
    forall i | 0 <= i < |g| ensures g[i] != ',' && g[i] != ' ' && g[i] != '.' && g[i] != '(' {
      if i > 0 {
        assert g[i] == w[i - 1];
      }
    }
    var h := "0," + w;
    forall i | 0 <= i < |h| ensures h[i] != '.' && h[i] != '(' {
      if i > 1 {
        assert h[i] == w[i - 2];
      }
    }
  }

  /** A single word that is not a field stays as it is. */
  lemma WordStays(table: string, fields: seq<string>, w: string)
    requires !HasChar(w, ' ') && LTrim(w) == w && w != "*" && !TextIn(w, fields)
    ensures QualifyPiece(table, fields, w) == w
  {
    HeadOfWord(w);
  }

  /**
   * Why idempotence needs its "0" proviso: the list "0,w" loses its separator,
   * because empty("0") holds, and when "0w" is a field a second pass then qualifies it.
   */
  lemma ZeroPieceGlues(table: string, w: string)
    requires Word(w) && !IsDigit(w[0])
    ensures AddTableName(table, ["0" + w], "0," + w) == "0" + w
    ensures AddTableName(table, ["0" + w], "0" + w) == table + "." + "0" + w
  {
    ZeroPieceGluesFirst(table, w);
    ZeroPieceGluesSecond(table, w);
  }

  lemma ZeroPieceGluesFirst(table: string, w: string)
    requires Word(w) && !IsDigit(w[0])
    ensures AddTableName(table, ["0" + w], "0," + w) == "0" + w
  {
    ZeroGlued(w);
    SplitZeroWord(w);
    ZeroWordNotNumeric(w);
    assert |"0"| < |"0" + w| && |w| < |"0" + w|;
    QualifyZeroWord(table, "0" + w, w);
    AccumulateZeroWord(w);
  }

  /** "0" followed by a word that starts with no digit is not a number, so it compares as text with "0" and with the word. */
  lemma ZeroWordNotNumeric(w: string)
    requires |w| > 0 && !IsDigit(w[0])
    ensures !IsIntText("0" + w)
    ensures !TextEq("0", "0" + w) && !TextEq(w, "0" + w)
  {
    var s := "0" + w;
    assert !IsNumSpace(s[0]);
    assert SkipNumSpace(s) == s;
    assert s[1..] == w;
    assert DigitRun(s) == 1 + DigitRun(w);
    assert DigitRun(w) == 0;
  }

  lemma NotInSingle(x: string, g: string)
    requires !TextEq(x, g)
    ensures !TextIn(x, [g])
  {
  }

  lemma ZeroStays(table: string, g: string)
    requires !TextEq("0", g)
    ensures QualifyPiece(table, [g], "0") == "0"
  {
    assert !HasChar("0", ' ') && LTrim("0") == "0";
    NotInSingle("0", g);
    WordStays(table, [g], "0");
  }

  lemma PairStays(table: string, fields: seq<string>, a: string, b: string)
    requires QualifyPiece(table, fields, a) == a && QualifyPiece(table, fields, b) == b
    ensures QualifyAll(table, fields, [a, b]) == [a, b]
  {
    var r := QualifyAll(table, fields, [a, b]);
    assert r[0] == a && r[1] == b;
  }

  lemma QualifyZeroWord(table: string, g: string, w: string)
    requires !HasChar(w, ' ') && LTrim(w) == w && w != "*"
    requires !TextEq("0", g) && !TextEq(w, g)
    ensures QualifyAll(table, [g], ["0", w]) == ["0", w]
  {
    ZeroAndWordStay(table, g, w);
    PairStays(table, [g], "0", w);
  }

  lemma ZeroAndWordStay(table: string, g: string, w: string)
    requires !HasChar(w, ' ') && LTrim(w) == w && w != "*"
    requires !TextEq("0", g) && !TextEq(w, g)
    ensures QualifyPiece(table, [g], "0") == "0" && QualifyPiece(table, [g], w) == w
  {
    ZeroStays(table, g);
    NotInSingle(w, g);
    WordStays(table, [g], w);
  }

  lemma AccumulateZeroWord(w: string)
    ensures Accumulate("", ["0", w]) == "0" + w
  {
    assert ["0", w][1..] == [w];
    assert Accumulate("", ["0", w]) == Accumulate("" + "0", [w]);
    assert "" + "0" == "0";
    assert Accumulate("0", [w]) == Accumulate("0" + w, []);
  }

  lemma ZeroPieceGluesSecond(table: string, w: string)
    requires Word(w)
    ensures AddTableName(table, ["0" + w], "0" + w) == table + "." + "0" + w
  {
    var fields := ["0" + w];
    ZeroGlued(w);
    LooseEqReflexive(Str("0" + w));
    assert TextIn("0" + w, fields);
    NoCommaNotFound("0" + w);
    HeadOfWord("0" + w);
    var qs2 := QualifyAll(table, fields, ["0" + w]);
    assert qs2 == [table + "." + ("0" + w)];
    assert Accumulate("", qs2) == Accumulate("" + qs2[0], []);
  }
}
