/**
 The inline markup of dialog text, with the five regular expressions of the
 dialog compiler (Language.cs:26-39) replaced by plain functions whose
 behaviour is the regex engine's (leftmost match, greedy/lazy backtracking,
 `.` not matching a line feed):

 - `PortraitReplace`  : `\[(?<content>[^\[\\]*(?:\\.[^\]\\]*)*)\]` -> `{portrait ${content}}`
 - `UnescapeHash`     : `Replace("\\#", "#")`
 - `IsCommandsLine`   : `^(?:\{.*?\})+$`
 - `InsertAt`/`Resolve`: `\{\+\s*(.*?)\}` with the recursive evaluator
 - `Clean`            : `\{(.*?)\}` matched right to left, `{n}`/`{break}` -> line feed
 */
module Markup {
  import opened Wrappers
  import opened Text

  // ---------------------------------------------------------------------
  // Portrait shorthand `[content]`
  // ---------------------------------------------------------------------

  /* How the portrait regex backtracks. From a `[` at i, the greedy class
     `[^\[\\]*` first runs to p, the first `[` or `\` after i. A shorter run
     stops before a character of that class, which is not `\` and so cannot
     start an escape: it succeeds only when that character is the closing
     `]`, longest run first (the LAST `]` before p). Only the full run can
     continue with escapes; inside the escape loop the class `[^\]\\]*`
     likewise leaves one candidate, its full run, which ends on `]` (match),
     on `\` (next escape) or at the end (no match). Greedy order tries the
     escape loop before the shorter runs. */

  /** The escape loop `(?:\\.[^\]\\]*)*\]` from a backslash at `p`; the end of
      the match (just after its `]`), if there is one. */
  function EscapeRun(s: string, p: nat): (r: Option<nat>)
    requires p < |s| && s[p] == '\\'
    ensures r.Some? ==> p + 3 <= r.value <= |s| && s[r.value - 1] == ']'
    decreases |s| - p
  {
    if p + 1 >= |s| || s[p + 1] == '\n' then None
    else
      var q := FirstOf(s, p + 2, ']', '\\');
      if q == |s| then None
      else if s[q] == ']' then Some(q + 1)
      else EscapeRun(s, q)
  }

  /** The end of the portrait match starting at the `[` at `i`, if any. */
  function PortraitMatch(s: string, i: nat): (r: Option<nat>)
    requires i < |s| && s[i] == '['
    ensures r.Some? ==> i + 2 <= r.value <= |s| && s[r.value - 1] == ']'
  {
    var p := FirstOf(s, i + 1, '[', '\\');
    var esc := if p < |s| && s[p] == '\\' then EscapeRun(s, p) else None;
    if esc.Some? then esc
    else match LastIndexIn(s, i + 1, p, ']')
      case Some(k) => Some(k + 1)
      case None => None
  }

  /** `Regex.Replace` scanning left to right from `i`. */
  function PortraitFrom(s: string, i: nat): string
    requires i <= |s|
    decreases |s| - i
  {
    if i == |s| then ""
    else if s[i] == '[' then
      match PortraitMatch(s, i)
      case Some(e) => "{portrait " + s[i + 1..e - 1] + "}" + PortraitFrom(s, e)
      case None => "[" + PortraitFrom(s, i + 1)
    else [s[i]] + PortraitFrom(s, i + 1)
  }

  function PortraitReplace(s: string): string {
    PortraitFrom(s, 0)
  }

  /** Text without `[` is copied through unchanged. */
  lemma {:induction false} PortraitFromPlain(s: string, i: nat, j: nat)
    requires i <= j <= |s|
    requires forall m :: i <= m < j ==> s[m] != '['
    ensures PortraitFrom(s, i) == s[i..j] + PortraitFrom(s, j)
    decreases j - i
  {
    if i < j {
      assert s[i] != '[';
      PortraitFromPlain(s, i + 1, j);
      PlainStep(s, i, j);
    } else {
      assert s[i..j] == [];
    }
  }

  /** One character more of plain text. */
  lemma PlainStep(s: string, i: nat, j: nat)
    requires i < j <= |s| && s[i] != '['
    requires PortraitFrom(s, i + 1) == s[i + 1..j] + PortraitFrom(s, j)
    ensures PortraitFrom(s, i) == s[i..j] + PortraitFrom(s, j)
  {
    var rest := PortraitFrom(s, j);
    PortraitFromChar(s, i);
    AppendAssoc([s[i]], s[i + 1..j], rest);
    assert s[i..j] == [s[i]] + s[i + 1..j];
  }

  lemma AppendAssoc<T>(a: seq<T>, b: seq<T>, c: seq<T>)
    ensures a + (b + c) == (a + b) + c
  {
  }

  /** A character other than `[` is copied through. */
  lemma PortraitFromChar(s: string, i: nat)
    requires i < |s| && s[i] != '['
    ensures PortraitFrom(s, i) == [s[i]] + PortraitFrom(s, i + 1)
  {
  }

  /** The scan for `[` in the compiler is only a shortcut: a line without `[`
      is left alone by the replacement. */
  lemma PortraitReplaceNoBracket(s: string)
    requires '[' !in s
    ensures PortraitReplace(s) == s
  {
    PortraitFromPlain(s, 0, |s|);
    assert s[0..|s|] == s;
  }

  lemma {:induction false} LastIndexInAt(s: string, lo: nat, hi: nat, c: char, k: nat)
    requires lo <= k < hi <= |s| && s[k] == c
    requires forall m :: k < m < hi ==> s[m] != c
    ensures LastIndexIn(s, lo, hi, c) == Some(k)
    decreases hi
  {
    if k < hi - 1 {
      LastIndexInAt(s, lo, hi - 1, c, k);
    }
  }

  /** A `[` followed by no `[` or `\` matches up to the last `]`. */
  lemma {:induction false} PortraitMatchPlain(s: string, i: nat, e: nat)
    requires i + 2 <= e <= |s| && s[i] == '[' && s[e - 1] == ']'
    requires forall m :: i < m < |s| ==> s[m] != '[' && s[m] != '\\'
    requires forall m :: e <= m < |s| ==> s[m] != ']'
    ensures PortraitMatch(s, i) == Some(e)
  {
    assert FirstOf(s, i + 1, '[', '\\') == |s|;
    LastIndexInAt(s, i + 1, |s|, ']', e - 1);
  }

  /** `a[x]b` becomes `a{portrait x}b` when the bracketed name is plain. */
  lemma PortraitReplaceShorthand(a: string, x: string, b: string)
    requires '[' !in a
    requires '[' !in x && ']' !in x && '\\' !in x
    requires '[' !in b && ']' !in b && '\\' !in b
    ensures PortraitReplace(a + "[" + x + "]" + b) == a + "{portrait " + x + "}" + b
  {
    var s := a + "[" + x + "]" + b;
    var i := |a|;
    var e := |a| + |x| + 2;
    ShorthandShape(a, x, b);
    assert PortraitFrom(s, e) == b by {
      PortraitFromPlain(s, e, |s|);
      assert s[e..|s|] == b;
    }
    assert PortraitFrom(s, i) == "{portrait " + x + "}" + b by {
      PortraitMatchPlain(s, i, e);
      PortraitFromMatch(s, i, e);
    }
    assert PortraitFrom(s, 0) == a + ("{portrait " + x + "}" + b) by {
      PortraitFromPlain(s, 0, i);
      assert s[0..i] == a;
    }
    PortraitShape(a, x, b);
  }

  lemma PortraitShape(a: string, x: string, b: string)
    ensures a + ("{portrait " + x + "}" + b) == a + "{portrait " + x + "}" + b
  {
  }

  /** Where the pieces of `a[x]b` sit. */
  lemma ShorthandShape(a: string, x: string, b: string)
    requires '[' !in a
    requires '[' !in x && ']' !in x && '\\' !in x
    requires '[' !in b && ']' !in b && '\\' !in b
    ensures
      var s := a + "[" + x + "]" + b;
      var i, e := |a|, |a| + |x| + 2;
      && |s| == e + |b| && s[i] == '[' && s[e - 1] == ']'
      && s[i + 1..e - 1] == x && s[e..] == b && s[..i] == a
      && (forall m :: 0 <= m < i ==> s[m] != '[')
      && (forall m :: i < m < |s| ==> s[m] != '[' && s[m] != '\\')
      && (forall m :: e <= m < |s| ==> s[m] != ']')
  {
    var s := a + "[" + x + "]" + b;
    var i := |a|;
    var e := |a| + |x| + 2;
    assert s[..i] == a && s[i] == '[' && s[i + 1..e - 1] == x && s[e - 1] == ']' && s[e..] == b;
    forall m | 0 <= m < i ensures s[m] != '[' { assert s[m] == a[m]; }
    forall m | i < m < |s| ensures s[m] != '[' && s[m] != '\\' {
      if m < e - 1 { assert s[m] == x[m - i - 1]; }
      else if m > e - 1 { assert s[m] == b[m - e]; }
    }
    forall m | e <= m < |s| ensures s[m] != ']' { assert s[m] == b[m - e]; }
  }

  /** A `[` that matches is replaced by the portrait command. */
  lemma PortraitFromMatch(s: string, i: nat, e: nat)
    requires i < |s| && s[i] == '[' && PortraitMatch(s, i) == Some(e)
    ensures PortraitFrom(s, i) == "{portrait " + s[i + 1..e - 1] + "}" + PortraitFrom(s, e)
  {
  }

  // ---------------------------------------------------------------------
  // `\#` escape
  // ---------------------------------------------------------------------

  /** `String.Replace("\\#", "#")`: non-overlapping, left to right. */
  function UnescapeHash(s: string): (r: string)
    ensures |r| <= |s|
  {
    if |s| < 2 then s
    else if s[0] == '\\' && s[1] == '#' then "#" + UnescapeHash(s[2..])
    else [s[0]] + UnescapeHash(s[1..])
  }

  /** The replacement works piecewise, except across a `\` + `#` seam. */
  lemma {:induction false} UnescapeHashAppend(a: string, b: string)
    requires !(|a| > 0 && a[|a| - 1] == '\\' && |b| > 0 && b[0] == '#')
    ensures UnescapeHash(a + b) == UnescapeHash(a) + UnescapeHash(b)
  {
    if |a| == 0 {
      assert a + b == b;
    } else if |a| == 1 {
      if |b| == 0 {
        assert a + b == a;
      } else {
        assert (a + b)[1..] == b;
        assert !(a[0] == '\\' && b[0] == '#');
      }
    } else if a[0] == '\\' && a[1] == '#' {
      assert (a + b)[2..] == a[2..] + b;
      UnescapeHashAppend(a[2..], b);
    } else {
      assert (a + b)[1..] == a[1..] + b;
      UnescapeHashAppend(a[1..], b);
    }
  }

  /** Text without a backslash is left alone. */
  lemma {:induction false} UnescapeHashPlain(s: string)
    requires '\\' !in s
    ensures UnescapeHash(s) == s
  {
    if |s| >= 2 {
      assert s[0] != '\\';
      assert '\\' !in s[1..] by {
        forall m | 0 <= m < |s[1..]| ensures s[1..][m] != '\\' { assert s[1..][m] == s[m + 1]; }
      }
      UnescapeHashPlain(s[1..]);
    }
  }

  /** `\#` turns into a literal `#`. */
  lemma UnescapeHashEscape(a: string, b: string)
    requires '\\' !in a && '\\' !in b
    ensures UnescapeHash(a + "\\#" + b) == a + "#" + b
  {
    var t := "\\#" + b;
    assert a + "\\#" + b == a + t by {
      AppendAssoc(a, "\\#", b);
    }
    assert UnescapeHash(a + t) == UnescapeHash(a) + UnescapeHash(t) by {
      UnescapeHashAppend(a, t);
    }
    assert UnescapeHash(t) == "#" + b by {
      UnescapeHashHead(b);
      UnescapeHashPlain(b);
    }
    UnescapeHashPlain(a);
    AppendAssoc(a, "#", b);
  }

  lemma UnescapeHashHead(b: string)
    ensures UnescapeHash("\\#" + b) == "#" + UnescapeHash(b)
  {
    var t := "\\#" + b;
    assert t[0] == '\\' && t[1] == '#' && t[2..] == b;
  }

  // ---------------------------------------------------------------------
  // Whole-line commands `^(?:\{.*?\})+$`
  // ---------------------------------------------------------------------

  /** Brace-delimited and free of line feeds: what one or more `{...}`
      groups can cover when `.` may run over inner braces. */
  predicate IsBraced(t: string) {
    |t| >= 2 && t[0] == '{' && t[|t| - 1] == '}' && '\n' !in t
  }

  /** `$` also matches before a final line feed. */
  predicate IsCommandsLine(s: string) {
    IsBraced(s) || (|s| > 0 && s[|s| - 1] == '\n' && IsBraced(s[..|s| - 1]))
  }

  // ---------------------------------------------------------------------
  // Inserts `{+KEY}`
  // ---------------------------------------------------------------------

  /* `\s*` is greedy and `(.*?)` lazy: the key starts after all white space
     following `{+` and ends at the first `}`; a line feed before that `}`
     defeats every backtracking alternative. */

  /** The insert match starting at `i`: the key and the end of the match. */
  function InsertAt(s: string, i: nat): (r: Option<(string, nat)>)
    requires i <= |s|
    ensures r.Some? ==> i + 3 <= r.value.1 <= |s|
    ensures r.Some? ==> s[i] == '{' && s[i + 1] == '+' && s[r.value.1 - 1] == '}'
  {
    if i + 1 < |s| && s[i] == '{' && s[i + 1] == '+' then
      var j := SkipWhiteSpace(s, i + 2);
      var k := FirstOf(s, j, '}', '\n');
      if k < |s| && s[k] == '}' then Some((s[j..k], k + 1)) else None
    else None
  }

  const Missing := "[XXX]"

  /** `GetValueOrDefault(key, "[XXX]")`. */
  function Lookup(d: map<string, string>, key: string): string {
    if key in d then d[key] else Missing
  }

  /** The recursive insert evaluator on `s[i..]`. The source has no cycle
      guard; here every nested resolution spends one unit of `fuel`, and
      `None` stands for running out, i.e. for the source's unbounded
      recursion when no fuel suffices. */
  function ResolveFrom(d: map<string, string>, s: string, i: nat, fuel: nat): Option<string>
    requires i <= |s|
    decreases fuel, |s| - i
  {
    if i == |s| then Some("")
    else match InsertAt(s, i)
      case Some((key, e)) =>
        if fuel == 0 then None
        else
          var v :- ResolveFrom(d, Lookup(d, key), 0, fuel - 1);
          var rest :- ResolveFrom(d, s, e, fuel);
          Some(v + rest)
      case None =>
        var rest :- ResolveFrom(d, s, i + 1, fuel);
        Some([s[i]] + rest)
  }

  function Resolve(d: map<string, string>, s: string, fuel: nat): Option<string> {
    ResolveFrom(d, s, 0, fuel)
  }

  /** More fuel never changes a result that was reached. */
  lemma {:induction false} ResolveFromMonotone(d: map<string, string>, s: string, i: nat, fuel: nat)
    requires i <= |s|
    requires ResolveFrom(d, s, i, fuel).Some?
    ensures ResolveFrom(d, s, i, fuel + 1) == ResolveFrom(d, s, i, fuel)
    decreases fuel, |s| - i
  {
    if i < |s| {
      var r := InsertAt(s, i);
      if r.Some? {
        var key, e := r.value.0, r.value.1;
        InsertParts(d, s, i, fuel, key, e);
        ResolveFromMonotone(d, Lookup(d, key), 0, fuel - 1);
        ResolveFromMonotone(d, s, e, fuel);
        MonotoneInsert(d, s, i, fuel, key, e);
      } else {
        CharPart(d, s, i, fuel);
        ResolveFromMonotone(d, s, i + 1, fuel);
        MonotoneChar(d, s, i, fuel);
      }
    }
  }

  /** A resolved insert has a resolved value and a resolved rest. */
  lemma InsertParts(d: map<string, string>, s: string, i: nat, fuel: nat, key: string, e: nat)
    requires i < |s| && InsertAt(s, i) == Some((key, e)) && ResolveFrom(d, s, i, fuel).Some?
    ensures fuel > 0 && e <= |s|
    ensures ResolveFrom(d, Lookup(d, key), 0, fuel - 1).Some? && ResolveFrom(d, s, e, fuel).Some?
  {
  }

  lemma MonotoneInsert(d: map<string, string>, s: string, i: nat, fuel: nat, key: string, e: nat)
    requires i < |s| && fuel > 0 && InsertAt(s, i) == Some((key, e))
    requires ResolveFrom(d, Lookup(d, key), 0, fuel) == ResolveFrom(d, Lookup(d, key), 0, fuel - 1)
    requires ResolveFrom(d, s, e, fuel + 1) == ResolveFrom(d, s, e, fuel)
    ensures ResolveFrom(d, s, i, fuel + 1) == ResolveFrom(d, s, i, fuel)
  {
    ResolveFromInsert(d, s, i, fuel, key, e);
    ResolveFromInsert(d, s, i, fuel + 1, key, e);
  }

  /** A resolved character has a resolved rest. */
  lemma CharPart(d: map<string, string>, s: string, i: nat, fuel: nat)
    requires i < |s| && InsertAt(s, i).None? && ResolveFrom(d, s, i, fuel).Some?
    ensures ResolveFrom(d, s, i + 1, fuel).Some?
  {
    ResolveFromChar(d, s, i, fuel);
  }

  lemma MonotoneChar(d: map<string, string>, s: string, i: nat, fuel: nat)
    requires i < |s| && InsertAt(s, i).None?
    requires ResolveFrom(d, s, i + 1, fuel + 1) == ResolveFrom(d, s, i + 1, fuel)
    ensures ResolveFrom(d, s, i, fuel + 1) == ResolveFrom(d, s, i, fuel)
  {
    ResolveFromChar(d, s, i, fuel);
    ResolveFromChar(d, s, i, fuel + 1);
  }

  /** A character that starts no insert, unfolded. */
  lemma ResolveFromChar(d: map<string, string>, s: string, i: nat, fuel: nat)
    requires i < |s| && InsertAt(s, i).None?
    ensures ResolveFrom(d, s, i, fuel) ==
      (var rest := ResolveFrom(d, s, i + 1, fuel);
       if rest.Some? then Some([s[i]] + rest.value) else None)
  {
  }

  predicate NoInsertFrom(s: string, i: nat)
    requires i <= |s|
  {
    forall m :: i <= m < |s| - 1 ==> !(s[m] == '{' && s[m + 1] == '+')
  }

  /** Text without `{+` resolves to itself, with any fuel. */
  lemma {:induction false} ResolveFromPlain(d: map<string, string>, s: string, i: nat, fuel: nat)
    requires i <= |s| && NoInsertFrom(s, i)
    ensures ResolveFrom(d, s, i, fuel) == Some(s[i..])
    decreases |s| - i
  {
    if i < |s| {
      assert InsertAt(s, i).None?;
      ResolveFromChar(d, s, i, fuel);
      ResolveFromPlain(d, s, i + 1, fuel);
      assert s[i..] == [s[i]] + s[i + 1..];
    }
  }

  /** When no value holds an insert, one level of fuel resolves every text;
      `ResolveInsert` says what each insert becomes. */
  lemma {:induction false} ResolveOneLevel(d: map<string, string>, s: string, i: nat)
    requires i <= |s|
    requires forall k :: k in d ==> NoInsertFrom(d[k], 0)
    ensures ResolveFrom(d, s, i, 1).Some?
    decreases |s| - i
  {
    if i < |s| {
      var r := InsertAt(s, i);
      if r.Some? {
        var key, e := r.value.0, r.value.1;
        LookupPlain(d, key);
        ResolveOneLevel(d, s, e);
        OneLevelInsert(d, s, i, key, e);
      } else {
        var k := i + 1;
        ResolveOneLevel(d, s, k);
        OneLevelChar(d, s, i, k);
      }
    }
  }

  lemma OneLevelInsert(d: map<string, string>, s: string, i: nat, key: string, e: nat)
    requires i < |s| && InsertAt(s, i) == Some((key, e))
    requires ResolveFrom(d, Lookup(d, key), 0, 0).Some? && ResolveFrom(d, s, e, 1).Some?
    ensures ResolveFrom(d, s, i, 1).Some?
  {
    ResolveFromInsert(d, s, i, 1, key, e);
  }

  lemma OneLevelChar(d: map<string, string>, s: string, i: nat, k: nat)
    requires i < |s| && k == i + 1 && InsertAt(s, i).None? && ResolveFrom(d, s, k, 1).Some?
    ensures ResolveFrom(d, s, i, 1).Some?
  {
    ResolveFromChar(d, s, i, 1);
  }

  /** With no value holding an insert, every looked-up value resolves
      without fuel. */
  lemma LookupPlain(d: map<string, string>, key: string)
    requires forall k :: k in d ==> NoInsertFrom(d[k], 0)
    ensures ResolveFrom(d, Lookup(d, key), 0, 0).Some?
  {
    var v := Lookup(d, key);
    assert NoInsertFrom(v, 0);
    ResolveFromPlain(d, v, 0, 0);
  }

  /** `A = {+A}` never finishes resolving: no fuel is enough. */
  lemma {:induction false} SelfInsertDiverges(d: map<string, string>, fuel: nat)
    requires "A" in d && d["A"] == "{+A}"
    ensures Resolve(d, "{+A}", fuel).None?
  {
    var s := "{+A}";
    assert InsertAt(s, 0) == Some(("A", 4)) by {
      assert SkipWhiteSpace(s, 2) == 2;
      assert FirstOf(s, 2, '}', '\n') == 3;
      assert s[2..3] == "A";
    }
    if fuel > 0 {
      SelfInsertDiverges(d, fuel - 1);
    }
  }

  /** One insert at `i`, unfolded. */
  lemma ResolveFromInsert(d: map<string, string>, s: string, i: nat, fuel: nat, key: string, e: nat)
    requires i < |s| && fuel > 0 && InsertAt(s, i) == Some((key, e))
    ensures ResolveFrom(d, s, i, fuel) ==
      (var v := ResolveFrom(d, Lookup(d, key), 0, fuel - 1);
       var rest := ResolveFrom(d, s, e, fuel);
       if v.Some? && rest.Some? then Some(v.value + rest.value) else None)
  {
  }

  /** `SkipWhiteSpace` is the end of the white-space run, whatever the text. */
  lemma {:induction false} SkipWhiteSpaceIs(s: string, from: nat, k: nat)
    requires from <= k <= |s|
    requires forall m :: from <= m < k ==> IsWhiteSpace(s[m])
    requires k < |s| ==> !IsWhiteSpace(s[k])
    ensures SkipWhiteSpace(s, from) == k
    decreases k - from
  {
    if from < k {
      SkipWhiteSpaceIs(s, from + 1, k);
    }
  }

  /** `FirstOf` is the first position holding either character. */
  lemma {:induction false} FirstOfIs(s: string, from: nat, a: char, b: char, k: nat)
    requires from <= k <= |s|
    requires forall m :: from <= m < k ==> s[m] != a && s[m] != b
    requires k < |s| ==> s[k] == a || s[k] == b
    ensures FirstOf(s, from, a, b) == k
    decreases k - from
  {
    if from < k {
      FirstOfIs(s, from + 1, a, b, k);
    }
  }

  /** An insert match does not look before its start: in a text `s` that
      ends with `b` after `n` characters, it is the match in `b`, moved by
      `n`. */
  lemma InsertAtShift(s: string, b: string, n: nat, j: nat)
    requires n <= |s| && s[n..] == b && j <= |b|
    ensures InsertAt(b, j).None? ==> InsertAt(s, n + j).None?
    ensures InsertAt(b, j).Some? ==> InsertAt(s, n + j) == Some((InsertAt(b, j).value.0, n + InsertAt(b, j).value.1))
  {
    assert |s| == n + |b|;
    if j + 1 < |b| {
      assert s[n + j] == b[j] && s[n + j + 1] == b[j + 1];
      if b[j] == '{' && b[j + 1] == '+' {
        var w := SkipWhiteSpace(b, j + 2);
        SkipWhiteSpaceShift(s, b, n, j + 2);
        var k := FirstOf(b, w, '}', '\n');
        FirstOfShift(s, b, n, w);
        if k < |b| {
          assert s[n + k] == b[k];
          SliceShift(s, b, n, w, k);
        }
        InsertAtShiftOpen(s, b, n, j, w, k);
      }
    }
  }

  /** `InsertAtShift` where `b` has `{+` at `j`, the white space and the key
      measured in both texts. */
  lemma InsertAtShiftOpen(s: string, b: string, n: nat, j: nat, w: nat, k: nat)
    requires n + |b| == |s| && j + 1 < |b| && b[j] == '{' && b[j + 1] == '+' && s[n + j] == '{' && s[n + j + 1] == '+'
    requires SkipWhiteSpace(b, j + 2) == w && SkipWhiteSpace(s, n + j + 2) == n + w
    requires w <= |b| && FirstOf(b, w, '}', '\n') == k && FirstOf(s, n + w, '}', '\n') == n + k
    requires k < |b| ==> s[n + k] == b[k] && s[n + w..n + k] == b[w..k]
    ensures InsertAt(b, j).None? ==> InsertAt(s, n + j).None?
    ensures InsertAt(b, j).Some? ==> InsertAt(s, n + j) == Some((InsertAt(b, j).value.0, n + InsertAt(b, j).value.1))
  {
    InsertAtIs(b, j, w, k);
    InsertAtIs(s, n + j, n + w, n + k);
  }

  /** `InsertAt` once the white space and the key have been measured. */
  lemma InsertAtIs(s: string, i: nat, w: nat, k: nat)
    requires i + 1 < |s| && s[i] == '{' && s[i + 1] == '+'
    requires SkipWhiteSpace(s, i + 2) == w && w <= |s| && FirstOf(s, w, '}', '\n') == k
    ensures InsertAt(s, i) == if k < |s| && s[k] == '}' then Some((s[w..k], k + 1)) else None
  {
  }

  lemma SliceShift(s: string, b: string, n: nat, w: nat, k: nat)
    requires n <= |s| && s[n..] == b && w <= k <= |b|
    ensures s[n + w..n + k] == b[w..k]
  {
    assert forall m :: w <= m < k ==> s[n + m] == b[m];
  }

  lemma {:induction false} SkipWhiteSpaceShift(s: string, b: string, n: nat, from: nat)
    requires n <= |s| && s[n..] == b && from <= |b|
    ensures SkipWhiteSpace(s, n + from) == n + SkipWhiteSpace(b, from)
    decreases |b| - from
  {
    if from < |b| {
      assert s[n + from] == b[from];
      SkipWhiteSpaceShift(s, b, n, from + 1);
    }
  }

  lemma {:induction false} FirstOfShift(s: string, b: string, n: nat, from: nat)
    requires n <= |s| && s[n..] == b && from <= |b|
    ensures FirstOf(s, n + from, '}', '\n') == n + FirstOf(b, from, '}', '\n')
    decreases |b| - from
  {
    if from < |b| {
      assert s[n + from] == b[from];
      FirstOfShift(s, b, n, from + 1);
    }
  }

  /** Resolving the end `b` of a text `s` in place is resolving `b` on its
      own: position `i` of `s` is position `j` of `b`. */
  lemma {:induction false} ResolveFromShift(d: map<string, string>, s: string, b: string, n: nat, i: nat, j: nat, fuel: nat)
    requires n <= |s| && s[n..] == b && j <= |b| && i == n + j
    ensures ResolveFrom(d, s, i, fuel) == ResolveFrom(d, b, j, fuel)
    decreases |b| - j
  {
    if j < |b| {
      assert |s| == n + |b|;
      InsertAtShift(s, b, n, j);
      var r := InsertAt(b, j);
      if r.Some? {
        var key, e := r.value.0, r.value.1;
        var e2 := InsertAt(s, i).value.1;
        ResolveFromShift(d, s, b, n, e2, e, fuel);
        ShiftInsert(d, s, b, i, j, fuel, key, e2, e);
      } else {
        var i2, k := i + 1, j + 1;
        ResolveFromShift(d, s, b, n, i2, k, fuel);
        assert s[n + j] == b[j];
        ShiftChar(d, s, b, i, j, i2, k, fuel);
      }
    }
  }

  /** One insert step of `ResolveFromShift`. */
  lemma ShiftInsert(d: map<string, string>, s: string, b: string, i: nat, j: nat, fuel: nat,
                    key: string, e2: nat, e: nat)
    requires j < |b| && i < |s| && InsertAt(b, j) == Some((key, e)) && InsertAt(s, i) == Some((key, e2))
    requires ResolveFrom(d, s, e2, fuel) == ResolveFrom(d, b, e, fuel)
    ensures ResolveFrom(d, s, i, fuel) == ResolveFrom(d, b, j, fuel)
  {
    if fuel > 0 {
      ResolveFromInsert(d, b, j, fuel, key, e);
      ResolveFromInsert(d, s, i, fuel, key, e2);
    }
  }

  /** One character step of `ResolveFromShift`. */
  lemma ShiftChar(d: map<string, string>, s: string, b: string, i: nat, j: nat, i2: nat, k: nat, fuel: nat)
    requires j < |b| && i < |s| && i2 == i + 1 && k == j + 1 && s[i] == b[j]
    requires InsertAt(b, j).None? && InsertAt(s, i).None?
    requires ResolveFrom(d, s, i2, fuel) == ResolveFrom(d, b, k, fuel)
    ensures ResolveFrom(d, s, i, fuel) == ResolveFrom(d, b, j, fuel)
  {
    ResolveFromChar(d, b, j, fuel);
    ResolveFromChar(d, s, i, fuel);
  }

  /** Text with no `{+` in front of `t` is copied, and `t` is resolved on
      its own (`t` must not start with `+`, or the prefix's last `{` would
      open an insert). */
  lemma {:induction false} ResolvePlainPrefix(d: map<string, string>, pre: string, t: string, m: nat, fuel: nat)
    requires m <= |pre| && NoInsertFrom(pre, 0)
    requires |t| > 0 ==> t[0] != '+'
    ensures var r := ResolveFrom(d, t, 0, fuel);
            ResolveFrom(d, pre + t, m, fuel) == if r.Some? then Some(pre[m..] + r.value) else None
    decreases |pre| - m
  {
    var s := pre + t;
    if m == |pre| {
      assert s[|pre|..] == t;
      ResolveFromShift(d, s, t, |pre|, |pre|, 0, fuel);
      var r := ResolveFrom(d, t, 0, fuel);
      if r.Some? {
        assert pre[m..] + r.value == r.value;
      }
    } else {
      assert InsertAt(s, m).None? by {
        if m + 1 < |pre| {
          assert !(pre[m] == '{' && pre[m + 1] == '+');
        }
      }
      ResolveFromChar(d, s, m, fuel);
      ResolvePlainPrefix(d, pre, t, m + 1, fuel);
      var r := ResolveFrom(d, t, 0, fuel);
      if r.Some? {
        assert s[m] == pre[m];
        PrefixStep(pre, m, r.value);
      }
    }
  }

  lemma PrefixStep(pre: string, m: nat, v: string)
    requires m < |pre|
    ensures [pre[m]] + (pre[m + 1..] + v) == pre[m..] + v
  {
    assert pre[m..] == [pre[m]] + pre[m + 1..];
  }

  /** A key the insert pattern captures whole: no `}` or line feed in it,
      and no leading white space for `\s*` to take. */
  predicate IsInsertKey(key: string) {
    '}' !in key && '\n' !in key && (|key| > 0 ==> !IsWhiteSpace(key[0]))
  }

  /** The resolver on any text: the plain text before the first insert is
      kept, the insert `{+KEY}` becomes the resolved value of `KEY` (or of
      `[XXX]` when it is missing) with one level less, and the text after
      it is resolved in turn; it fails exactly when one of the two does. */
  lemma ResolveInsert(d: map<string, string>, pre: string, key: string, post: string, fuel: nat)
    requires fuel > 0 && NoInsertFrom(pre, 0) && IsInsertKey(key)
    ensures var v := Resolve(d, Lookup(d, key), fuel - 1);
            var r := Resolve(d, post, fuel);
            Resolve(d, pre + "{+" + key + "}" + post, fuel)
            == if v.Some? && r.Some? then Some(pre + v.value + r.value) else None
  {
    var t := "{+" + key + "}" + post;
    assert pre + "{+" + key + "}" + post == pre + t;
    ResolvePlainPrefix(d, pre, t, 0, fuel);
    ResolveHead(d, key, post, fuel);
    var v := Resolve(d, Lookup(d, key), fuel - 1);
    var r := Resolve(d, post, fuel);
    if v.Some? && r.Some? {
      assert pre[0..] + (v.value + r.value) == pre + v.value + r.value;
    }
  }

  /** `ResolveInsert` with nothing before the insert. */
  lemma ResolveHead(d: map<string, string>, key: string, post: string, fuel: nat)
    requires fuel > 0 && IsInsertKey(key)
    ensures var v := ResolveFrom(d, Lookup(d, key), 0, fuel - 1);
            var r := ResolveFrom(d, post, 0, fuel);
            ResolveFrom(d, "{+" + key + "}" + post, 0, fuel)
            == if v.Some? && r.Some? then Some(v.value + r.value) else None
  {
    var head := "{+" + key + "}";
    var t := head + post;
    InsertAtHead(key, post);
    assert t[|head|..] == post;
    var e := |key| + 3;
    ResolveFromShift(d, t, post, |head|, e, 0, fuel);
    HeadInsert(d, t, key, e, post, fuel);
  }

  /** `{+KEY}` at the start of a text is matched whole. */
  lemma InsertAtHead(key: string, post: string)
    requires IsInsertKey(key)
    ensures InsertAt("{+" + key + "}" + post, 0) == Some((key, |key| + 3))
  {
    var t := "{+" + key + "}" + post;
    SkipWhiteSpaceIs(t, 2, 2);
    FirstOfIs(t, 2, '}', '\n', 2 + |key|);
    assert t[2..2 + |key|] == key;
  }

  /** An insert at the start of `t` followed by the text `post`. */
  lemma HeadInsert(d: map<string, string>, t: string, key: string, e: nat, post: string, fuel: nat)
    requires 0 < |t| && fuel > 0 && InsertAt(t, 0) == Some((key, e))
    requires ResolveFrom(d, t, e, fuel) == ResolveFrom(d, post, 0, fuel)
    ensures var v := ResolveFrom(d, Lookup(d, key), 0, fuel - 1);
            var r := ResolveFrom(d, post, 0, fuel);
            ResolveFrom(d, t, 0, fuel) == if v.Some? && r.Some? then Some(v.value + r.value) else None
  {
    ResolveFromInsert(d, t, 0, fuel, key, e);
  }

  /** `A = "{+B}"`, `B = "X"` resolves `A` to `X`; nested inserts resolve too. */
  lemma ResolveExamples()
    ensures Resolve(map["A" := "{+B}", "B" := "X"], "{+B}", 1) == Some("X")
    ensures Resolve(map["A" := "{+B}", "B" := "{+C}", "C" := "Y"], "{+B}", 2) == Some("Y")
  {
    var d1 := map["A" := "{+B}", "B" := "X"];
    var s := "{+B}";
    assert SkipWhiteSpace(s, 2) == 2;
    assert FirstOf(s, 2, '}', '\n') == 3;
    assert s[2..3] == "B";
    assert InsertAt(s, 0) == Some(("B", 4));
    ResolveFromPlain(d1, "X", 0, 0);
    assert ResolveFrom(d1, s, 4, 1) == Some("");
    ResolveFromInsert(d1, s, 0, 1, "B", 4);
    assert "X"[0..] == "X";
    assert "X" + "" == "X";

    var d2 := map["A" := "{+B}", "B" := "{+C}", "C" := "Y"];
    var c := "{+C}";
    assert SkipWhiteSpace(c, 2) == 2;
    assert FirstOf(c, 2, '}', '\n') == 3;
    assert c[2..3] == "C";
    assert InsertAt(c, 0) == Some(("C", 4));
    ResolveFromPlain(d2, "Y", 0, 0);
    assert ResolveFrom(d2, c, 4, 1) == Some("");
    ResolveFromInsert(d2, c, 0, 1, "C", 4);
    assert "Y"[0..] == "Y";
    assert "Y" + "" == "Y";
    assert ResolveFrom(d2, c, 0, 1) == Some("Y");
    assert ResolveFrom(d2, s, 4, 2) == Some("");
    ResolveFromInsert(d2, s, 0, 2, "B", 4);
  }

  /** A missing key resolves to `[XXX]`, white space after `+` is skipped. */
  lemma ResolveMissingKey(d: map<string, string>)
    requires "K" !in d
    ensures Resolve(d, "<{+  K}>", 1) == Some("<[XXX]>")
  {
    MissingKeyIn(d, "<{+  K}>");
  }

  lemma MissingKeyIn(d: map<string, string>, t: string)
    requires "K" !in d && t == "<{+  K}>"
    ensures ResolveFrom(d, t, 0, 1) == Some("<[XXX]>")
  {
    MissingKeyTail(d);
    assert ResolveFrom(d, t, 1, 1) == Some("[XXX]>") by {
      MissingKeyInsert();
      MissingValue(d);
      ResolveFromInsert(d, t, 1, 1, "K", 7);
      MissingKeyPieces();
    }
    assert InsertAt(t, 0) == None;
    ResolveFromChar(d, t, 0, 1);
    assert t[0] == '<';
    MissingKeyPieces();
  }

  lemma MissingKeyPieces()
    ensures Missing + ">" == "[XXX]>" && ['<'] + "[XXX]>" == "<[XXX]>"
  {
  }

  lemma MissingKeyInsert()
    ensures InsertAt("<{+  K}>", 1) == Some(("K", 7))
  {
    var t := "<{+  K}>";
    assert SkipWhiteSpace(t, 3) == 5;
    assert FirstOf(t, 5, '}', '\n') == 6;
    assert t[5..6] == "K";
  }

  lemma MissingKeyTail(d: map<string, string>)
    ensures ResolveFrom(d, "<{+  K}>", 7, 1) == Some(">")
  {
    var t := "<{+  K}>";
    assert InsertAt(t, 7) == None;
    ResolveFromChar(d, t, 7, 1);
    assert ResolveFrom(d, t, 8, 1) == Some("");
    assert [t[7]] + "" == ">";
  }

  lemma MissingValue(d: map<string, string>)
    requires "K" !in d
    ensures ResolveFrom(d, Lookup(d, "K"), 0, 0) == Some(Missing)
  {
    assert NoInsertFrom(Missing, 0);
    ResolveFromPlain(d, Missing, 0, 0);
    assert Missing[0..] == Missing;
  }

  // ---------------------------------------------------------------------
  // Cleaned text
  // ---------------------------------------------------------------------

  /** The nearest `{` left of `k` with no line feed in between (the lazy,
      right-to-left `(.*?)`). */
  function NearestOpen(s: string, k: nat): (r: Option<nat>)
    requires k <= |s|
    ensures r.Some? ==> r.value < k && s[r.value] == '{'
    decreases k
  {
    if k == 0 then None
    else if s[k - 1] == '{' then Some(k - 1)
    else if s[k - 1] == '\n' then None
    else NearestOpen(s, k - 1)
  }

  /** What a matched command is replaced by. */
  function CommandText(m: string): string {
    if m == "{n}" || m == "{break}" then "\n" else ""
  }

  /** The right-to-left replacement: every `}` takes the nearest `{` to its
      left; the scan then continues left of that `{`. */
  function CleanRtl(s: string): string
    decreases |s|
  {
    if |s| == 0 then ""
    else if s[|s| - 1] == '}' then
      match NearestOpen(s, |s| - 1)
      case Some(i) => CleanRtl(s[..i]) + CommandText(s[i..])
      case None => CleanRtl(s[..|s| - 1]) + "}"
    else CleanRtl(s[..|s| - 1]) + [s[|s| - 1]]
  }

  /** The cleaned view of one raw entry: only entries holding `{` are rewritten. */
  function Clean(s: string): string {
    if '{' in s then CleanRtl(s) else s
  }

  /** Appending text without `}` appends it to the cleaned text too. */
  lemma {:induction false} CleanRtlAppendPlain(x: string, t: string)
    requires '}' !in t
    ensures CleanRtl(x + t) == CleanRtl(x) + t
    decreases |t|
  {
    if |t| == 0 {
      assert x + t == x;
    } else {
      var u := t[..|t| - 1];
      assert (x + t)[..|x + t| - 1] == x + u;
      assert t[|t| - 1] in t;
      assert '}' !in u by {
        forall m | 0 <= m < |u| ensures u[m] != '}' { assert u[m] == t[m]; }
      }
      CleanRtlAppendPlain(x, u);
      assert t == u + [t[|t| - 1]];
    }
  }

  /** Text without `{` is unchanged by the replacement, so the `Contains('{')`
      test in the compiler is only a shortcut. */
  lemma CleanIsCleanRtl(s: string)
    ensures Clean(s) == CleanRtl(s)
  {
    if '{' !in s {
      NoOpenNone(s, |s| - 1);
      CleanRtlNoOpen(s);
    }
  }

  lemma {:induction false} NoOpenNone(s: string, k: int)
    requires '{' !in s && k <= |s|
    ensures k >= 0 ==> NearestOpen(s, k).None?
    decreases k
  {
    if k > 0 {
      assert s[k - 1] != '{';
      NoOpenNone(s, k - 1);
    }
  }

  lemma {:induction false} CleanRtlNoOpen(s: string)
    requires '{' !in s
    ensures CleanRtl(s) == s
    decreases |s|
  {
    if |s| > 0 {
      var u := s[..|s| - 1];
      assert '{' !in u by {
        forall m | 0 <= m < |u| ensures u[m] != '{' { assert u[m] == s[m]; }
      }
      NoOpenNone(s, |s| - 1);
      CleanRtlNoOpen(u);
      assert s == u + [s[|s| - 1]];
    }
  }

  /** A raw entry seen as text pieces and commands. */
  datatype Piece = Plain(text: string) | Command(body: string)

  /** Plain text holds no `}`; a command body holds no `{` and no line feed. */
  predicate WellFormed(p: Piece) {
    match p
    case Plain(t) => '}' !in t
    case Command(b) => '{' !in b && '\n' !in b
  }

  function RenderPiece(p: Piece): string {
    match p
    case Plain(t) => t
    case Command(b) => "{" + b + "}"
  }

  /** What each piece contributes to the cleaned text. */
  function CleanPiece(p: Piece): string {
    match p
    case Plain(t) => t
    case Command(b) => if b == "n" || b == "break" then "\n" else ""
  }

  function Render(ps: seq<Piece>): string {
    if |ps| == 0 then "" else Render(ps[..|ps| - 1]) + RenderPiece(ps[|ps| - 1])
  }

  function Cleaned(ps: seq<Piece>): string {
    if |ps| == 0 then "" else Cleaned(ps[..|ps| - 1]) + CleanPiece(ps[|ps| - 1])
  }

  lemma {:induction false} NearestOpenOverBody(x: string, b: string, k: nat)
    requires '{' !in b && '\n' !in b
    requires |x| < k <= |x| + 1 + |b|
    ensures NearestOpen(x + "{" + b + "}", k) == Some(|x|)
    decreases k
  {
    var s := x + "{" + b + "}";
    if k - 1 > |x| {
      assert s[k - 1] == b[k - 2 - |x|];
      NearestOpenOverBody(x, b, k - 1);
    } else {
      assert s[k - 1] == '{';
    }
  }

  /** The cleaned view removes every command except `{n}` and `{break}`,
      which become line feeds, and keeps all other text. */
  lemma {:induction false} CleanRendered(ps: seq<Piece>)
    requires forall i :: 0 <= i < |ps| ==> WellFormed(ps[i])
    ensures Clean(Render(ps)) == Cleaned(ps)
  {
    CleanRtlRendered(ps);
    CleanIsCleanRtl(Render(ps));
  }

  lemma CommandTextOfBody(b: string)
    ensures CommandText("{" + b + "}") == CleanPiece(Command(b))
  {
    assert "{" + b + "}" == "{n}" <==> b == "n" by {
      if "{" + b + "}" == "{n}" { assert b == ("{" + b + "}")[1..|b| + 1]; }
    }
    assert "{" + b + "}" == "{break}" <==> b == "break" by {
      if "{" + b + "}" == "{break}" { assert b == ("{" + b + "}")[1..|b| + 1]; }
    }
  }

  /** Appending a command appends its replacement to the cleaned text. */
  lemma {:induction false} CleanRtlAppendCommand(x: string, b: string)
    requires '{' !in b && '\n' !in b
    ensures CleanRtl(x + "{" + b + "}") == CleanRtl(x) + CommandText("{" + b + "}")
  {
    var s := x + "{" + b + "}";
    assert NearestOpen(s, |s| - 1) == Some(|x|) by {
      NearestOpenOverBody(x, b, |s| - 1);
    }
    assert s[|s| - 1] == '}' && s[..|x|] == x && s[|x|..] == "{" + b + "}";
    CleanRtlClose(s, |x|);
  }

  /** A closing `}` whose nearest `{` is at `i`. */
  lemma CleanRtlClose(s: string, i: nat)
    requires |s| > 0 && s[|s| - 1] == '}' && NearestOpen(s, |s| - 1) == Some(i)
    ensures CleanRtl(s) == CleanRtl(s[..i]) + CommandText(s[i..])
  {
  }

  lemma {:induction false} CleanRtlAppendPiece(x: string, p: Piece)
    requires WellFormed(p)
    ensures CleanRtl(x + RenderPiece(p)) == CleanRtl(x) + CleanPiece(p)
  {
    if p.Plain? {
      CleanRtlAppendPlain(x, p.text);
    } else {
      var b := p.body;
      assert x + RenderPiece(p) == x + "{" + b + "}" by {
        BracedAssoc(x, b);
      }
      assert CleanRtl(x + "{" + b + "}") == CleanRtl(x) + CommandText("{" + b + "}") by {
        CleanRtlAppendCommand(x, b);
      }
      CommandTextOfBody(b);
    }
  }

  lemma BracedAssoc(x: string, b: string)
    ensures x + ("{" + b + "}") == x + "{" + b + "}"
  {
  }

  lemma {:induction false} CleanRtlRendered(ps: seq<Piece>)
    requires forall i :: 0 <= i < |ps| ==> WellFormed(ps[i])
    ensures CleanRtl(Render(ps)) == Cleaned(ps)
  {
    if |ps| > 0 {
      var init := ps[..|ps| - 1];
      var last := ps[|ps| - 1];
      var x := Render(init);
      assert forall i :: 0 <= i < |init| ==> WellFormed(init[i]) by {
        forall i | 0 <= i < |init| ensures WellFormed(init[i]) { assert init[i] == ps[i]; }
      }
      CleanRtlRendered(init);
      CleanRtlAppendPiece(x, last);
    }
  }

  /** Two lines joined by an automatic break hold no insert. */
  lemma BreakJoinHasNoInsert(a: string, b: string)
    requires '{' !in a && '{' !in b
    ensures NoInsertFrom(a + "{break}" + b, 0)
  {
    var s := a + "{break}" + b;
    forall m | 0 <= m < |s| - 1 ensures !(s[m] == '{' && s[m + 1] == '+') {
      if m < |a| {
        assert s[m] == a[m];
      } else if m >= |a| + 7 {
        assert s[m] == b[m - |a| - 7];
      } else if m == |a| + 6 {
        assert s[m] == '}';
      } else {
        assert s[m + 1] == "{break}"[m + 1 - |a|];
      }
    }
  }

  /** The cleaned view of two lines joined by an automatic break is the two
      lines joined by a line feed. */
  lemma CleanBreakJoin(a: string, b: string)
    requires '}' !in a && '}' !in b
    ensures Clean(a + "{break}" + b) == a + "\n" + b
  {
    var ps := [Plain(a), Command("break"), Plain(b)];
    assert ps[..2][..1] == [Plain(a)];
    assert ps[..2] == [Plain(a), Command("break")];
    assert Render([Plain(a)]) == a;
    assert Render(ps) == a + "{break}" + b;
    assert Cleaned([Plain(a)]) == a;
    assert Cleaned(ps) == a + "\n" + b;
    CleanRendered(ps);
  }
}
