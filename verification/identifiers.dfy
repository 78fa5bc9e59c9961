/**
 * Identifier normalisation: how sheet names and file names become MySQL
 * table names (`normalize_sheet_name`, `filename_to_base_table_name`).
 *
 * Both source functions run the same pipeline: lower-case, replace every
 * character outside `[a-zA-Z0-9]` with `_`, collapse runs of `_`, strip
 * `_` at both ends, then fall back to a fixed prefix when the result is
 * empty or starts with a digit. `Clean` is that shared pipeline and
 * `WithFallback` the final step.
 */
module Identifiers {

  // ---------------------------------------------------------------------
  // Character classes (ASCII)
  // ---------------------------------------------------------------------

  predicate IsUpper(c: char) { 'A' <= c <= 'Z' }

  predicate IsLowerLetter(c: char) { 'a' <= c <= 'z' }

  /** `str.isdigit()` restricted to the characters that can reach it. */
  predicate IsDigit(c: char) { '0' <= c <= '9' }

  /** The regular-expression class `[a-zA-Z0-9]`. */
  predicate IsAlnum(c: char) { IsUpper(c) || IsLowerLetter(c) || IsDigit(c) }

  /** The characters a normalised table name is made of: `[a-z0-9_]`. */
  predicate IsIdentChar(c: char) { IsLowerLetter(c) || IsDigit(c) || c == '_' }

  // ---------------------------------------------------------------------
  // The normalisation steps
  // ---------------------------------------------------------------------

  /** `str.lower()` on one character, for ASCII. */
  function LowerChar(c: char): (d: char)
    ensures !IsUpper(d)
    ensures IsAlnum(d) <==> IsAlnum(c)
    ensures IsDigit(d) <==> IsDigit(c)
    ensures IsUpper(c) ==> IsLowerLetter(d) && d as int - 'a' as int == c as int - 'A' as int
    ensures !IsUpper(c) ==> d == c
  {
    if IsUpper(c) then (c as int + 32) as char else c
  }

  /** `str.lower()`. */
  function Lower(s: string): (r: string)
    ensures |r| == |s|
    ensures forall i :: 0 <= i < |s| ==> r[i] == LowerChar(s[i])
  {
    seq(|s|, i requires 0 <= i < |s| => LowerChar(s[i]))
  }

  /** `re.sub(r'[^a-zA-Z0-9]', '_', s)`. */
  function Sanitize(s: string): (r: string)
    ensures |r| == |s|
    ensures forall i :: 0 <= i < |s| ==> r[i] == if IsAlnum(s[i]) then s[i] else '_'
  {
    seq(|s|, i requires 0 <= i < |s| => if IsAlnum(s[i]) then s[i] else '_')
  }

  predicate AllIdentChars(s: string) {
    forall i :: 0 <= i < |s| ==> IsIdentChar(s[i])
  }

  /** No two adjacent underscores. */
  predicate NoDoubleUnderscore(s: string) {
    forall i :: 0 <= i < |s| - 1 ==> !(s[i] == '_' && s[i + 1] == '_')
  }

  /** `re.sub(r'_+', '_', s)`: every run of underscores becomes one. */
  function Collapse(s: string): (r: string)
    ensures |r| <= |s|
    decreases |s|
  {
    if |s| < 2 then s
    else if s[0] == '_' && s[1] == '_' then Collapse(s[1..])
    else [s[0]] + Collapse(s[1..])
  }

  /** `s.lstrip('_')`: the result never starts with `_`
      (StripLeadingSuffix says what is dropped). */
  function StripLeading(s: string): (r: string)
    ensures |r| > 0 ==> r[0] != '_'
  {
    if |s| > 0 && s[0] == '_' then StripLeading(s[1..]) else s
  }

  /** `s.lstrip('_')` drops exactly the leading underscores. */
  lemma {:induction false} StripLeadingSuffix(s: string)
    ensures |StripLeading(s)| <= |s| && StripLeading(s) == s[|s| - |StripLeading(s)|..]
    ensures forall i :: 0 <= i < |s| - |StripLeading(s)| ==> s[i] == '_'
  {
    if |s| > 0 && s[0] == '_' {
      var t := s[1..];
      StripLeadingSuffix(t);
      assert t[|t| - |StripLeading(t)|..] == s[|s| - |StripLeading(s)|..];
      forall i | 1 <= i < |s| - |StripLeading(s)| ensures s[i] == '_' {
        assert s[i] == t[i - 1];
      }
    }
  }

  /** `s.rstrip('_')`: drops exactly the trailing underscores. */
  function StripTrailing(s: string): (r: string)
    ensures |r| <= |s| && r == s[..|r|]
    ensures forall i :: |r| <= i < |s| ==> s[i] == '_'
    ensures |r| > 0 ==> r[|r| - 1] != '_'
  {
    if |s| > 0 && s[|s| - 1] == '_' then
      var r := StripTrailing(s[..|s| - 1]);
      assert s[..|s| - 1][..|r|] == s[..|r|];
      r
    else s
  }

  /** `s.strip('_')`: no `_` is left at either end, and a string without
      one there is returned unchanged. */
  function Strip(s: string): (r: string)
    ensures |r| > 0 ==> r[0] != '_' && r[|r| - 1] != '_'
    ensures |s| > 0 && s[0] != '_' && s[|s| - 1] != '_' ==> r == s
  {
    var l := StripLeading(s);
    var r := StripTrailing(l);
    assert |r| > 0 ==> r[0] == l[0];
    r
  }

  /** The output of lower / substitute / collapse / strip. */
  predicate IsCleaned(s: string) {
    && AllIdentChars(s)
    && NoDoubleUnderscore(s)
    && (|s| > 0 ==> s[0] != '_' && s[|s| - 1] != '_')
  }

  /** A valid table name: non-empty, `[a-z0-9_]`, no leading digit, no
      leading or trailing `_`, no `__`. */
  predicate IsIdentifier(s: string) {
    |s| > 0 && IsCleaned(s) && !IsDigit(s[0])
  }

  /** The pipeline shared by excel_to_mysql.py:50-56 and :64-66. */
  function Clean(s: string): (r: string)
    ensures IsCleaned(r)
  {
    var t := Collapse(Sanitize(Lower(s)));
    CollapseShape(Sanitize(Lower(s)));
    StripShape(t);
    Strip(t)
  }

  /** The fallback of excel_to_mysql.py:58-59 and :67-68. */
  function WithFallback(name: string, prefix: string): (r: string)
    ensures IsCleaned(name) && IsIdentifier(prefix) ==> IsIdentifier(r)
    ensures IsIdentifier(name) ==> r == name
  {
    var joined := prefix + "_" + name;
    UnderscoreJoinIsIdentifier(prefix, name);
    if |name| == 0 then prefix
    else if IsDigit(name[0]) then joined
    else name
  }

  /** `normalize_sheet_name`. */
  function NormalizeSheetName(sheetName: string): (r: string)
    ensures IsIdentifier(r)
  {
    PrefixesAreIdentifiers();
    WithFallback(Clean(sheetName), "sheet")
  }

  // ---------------------------------------------------------------------
  // os.path.splitext and filename_to_base_table_name
  // ---------------------------------------------------------------------

  /** `str.rfind` for one character: the last index of `c`, or -1. */
  function RFind(s: string, c: char): (r: int)
    ensures -1 <= r < |s|
    ensures r >= 0 ==> s[r] == c
    ensures forall k :: r < k < |s| ==> s[k] != c
  {
    if |s| == 0 then -1
    else if s[|s| - 1] == c then |s| - 1
    else RFind(s[..|s| - 1], c)
  }

  /** An occurrence with no later one is the one `RFind` finds. */
  lemma RFindLast(s: string, c: char, i: nat)
    requires i < |s| && s[i] == c
    requires forall k :: i < k < |s| ==> s[k] != c
    ensures RFind(s, c) == i
  {
  }

  /** `os.path.splitext` for POSIX paths: the extension starts at the last
      `.` of the last path component, unless everything before that dot in
      the component is a dot too (`.bashrc` has no extension). */
  function SplitExt(p: string): (r: (string, string))
    ensures r.0 + r.1 == p
    ensures r.1 == [] || (r.1[0] == '.' && '.' !in r.1[1..] && '/' !in r.1)
    ensures '.' !in p ==> r.0 == p
    ensures r.1 != [] <==>
              && RFind(p, '.') > RFind(p, '/')
              && exists k :: RFind(p, '/') < k < RFind(p, '.') && p[k] != '.'
    ensures r.1 != [] ==> r.1 == p[RFind(p, '.')..]
  {
    var sepIndex := RFind(p, '/');
    var dotIndex := RFind(p, '.');
    if dotIndex > sepIndex && exists k :: sepIndex + 1 <= k < dotIndex && p[k] != '.' then
      assert p[..dotIndex] + p[dotIndex..] == p;
      (p[..dotIndex], p[dotIndex..])
    else
      assert p + [] == p;
      (p, [])
  }

  /** `filename_to_base_table_name`. */
  function FilenameToBaseTableName(filename: string): (r: string)
    ensures IsIdentifier(r)
  {
    PrefixesAreIdentifiers();
    WithFallback(Clean(SplitExt(filename).0), "table")
  }

  // ---------------------------------------------------------------------
  // Reference views used to state what the pipeline keeps
  // ---------------------------------------------------------------------

  /** The ASCII letters and digits of `s`, in order. */
  function KeepAlnum(s: string): string {
    if |s| == 0 then []
    else (if IsAlnum(s[0]) then [s[0]] else []) + KeepAlnum(s[1..])
  }

  /** `s` with every underscore removed. */
  function DropUnderscores(s: string): string {
    if |s| == 0 then []
    else (if s[0] == '_' then [] else [s[0]]) + DropUnderscores(s[1..])
  }

  // ---------------------------------------------------------------------
  // Lemmas
  // ---------------------------------------------------------------------

  lemma {:induction false} StripLeadingKeepsShape(s: string)
    ensures AllIdentChars(s) ==> AllIdentChars(StripLeading(s))
    ensures NoDoubleUnderscore(s) ==> NoDoubleUnderscore(StripLeading(s))
    decreases |s|
  {
    if |s| > 0 && s[0] == '_' {
      StripLeadingKeepsShape(s[1..]);
    }
  }

  lemma {:induction false} StripTrailingKeepsShape(s: string)
    ensures AllIdentChars(s) ==> AllIdentChars(StripTrailing(s))
    ensures NoDoubleUnderscore(s) ==> NoDoubleUnderscore(StripTrailing(s))
    decreases |s|
  {
    if |s| > 0 && s[|s| - 1] == '_' {
      StripTrailingKeepsShape(s[..|s| - 1]);
    }
  }

  /** Stripping keeps the alphabet and the absence of `__`. */
  lemma StripShape(s: string)
    ensures AllIdentChars(s) ==> AllIdentChars(Strip(s))
    ensures NoDoubleUnderscore(s) ==> NoDoubleUnderscore(Strip(s))
  {
    StripLeadingKeepsShape(s);
    StripTrailingKeepsShape(StripLeading(s));
  }


  lemma PrefixesAreIdentifiers()
    ensures IsIdentifier("sheet") && IsIdentifier("table")
  {}


  /** Joining an identifier and a non-empty cleaned name with one `_`
      gives an identifier. */
  lemma UnderscoreJoinIsIdentifier(a: string, b: string)
    ensures IsIdentifier(a) && IsCleaned(b) && |b| > 0 ==> IsIdentifier(a + "_" + b)
  {
    if IsIdentifier(a) && IsCleaned(b) && |b| > 0 {
      var r := a + "_" + b;
      assert r[|a|] == '_';
      assert forall i :: 0 <= i < |b| ==> r[|a| + 1 + i] == b[i];
      assert forall i :: 0 <= i < |a| ==> r[i] == a[i];
      forall i | 0 <= i < |r| - 1
        ensures !(r[i] == '_' && r[i + 1] == '_')
      {
        if i < |a| - 1 {
        } else if i == |a| - 1 {
          assert r[i] == a[|a| - 1];
        } else if i == |a| {
          assert r[i + 1] == b[0];
        } else {
          assert r[i] == b[i - |a| - 1];
        }
      }
      assert r[|r| - 1] == b[|b| - 1];
    }
  }

  /** A cleaned string passes through the pipeline unchanged. */
  lemma CleanFixpoint(t: string)
    requires IsCleaned(t)
    ensures Clean(t) == t
  {
    assert Lower(t) == t by {
      forall i | 0 <= i < |t| ensures Lower(t)[i] == t[i] {
        assert IsIdentChar(t[i]);
      }
    }
    assert Sanitize(t) == t by {
      forall i | 0 <= i < |t| ensures Sanitize(t)[i] == t[i] {
        assert IsIdentChar(t[i]);
      }
    }
    CollapseShape(t);
    assert Collapse(t) == t;
    if |t| == 0 {
      assert Strip(t) == StripTrailing(StripLeading(t));
    }
  }

  lemma DropUnderscoresAppend(a: string, b: string)
    ensures DropUnderscores(a + b) == DropUnderscores(a) + DropUnderscores(b)
  {
    if |a| > 0 {
      assert (a + b)[1..] == a[1..] + b;
      DropUnderscoresAppend(a[1..], b);
    } else {
      assert a + b == b;
    }
  }

  lemma {:induction false} CollapseKeepsNonUnderscores(s: string)
    ensures DropUnderscores(Collapse(s)) == DropUnderscores(s)
    decreases |s|
  {
    if |s| >= 2 {
      CollapseKeepsNonUnderscores(s[1..]);
      if !(s[0] == '_' && s[1] == '_') {
        assert ([s[0]] + Collapse(s[1..]))[1..] == Collapse(s[1..]);
      }
    }
  }

  /** Collapsing keeps the first and last characters and leaves no `__`. */
  lemma {:induction false} CollapseEnds(s: string)
    ensures NoDoubleUnderscore(Collapse(s))
    ensures |s| > 0 ==> |Collapse(s)| > 0 && Collapse(s)[0] == s[0] && Collapse(s)[|Collapse(s)| - 1] == s[|s| - 1]
    decreases |s|
  {
    if |s| >= 2 {
      CollapseEnds(s[1..]);
      var t := Collapse(s[1..]);
      if !(s[0] == '_' && s[1] == '_') {
        var r := [s[0]] + t;
        assert t[0] == s[1];
        assert forall i :: 1 <= i < |r| ==> r[i] == t[i - 1];
      }
    }
  }

  /** Collapsing keeps the alphabet and changes nothing without `__`. */
  lemma {:induction false} CollapseKeeps(s: string)
    ensures AllIdentChars(s) ==> AllIdentChars(Collapse(s))
    ensures NoDoubleUnderscore(s) ==> Collapse(s) == s
    decreases |s|
  {
    if |s| >= 2 {
      CollapseKeeps(s[1..]);
      var t := Collapse(s[1..]);
      if NoDoubleUnderscore(s) {
        assert NoDoubleUnderscore(s[1..]) by {
          forall i | 0 <= i < |s[1..]| - 1
            ensures !(s[1..][i] == '_' && s[1..][i + 1] == '_')
          {
            assert s[1..][i] == s[i + 1] && s[1..][i + 1] == s[i + 2];
          }
        }
        assert s == [s[0]] + s[1..];
      }
      if AllIdentChars(s) {
        assert AllIdentChars(s[1..]) by {
          forall i | 0 <= i < |s[1..]| ensures IsIdentChar(s[1..][i]) {
            assert s[1..][i] == s[i + 1];
          }
        }
        if !(s[0] == '_' && s[1] == '_') {
          var r := [s[0]] + t;
          assert forall i :: 1 <= i < |r| ==> r[i] == t[i - 1];
        }
      }
    }
  }

  /** What collapsing promises about shape: no `__` remains, the first and
      last characters are kept, the alphabet is kept, and a string without
      `__` is left unchanged. */
  lemma CollapseShape(s: string)
    ensures NoDoubleUnderscore(Collapse(s))
    ensures |s| > 0 ==> |Collapse(s)| > 0 && Collapse(s)[0] == s[0] && Collapse(s)[|Collapse(s)| - 1] == s[|s| - 1]
    ensures AllIdentChars(s) ==> AllIdentChars(Collapse(s))
    ensures NoDoubleUnderscore(s) ==> Collapse(s) == s
  {
    CollapseEnds(s);
    CollapseKeeps(s);
  }

  /** `n` underscores. */
  function Underscores(n: nat): (u: string)
    ensures |u| == n
    ensures forall i :: 0 <= i < n ==> u[i] == '_'
  {
    seq(n, i => '_')
  }

  /** A non-empty run of underscores collapses to a single one. */
  lemma {:induction false} CollapseRun(n: nat)
    requires n > 0
    ensures Collapse(Underscores(n)) == "_"
    decreases n
  {
    if n >= 2 {
      assert Underscores(n)[1..] == Underscores(n - 1);
      CollapseRun(n - 1);
    }
  }

  /** One step of `Collapse`: an underscore followed by another goes. */
  lemma CollapseConsSkip(rest: string)
    requires |rest| > 0 && rest[0] == '_'
    ensures Collapse(['_'] + rest) == Collapse(rest)
  {
    assert (['_'] + rest)[1..] == rest;
  }

  /** One step of `Collapse`: any other head character stays. */
  lemma CollapseConsKeep(x: char, rest: string)
    requires x != '_' || |rest| == 0 || rest[0] != '_'
    ensures Collapse([x] + rest) == [x] + Collapse(rest)
  {
    if |rest| > 0 {
      assert ([x] + rest)[1..] == rest;
    } else {
      assert [x] + rest == [x];
    }
  }

  /** Runs of underscores never reach across another character: collapsing
      works separately on each side of it. */
  lemma {:induction false} CollapseSplit(a: string, c: char, b: string)
    requires c != '_'
    ensures Collapse(a + [c] + b) == Collapse(a) + [c] + Collapse(b)
    decreases |a|
  {
    if |a| == 0 {
      assert a + [c] + b == [c] + b;
      CollapseConsKeep(c, b);
    } else {
      var tail := a[1..] + [c] + b;
      assert a + [c] + b == [a[0]] + tail;
      assert a == [a[0]] + a[1..];
      CollapseSplit(a[1..], c, b);
      var x, y := Collapse(a[1..]), Collapse(b);
      if a[0] == '_' && |a| >= 2 && a[1] == '_' {
        assert tail[0] == '_';
        CollapseConsSkip(tail);
        CollapseConsSkip(a[1..]);
      } else {
        assert tail[0] == if |a| >= 2 then a[1] else c;
        CollapseConsKeep(a[0], tail);
        CollapseConsKeep(a[0], a[1..]);
        assert [a[0]] + (x + [c] + y) == ([a[0]] + x) + [c] + y;
      }
    }
  }

  lemma {:induction false} StripLeadingKeepsNonUnderscores(s: string)
    ensures DropUnderscores(StripLeading(s)) == DropUnderscores(s)
    decreases |s|
  {
    if |s| > 0 && s[0] == '_' {
      StripLeadingKeepsNonUnderscores(s[1..]);
    }
  }

  lemma {:induction false} StripTrailingKeepsNonUnderscores(s: string)
    ensures DropUnderscores(StripTrailing(s)) == DropUnderscores(s)
    decreases |s|
  {
    if |s| > 0 && s[|s| - 1] == '_' {
      var init := s[..|s| - 1];
      StripTrailingKeepsNonUnderscores(init);
      assert s == init + [s[|s| - 1]];
      DropUnderscoresAppend(init, [s[|s| - 1]]);
    }
  }

  lemma {:induction false} SanitizeKeepsAlnum(s: string)
    ensures DropUnderscores(Sanitize(s)) == KeepAlnum(s)
    decreases |s|
  {
    if |s| > 0 {
      assert Sanitize(s)[1..] == Sanitize(s[1..]);
      SanitizeKeepsAlnum(s[1..]);
    }
  }

  lemma {:induction false} LowerCommutesWithKeepAlnum(s: string)
    ensures KeepAlnum(Lower(s)) == Lower(KeepAlnum(s))
    decreases |s|
  {
    if |s| > 0 {
      var l := Lower(s);
      assert l[0] == LowerChar(s[0]);
      assert l[1..] == Lower(s[1..]);
      LowerCommutesWithKeepAlnum(s[1..]);
      var rest := KeepAlnum(s[1..]);
      if IsAlnum(s[0]) {
        assert KeepAlnum(s) == [s[0]] + rest;
        assert Lower([s[0]] + rest) == [LowerChar(s[0])] + Lower(rest);
      } else {
        assert KeepAlnum(s) == rest;
      }
    }
  }

  /** Cleaning keeps every ASCII letter and digit of the name, lower-cased
      and in order, and drops everything else except single `_` separators. */
  lemma CleanKeepsLettersAndDigits(s: string)
    ensures DropUnderscores(Clean(s)) == Lower(KeepAlnum(s))
  {
    var t := Collapse(Sanitize(Lower(s)));
    StripTrailingKeepsNonUnderscores(StripLeading(t));
    StripLeadingKeepsNonUnderscores(t);
    CollapseKeepsNonUnderscores(Sanitize(Lower(s)));
    SanitizeKeepsAlnum(Lower(s));
    LowerCommutesWithKeepAlnum(s);
  }

  /** Every character is an ASCII letter or digit. */
  predicate AllAlnum(s: string) {
    forall i :: 0 <= i < |s| ==> IsAlnum(s[i])
  }

  /** No character is an ASCII letter or digit. */
  predicate NoAlnum(s: string) {
    forall i :: 0 <= i < |s| ==> !IsAlnum(s[i])
  }

  lemma LowerSanitizeWords(a: string, sep: string, b: string)
    requires AllAlnum(a) && NoAlnum(sep) && AllAlnum(b)
    ensures Sanitize(Lower(a + sep + b)) == Lower(a) + Underscores(|sep|) + Lower(b)
    ensures AllAlnum(Lower(a)) && AllAlnum(Lower(b))
  {
    var t := Lower(a) + Underscores(|sep|) + Lower(b);
    var s := a + sep + b;
    forall i | 0 <= i < |s| ensures Sanitize(Lower(s))[i] == t[i] {
      if i < |a| {
        assert s[i] == a[i];
      } else if i < |a| + |sep| {
        assert s[i] == sep[i - |a|];
      } else {
        assert s[i] == b[i - |a| - |sep|];
      }
    }
  }

  /** Collapsing a string without underscores changes nothing. */
  lemma CollapseAlnum(s: string)
    requires AllAlnum(s)
    ensures Collapse(s) == s
  {
    CollapseKeeps(s);
  }

  lemma CollapseRunThenWord(n: nat, y: string)
    requires n > 0 && |y| > 0 && AllAlnum(y)
    ensures Collapse(Underscores(n) + y) == "_" + y
  {
    var u, y0, yr := Underscores(n), y[0], y[1..];
    assert y == [y0] + yr;
    assert u + y == u + [y0] + yr;
    assert IsAlnum(y0);
    CollapseSplit(u, y0, yr);
    CollapseRun(n);
    CollapseAlnum(yr);
  }

  lemma CollapseWordThen(x: string, rest: string)
    requires |x| > 0 && AllAlnum(x)
    ensures Collapse(x + rest) == x + Collapse(rest)
  {
    var x0, xl := x[..|x| - 1], x[|x| - 1];
    assert x == x0 + [xl];
    assert x + rest == x0 + [xl] + rest;
    assert IsAlnum(xl);
    CollapseSplit(x0, xl, rest);
    CollapseAlnum(x0);
  }

  lemma CollapseWords(x: string, n: nat, y: string)
    requires |x| > 0 && |y| > 0 && n > 0
    requires AllAlnum(x) && AllAlnum(y)
    ensures Collapse(x + Underscores(n) + y) == x + "_" + y
  {
    var u := Underscores(n);
    assert x + u + y == x + (u + y);
    CollapseWordThen(x, u + y);
    CollapseRunThenWord(n, y);
    assert x + ("_" + y) == x + "_" + y;
  }

  /** Where the separators go: two runs of letters and digits around a
      non-empty run of other characters clean to the two runs, lower-cased,
      joined by a single `_` ("My Sheet" becomes "my_sheet"). */
  lemma CleanSeparatesWords(a: string, sep: string, b: string)
    requires |a| > 0 && |sep| > 0 && |b| > 0
    requires AllAlnum(a) && NoAlnum(sep) && AllAlnum(b)
    ensures Clean(a + sep + b) == Lower(a) + "_" + Lower(b)
  {
    LowerSanitizeWords(a, sep, b);
    var t := Lower(a) + "_" + Lower(b);
    CollapseWords(Lower(a), |sep|, Lower(b));
    assert t[0] == Lower(a)[0] && t[|t| - 1] == Lower(b)[|b| - 1];
  }

  /** The cleaned name is empty exactly when the raw name has no ASCII
      letter or digit; otherwise it starts with the lower-cased first one. */
  lemma CleanFirstChar(s: string)
    ensures Clean(s) == [] <==> KeepAlnum(s) == []
    ensures Clean(s) != [] ==> Clean(s)[0] == LowerChar(KeepAlnum(s)[0])
  {
    CleanKeepsLettersAndDigits(s);
    var c := Clean(s);
    if c != [] {
      assert c[0] != '_';
      assert DropUnderscores(c)[0] == c[0];
    }
  }

  /** The three outcomes of the fallback, stated in terms of the raw name:
      only the prefix when it has no letter or digit, prefix and `_` when
      its first letter-or-digit is a digit, the cleaned name otherwise. */
  lemma FallbackCases(s: string, prefix: string)
    ensures KeepAlnum(s) == [] ==> WithFallback(Clean(s), prefix) == prefix
    ensures KeepAlnum(s) != [] && IsDigit(KeepAlnum(s)[0]) ==>
              WithFallback(Clean(s), prefix) == prefix + "_" + Clean(s)
    ensures KeepAlnum(s) != [] && !IsDigit(KeepAlnum(s)[0]) ==>
              WithFallback(Clean(s), prefix) == Clean(s)
  {
    CleanFirstChar(s);
  }

  /** `normalize_sheet_name` in terms of the raw sheet name. */
  lemma NormalizeSheetNameCases(sheetName: string)
    ensures KeepAlnum(sheetName) == [] ==> NormalizeSheetName(sheetName) == "sheet"
    ensures KeepAlnum(sheetName) != [] && IsDigit(KeepAlnum(sheetName)[0]) ==>
              NormalizeSheetName(sheetName) == "sheet_" + Clean(sheetName)
    ensures KeepAlnum(sheetName) != [] && !IsDigit(KeepAlnum(sheetName)[0]) ==>
              NormalizeSheetName(sheetName) == Clean(sheetName)
  {
    var c := Clean(sheetName);
    assert NormalizeSheetName(sheetName) == WithFallback(c, "sheet");
    FallbackCases(sheetName, "sheet");
    if KeepAlnum(sheetName) != [] && IsDigit(KeepAlnum(sheetName)[0]) {
      assert "sheet" + "_" + c == "sheet_" + c;
    }
  }

  /** The names `normalize_sheet_name` leaves alone are exactly the valid
      identifiers. */
  lemma NormalizeSheetNameFixpoints(x: string)
    ensures NormalizeSheetName(x) == x <==> IsIdentifier(x)
  {
    if IsIdentifier(x) {
      CleanFixpoint(x);
    }
  }

  /** Normalising a normalised sheet name changes nothing. */
  lemma NormalizeSheetNameIdempotent(sheetName: string)
    ensures NormalizeSheetName(NormalizeSheetName(sheetName)) == NormalizeSheetName(sheetName)
  {
    NormalizeSheetNameFixpoints(NormalizeSheetName(sheetName));
  }

  /** `filename_to_base_table_name` in terms of the file name without its
      extension. */
  lemma FilenameToBaseTableNameCases(filename: string)
    ensures KeepAlnum(SplitExt(filename).0) == [] ==> FilenameToBaseTableName(filename) == "table"
    ensures KeepAlnum(SplitExt(filename).0) != [] && IsDigit(KeepAlnum(SplitExt(filename).0)[0]) ==>
              FilenameToBaseTableName(filename) == "table_" + Clean(SplitExt(filename).0)
    ensures KeepAlnum(SplitExt(filename).0) != [] && !IsDigit(KeepAlnum(SplitExt(filename).0)[0]) ==>
              FilenameToBaseTableName(filename) == Clean(SplitExt(filename).0)
  {
    var root := SplitExt(filename).0;
    var c := Clean(root);
    assert FilenameToBaseTableName(filename) == WithFallback(c, "table");
    FallbackCases(root, "table");
    if KeepAlnum(root) != [] && IsDigit(KeepAlnum(root)[0]) {
      assert "table" + "_" + c == "table_" + c;
    }
  }

  /** The file names `filename_to_base_table_name` leaves alone are exactly
      the valid identifiers (which contain no `.`, hence no extension). */
  lemma FilenameToBaseTableNameFixpoints(x: string)
    ensures FilenameToBaseTableName(x) == x <==> IsIdentifier(x)
  {
    if IsIdentifier(x) {
      assert '.' !in x by {
        forall i | 0 <= i < |x| ensures x[i] != '.' {
          assert IsIdentChar(x[i]);
        }
      }
      CleanFixpoint(x);
    }
  }

  lemma FilenameToBaseTableNameIdempotent(filename: string)
    ensures FilenameToBaseTableName(FilenameToBaseTableName(filename)) == FilenameToBaseTableName(filename)
  {
    FilenameToBaseTableNameFixpoints(FilenameToBaseTableName(filename));
  }

  /** A character absent from the string is not found. */
  lemma RFindAbsent(s: string, c: char)
    requires c !in s
    ensures RFind(s, c) == -1
  {
  }

  /** Searching past a part without the character lands in the part before. */
  lemma RFindAppend(a: string, b: string, c: char)
    requires c !in b
    ensures RFind(a + b, c) == RFind(a, c)
  {
    var i := RFind(a, c);
    if i >= 0 {
      assert (a + b)[i] == c;
      forall k | i < k < |a + b| ensures (a + b)[k] != c {
        if k < |a| {
          assert (a + b)[k] == a[k];
        } else {
          assert (a + b)[k] == b[k - |a|];
        }
      }
      RFindLast(a + b, c, i);
    } else {
      assert c !in a + b by {
        forall k | 0 <= k < |a + b| ensures (a + b)[k] != c {
          if k < |a| {
            assert (a + b)[k] == a[k];
          } else {
            assert (a + b)[k] == b[k - |a|];
          }
        }
      }
      RFindAbsent(a + b, c);
    }
  }

  /** `splitext` gives back exactly the extension appended to a file name:
      a `.` followed by neither `.` nor `/`, after a last path component
      that has some character other than `.` ("report.xlsx" splits into
      "report" and ".xlsx"). */
  lemma SplitExtRemovesExtension(root: string, ext: string)
    requires |ext| > 0 && ext[0] == '.' && '.' !in ext[1..] && '/' !in ext
    requires exists k :: RFind(root, '/') < k < |root| && root[k] != '.'
    ensures SplitExt(root + ext) == (root, ext)
  {
    var p := root + ext;
    var k :| RFind(root, '/') < k < |root| && root[k] != '.';
    RFindAppend(root, ext, '/');
    assert p[|root|] == '.';
    forall j | |root| < j < |p| ensures p[j] != '.' {
      assert p[j] == ext[1..][j - |root| - 1];
    }
    RFindLast(p, '.', |root|);
    assert p[k] == root[k];
    assert p[..|root|] == root;
  }

  lemma ExampleWords()
    ensures AllAlnum("My") && AllAlnum("Sheet") && NoAlnum(" ")
    ensures Lower("My") == "my" && Lower("Sheet") == "sheet"
  {
    assert IsAlnum('M') && IsAlnum('y');
    assert IsAlnum('S') && IsAlnum('h') && IsAlnum('e') && IsAlnum('t');
    assert LowerChar('M') == 'm' && LowerChar('y') == 'y';
    assert LowerChar('S') == 's' && LowerChar('h') == 'h' && LowerChar('e') == 'e' && LowerChar('t') == 't';
  }

  /** A worked sheet name: the space becomes one `_` and the letters are
      lower-cased. */
  lemma NormalizeSheetNameExample()
    ensures Clean("My Sheet") == "my_sheet"
    ensures NormalizeSheetName("My Sheet") == "my_sheet"
  {
    assert "My Sheet" == "My" + " " + "Sheet";
    ExampleWords();
    CleanSeparatesWords("My", " ", "Sheet");
    assert "my" + "_" + "sheet" == "my_sheet";
  }
}
