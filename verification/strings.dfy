/** Characters and strings with the meaning Python gives them: the regex
    classes `\s`, `\d`, `\w`, ASCII case folding, `str.strip`, `str.split`,
    `str.join`, whitespace collapsing and decimal formatting of integers. */
module Strings {

  /** Python's `str.isspace` and the regex class `\s`, restricted to Latin-1. */
  predicate IsSpace(c: char) {
    c == ' ' || c == '\t' || c == '\n' || c == '\r' || c == '\U{0B}' || c == '\U{0C}'
    || c == '\U{1C}' || c == '\U{1D}' || c == '\U{1E}' || c == '\U{1F}'
    || c == '\U{85}' || c == '\U{A0}'
  }

  /** The regex class `\d` (ASCII digits). */
  predicate IsDigit(c: char) { '0' <= c <= '9' }

  /** The regex class `[A-Z]`. */
  predicate IsUpper(c: char) { 'A' <= c <= 'Z' }

  /** The regex class `\w` (ASCII letters, digits and underscore). */
  predicate IsWordChar(c: char) { IsUpper(c) || 'a' <= c <= 'z' || IsDigit(c) || c == '_' }

  predicate IsDot(c: char) { c == '.' }

  predicate IsPipe(c: char) { c == '|' }

  predicate IsDash(c: char) { c == '-' }

  predicate IsPlus(c: char) { c == '+' }

  /** ASCII lower-casing, the model of `re.IGNORECASE`. */
  function ToLower(c: char): char {
    if IsUpper(c) then (c as int + 32) as char else c
  }

  /** `s.lower()` on ASCII letters: no upper-case letter is left and every
      other character is kept in place. */
  function Lower(s: string): (r: string)
    ensures |r| == |s|
    ensures forall i | 0 <= i < |r| :: !IsUpper(r[i])
    ensures forall i | 0 <= i < |s| :: !IsUpper(s[i]) ==> r[i] == s[i]
    ensures forall i | 0 <= i < |s| :: IsUpper(s[i]) ==> r[i] as int == s[i] as int + 32
  {
    seq(|s|, i requires 0 <= i < |s| => ToLower(s[i]))
  }

  /** Lower-casing twice is lower-casing once. */
  lemma LowerIdempotent(s: string)
    ensures Lower(Lower(s)) == Lower(s)
  {
  }

  /** `pat` occurs in `s` at index `i`. */
  predicate StartsAt(s: string, pat: string, i: int) {
    0 <= i && i + |pat| <= |s| && s[i..i + |pat|] == pat
  }

  /** `pat in s`, and a regex search for a literal. */
  predicate Contains(s: string, pat: string) {
    exists i | 0 <= i <= |s| :: StartsAt(s, pat, i)
  }

  predicate StartsWith(s: string, prefix: string) { StartsAt(s, prefix, 0) }

  predicate EndsWith(s: string, suffix: string) {
    |suffix| <= |s| && s[|s| - |suffix|..] == suffix
  }

  /** Every character of `s` is whitespace. */
  predicate AllSpace(s: string) {
    forall i :: 0 <= i < |s| ==> IsSpace(s[i])
  }

  /** `s.lstrip()`: the longest suffix of `s` that does not start with whitespace. */
  function TrimLeft(s: string): (r: string)
    ensures |r| <= |s| && r == s[|s| - |r|..]
    ensures AllSpace(s[..|s| - |r|])
    ensures r == [] || !IsSpace(r[0])
  {
    if s != [] && IsSpace(s[0]) then
      var r := TrimLeft(s[1..]);
      assert s[..|s| - |r|] == [s[0]] + s[1..][..|s| - 1 - |r|];
      r
    else s
  }

  /** `s.rstrip()`: the longest prefix of `s` that does not end with whitespace. */
  function TrimRight(s: string): (r: string)
    ensures |r| <= |s| && r == s[..|r|]
    ensures AllSpace(s[|r|..])
    ensures r == [] || !IsSpace(r[|r| - 1])
  {
    if s != [] && IsSpace(s[|s| - 1]) then
      var r := TrimRight(s[..|s| - 1]);
      assert s[|r|..] == s[..|s| - 1][|r|..] + [s[|s| - 1]];
      r
    else s
  }

  /** `r` is `s[i..j]` and only whitespace lies outside that slice. */
  predicate SliceBetweenSpaces(r: string, s: string, i: int, j: int) {
    0 <= i <= j <= |s| && r == s[i..j] && AllSpace(s[..i]) && AllSpace(s[j..])
  }

  /** `s.strip()`: the slice of `s` left once its leading and trailing
      whitespace is cut off. */
  function Strip(s: string): (r: string)
    ensures exists i, j :: SliceBetweenSpaces(r, s, i, j)
    ensures r == [] || (!IsSpace(r[0]) && !IsSpace(r[|r| - 1]))
    ensures NonSpace(r) == NonSpace(s)
  {
    var t := TrimLeft(s);
    TrimLeftNonSpace(s);
    TrimRightNonSpace(t);
    StripSlice(s);
    TrimRightFirst(t);
    TrimRight(t)
  }

  /** Cutting trailing whitespace keeps the first character. */
  lemma TrimRightFirst(t: string)
    ensures TrimRight(t) != [] ==> TrimRight(t)[0] == t[0]
  {
  }

  /** Where the slice kept by `Strip` starts and ends. */
  lemma StripSlice(s: string)
    ensures SliceBetweenSpaces(TrimRight(TrimLeft(s)), s, |s| - |TrimLeft(s)|, |s| - |TrimLeft(s)| + |TrimRight(TrimLeft(s))|)
  {
    var t := TrimLeft(s);
    var r := TrimRight(t);
    var i := |s| - |t|;
    var j := i + |r|;
    assert AllSpace(s[..i]);
    SliceOfSuffix(s, i, t, r);
    assert AllSpace(s[j..]);
  }

  /** A prefix of a suffix of `s` is a slice of `s`, and what follows it
      in the suffix is what follows it in `s`. */
  lemma SliceOfSuffix(s: string, i: nat, t: string, r: string)
    requires i <= |s| && t == s[i..] && |r| <= |t| && r == t[..|r|]
    ensures r == s[i..i + |r|] && t[|r|..] == s[i + |r|..]
  {
  }

  lemma {:induction false} TrimLeftNonSpace(s: string)
    ensures NonSpace(TrimLeft(s)) == NonSpace(s)
  {
    if s != [] && IsSpace(s[0]) {
      TrimLeftNonSpace(s[1..]);
    }
  }

  lemma {:induction false} TrimRightNonSpace(s: string)
    ensures NonSpace(TrimRight(s)) == NonSpace(s)
  {
    if s != [] && IsSpace(s[|s| - 1]) {
      var p := s[..|s| - 1];
      TrimRightNonSpace(p);
      assert s == p + [s[|s| - 1]];
      NonSpaceAppend(p, [s[|s| - 1]]);
      assert NonSpace([s[|s| - 1]]) == "";
    }
  }

  /** `re.sub(r'\s+', ' ', s)`: every maximal run of whitespace becomes one space. */
  function CollapseWs(s: string): (r: string)
    ensures r == [] <==> s == []
    ensures SingleSpaced(r)
    ensures s != [] ==> (IsSpace(r[0]) <==> IsSpace(s[0]))
    ensures s != [] ==> (IsSpace(r[|r| - 1]) <==> IsSpace(s[|s| - 1]))
    ensures NonSpace(r) == NonSpace(s)
    decreases |s|
  {
    if s == [] then ""
    else if IsSpace(s[0]) then
      var t := TrimLeft(s);
      assert s == s[..|s| - |t|] + t;
      NonSpaceOfSpaces(s[..|s| - |t|], t);
      var r := " " + CollapseWs(t);
      assert r[1..] == CollapseWs(t);
      r
    else
      [s[0]] + CollapseWs(s[1..])
  }

  /** Every whitespace character is a plain space and no two whitespace
      characters are adjacent. */
  predicate SingleSpaced(s: string) {
    s == []
    || ((IsSpace(s[0]) ==> s[0] == ' ' && (|s| > 1 ==> !IsSpace(s[1]))) && SingleSpaced(s[1..]))
  }

  /** The non-whitespace characters of `s`, in order. */
  function NonSpace(s: string): string {
    if s == [] then "" else (if IsSpace(s[0]) then "" else [s[0]]) + NonSpace(s[1..])
  }

  lemma {:induction false} NonSpaceAppend(a: string, b: string)
    ensures NonSpace(a + b) == NonSpace(a) + NonSpace(b)
  {
    if a == [] {
      assert a + b == b;
    } else {
      assert (a + b)[0] == a[0];
      assert (a + b)[1..] == a[1..] + b;
      NonSpaceAppend(a[1..], b);
    }
  }

  lemma {:induction false} NonSpaceOfSpaces(w: string, t: string)
    requires AllSpace(w)
    ensures NonSpace(w + t) == NonSpace(t)
  {
    if w != [] {
      assert (w + t)[0] == w[0] && IsSpace(w[0]);
      assert (w + t)[1..] == w[1..] + t;
      assert AllSpace(w[1..]) by {
        forall i | 0 <= i < |w[1..]| ensures IsSpace(w[1..][i]) { assert w[1..][i] == w[i + 1]; }
      }
      NonSpaceOfSpaces(w[1..], t);
      assert NonSpace(w + t) == NonSpace(w[1..] + t);
    } else {
      assert w + t == t;
    }
  }

  /** Text that is already single-spaced and does not start with whitespace
      is left as it is. */
  lemma {:induction false} CollapseWsFixes(s: string)
    requires SingleSpaced(s)
    requires s == [] || !IsSpace(s[0])
    ensures CollapseWs(s) == s
    decreases |s|
  {
    if s != [] {
      var t := s[1..];
      assert s == [s[0]] + t;
      if t != [] && IsSpace(t[0]) {
        var u := t[1..];
        CollapseWsFixes(u);
        CollapseWsOneSpace(t);
        assert t == " " + u;
      } else {
        CollapseWsFixes(t);
      }
    }
  }

  /** A lone space before non-whitespace stays a lone space. */
  lemma CollapseWsOneSpace(t: string)
    requires t != [] && t[0] == ' '
    requires |t| == 1 || !IsSpace(t[1])
    ensures CollapseWs(t) == " " + CollapseWs(t[1..])
  {
    assert TrimLeft(t[1..]) == t[1..];
  }

  /** The longest prefix of `s` holding no whitespace. */
  function WordPrefix(s: string): (w: string)
    ensures |w| <= |s| && w == s[..|w|]
    ensures forall i | 0 <= i < |w| :: !IsSpace(w[i])
    ensures |w| == |s| || IsSpace(s[|w|])
    ensures s != [] && !IsSpace(s[0]) ==> w != []
  {
    if s == [] || IsSpace(s[0]) then [] else [s[0]] + WordPrefix(s[1..])
  }

  /** A non-empty run of non-whitespace characters. */
  predicate IsWord(w: string) {
    w != [] && forall i | 0 <= i < |w| :: !IsSpace(w[i])
  }

  /** `s.split()` with no separator: the maximal runs of non-whitespace
      characters, in order. */
  function Words(s: string): seq<string>
    decreases |s|
  {
    var t := TrimLeft(s);
    if t == [] then [] else var w := WordPrefix(t); [w] + Words(t[|w|..])
  }

  /** Every piece `Words` yields is a non-empty run of non-whitespace. */
  lemma {:induction false} WordsAreWords(s: string)
    ensures forall k | 0 <= k < |Words(s)| :: IsWord(Words(s)[k])
    decreases |s|
  {
    var t := TrimLeft(s);
    if t != [] {
      var w := WordPrefix(t);
      var rest := t[|w|..];
      WordsAreWords(rest);
      var ws := Words(s);
      assert ws == [w] + Words(rest);
      forall k | 0 <= k < |ws| ensures IsWord(ws[k]) {
        if k > 0 {
          assert ws[k] == Words(rest)[k - 1];
        }
      }
    }
  }

  /** A text that does not start with whitespace is its own `TrimLeft`. */
  lemma TrimLeftFix(t: string)
    requires t == [] || !IsSpace(t[0])
    ensures TrimLeft(t) == t
  {
  }

  lemma {:induction false} TrimLeftSpaces(sp: string, v: string)
    requires AllSpace(sp)
    requires v == [] || !IsSpace(v[0])
    ensures TrimLeft(sp + v) == v
  {
    if sp == [] {
      assert sp + v == v;
    } else {
      assert (sp + v)[0] == sp[0];
      assert (sp + v)[1..] == sp[1..] + v;
      TrimLeftSpaces(sp[1..], v);
    }
  }

  lemma {:induction false} TrimRightSpaces(w: string, sp: string)
    requires AllSpace(sp)
    requires w == [] || !IsSpace(w[|w| - 1])
    ensures TrimRight(w + sp) == w
  {
    if sp == [] {
      assert w + sp == w;
    } else {
      var sp' := sp[..|sp| - 1];
      assert (w + sp)[..|w + sp| - 1] == w + sp';
      TrimRightSpaces(w, sp');
    }
  }

  /** Trailing whitespace is cut from the end only: what precedes the last
      non-whitespace character is kept. */
  lemma {:induction false} TrimRightKeep(x: string, y: string)
    requires TrimRight(y) != []
    ensures TrimRight(x + y) == x + TrimRight(y)
  {
    if IsSpace(y[|y| - 1]) {
      var y' := y[..|y| - 1];
      assert (x + y)[..|x + y| - 1] == x + y';
      TrimRightKeep(x, y');
    }
  }

  lemma {:induction false} CollapseWsWord(w: string, x: string)
    requires forall i | 0 <= i < |w| :: !IsSpace(w[i])
    ensures CollapseWs(w + x) == w + CollapseWs(x)
  {
    if w == [] {
      assert w + x == x;
      assert w + CollapseWs(x) == CollapseWs(x);
    } else {
      var s := w + x;
      assert s[0] == w[0] && !IsSpace(s[0]);
      assert s[1..] == w[1..] + x;
      assert CollapseWs(s) == [s[0]] + CollapseWs(s[1..]);
      CollapseWsWord(w[1..], x);
      var c := CollapseWs(x);
      assert CollapseWs(s) == [w[0]] + (w[1..] + c);
      assert [w[0]] + (w[1..] + c) == ([w[0]] + w[1..]) + c;
      assert [w[0]] + w[1..] == w;
    }
  }

  lemma CollapseWsSpaces(sp: string, v: string)
    requires sp != [] && AllSpace(sp)
    requires v == [] || !IsSpace(v[0])
    ensures CollapseWs(sp + v) == " " + CollapseWs(v)
  {
    assert (sp + v)[0] == sp[0];
    TrimLeftSpaces(sp, v);
  }

  /** `re.sub(r'\s+', ' ', s.strip())` is `' '.join(s.split())`: the words
      of the text, one space apart. */
  lemma CollapseStripWords(s: string)
    ensures CollapseWs(Strip(s)) == Join(Words(s), " ")
  {
    var t := TrimLeft(s);
    TrimLeftFix(t);
    assert Words(s) == Words(t);
    CollapseTrimRightWords(t);
  }

  lemma {:induction false} CollapseTrimRightWords(t: string)
    requires t == [] || !IsSpace(t[0])
    ensures CollapseWs(TrimRight(t)) == Join(Words(t), " ")
    decreases |t|
  {
    if t != [] {
      var w, sp, u := WordsUnfold(t);
      if u == [] {
        CollapseSingleWord(w, sp);
        assert t == w + sp;
      } else {
        CollapseTrimRightWords(u);
        CollapseWordThenSpaces(w, sp, u);
        JoinCons(w, Words(u), " ");
      }
    }
  }

  /** A single word followed by whitespace collapses to the word. */
  lemma CollapseSingleWord(w: string, sp: string)
    requires IsWord(w) && AllSpace(sp)
    ensures CollapseWs(TrimRight(w + sp)) == w
  {
    TrimRightSpaces(w, sp);
    CollapseWsWord(w, []);
    assert w + [] == w;
  }

  /** A text starting with a word is that word, a run of whitespace and the
      rest of the text; its words are the first and those of the rest. */
  lemma WordsUnfold(t: string) returns (w: string, sp: string, u: string)
    requires t != [] && !IsSpace(t[0])
    ensures t == w + sp + u && IsWord(w) && AllSpace(sp)
    ensures u == [] || (sp != [] && !IsSpace(u[0]) && Words(u) != [])
    ensures |u| < |t|
    ensures Words(t) == [w] + Words(u)
  {
    w := WordPrefix(t);
    var rest := t[|w|..];
    u := TrimLeft(rest);
    sp := rest[..|rest| - |u|];
    SliceThree(t, w, rest, sp, u);
    WordsStep(t);
    WordsSkip(rest);
    assert Words(t) == [w] + Words(u);
    if u != [] {
      assert sp != [] by {
        assert IsSpace(rest[0]);
      }
      WordsStep(u);
    }
  }

  lemma SliceThree(t: string, w: string, rest: string, sp: string, u: string)
    requires |w| <= |t| && w == t[..|w|] && rest == t[|w|..]
    requires |u| <= |rest| && u == rest[|rest| - |u|..] && sp == rest[..|rest| - |u|]
    ensures t == w + sp + u
  {
    assert rest == sp + u;
    assert t == w + rest;
  }

  lemma WordsStep(t: string)
    requires t != [] && !IsSpace(t[0])
    ensures Words(t) == [WordPrefix(t)] + Words(t[|WordPrefix(t)|..])
  {
    TrimLeftFix(t);
  }

  lemma WordsSkip(s: string)
    ensures Words(s) == Words(TrimLeft(s))
  {
    TrimLeftFix(TrimLeft(s));
  }

  /** Once the trailing whitespace is cut, a word, a run of whitespace and a
      text with a non-whitespace character collapse to the word, one space
      and the collapsed text. */
  lemma CollapseWordThenSpaces(w: string, sp: string, u: string)
    requires IsWord(w) && sp != [] && AllSpace(sp)
    requires u != [] && !IsSpace(u[0])
    ensures CollapseWs(TrimRight(w + sp + u)) == w + (" " + CollapseWs(TrimRight(u)))
  {
    TrimRightAfter(w, sp, u);
    TrimRightStart(u);
    CollapseWordSpaces(w, sp, TrimRight(u));
  }

  lemma TrimRightAfter(w: string, sp: string, u: string)
    requires u != [] && !IsSpace(u[0])
    ensures TrimRight(w + sp + u) == w + (sp + TrimRight(u))
  {
    TrimRightStart(u);
    TrimRightKeep(w + sp, u);
    assert (w + sp) + TrimRight(u) == w + (sp + TrimRight(u));
  }

  lemma CollapseWordSpaces(w: string, sp: string, v: string)
    requires IsWord(w) && sp != [] && AllSpace(sp)
    requires v != [] && !IsSpace(v[0])
    ensures CollapseWs(w + (sp + v)) == w + (" " + CollapseWs(v))
  {
    CollapseWsWord(w, sp + v);
    CollapseWsSpaces(sp, v);
  }

  /** Cutting trailing whitespace keeps a non-whitespace first character. */
  lemma TrimRightStart(u: string)
    requires u != [] && !IsSpace(u[0])
    ensures TrimRight(u) != [] && TrimRight(u)[0] == u[0]
  {
  }

  lemma JoinCons(w: string, ws: seq<string>, sep: string)
    requires ws != []
    ensures Join([w] + ws, sep) == w + (sep + Join(ws, sep))
  {
    assert ([w] + ws)[1..] == ws;
  }

  /** `str.split(sep)` with a one-character separator: the pieces between
      separators, including empty ones; `"".split(sep) == [""]`. */
  function Split(s: string, sep: char): (parts: seq<string>)
    ensures |parts| >= 1
    decreases |s|
  {
    if s == [] then [""]
    else
      var rest := Split(s[1..], sep);
      if s[0] == sep then [""] + rest else [[s[0]] + rest[0]] + rest[1..]
  }

  /** No piece of a split holds the separator. */
  lemma {:induction false} SplitPartsFree(s: string, sep: char)
    ensures forall i | 0 <= i < |Split(s, sep)| :: sep !in Split(s, sep)[i]
    decreases |s|
  {
    if s != [] {
      var rest := Split(s[1..], sep);
      SplitPartsFree(s[1..], sep);
      if s[0] == sep {
        assert forall i | 1 <= i < |rest| + 1 :: ([""] + rest)[i] == rest[i - 1];
      } else {
        var parts := [[s[0]] + rest[0]] + rest[1..];
        assert forall i | 1 <= i < |parts| :: parts[i] == rest[i];
      }
    }
  }

  /** `sep.join(parts)`. */
  function Join(parts: seq<string>, sep: string): string {
    if |parts| == 0 then ""
    else if |parts| == 1 then parts[0]
    else parts[0] + sep + Join(parts[1..], sep)
  }

  /** Joining the pieces of a split with the separator gives the string back. */
  lemma {:induction false} JoinSplit(s: string, sep: char)
    ensures Join(Split(s, sep), [sep]) == s
  {
    if s != [] {
      var rest := Split(s[1..], sep);
      JoinSplit(s[1..], sep);
      if s[0] == sep {
        assert Split(s, sep) == [""] + rest;
        assert ([""] + rest)[1..] == rest;
      } else {
        var parts := [[s[0]] + rest[0]] + rest[1..];
        assert Split(s, sep) == parts;
        if |rest| == 1 {
          assert Join(rest, [sep]) == rest[0];
        } else {
          assert Join(rest, [sep]) == rest[0] + [sep] + Join(rest[1..], [sep]);
          assert parts[1..] == rest[1..];
        }
      }
    }
  }

  /** Splitting a join of separator-free pieces gives the pieces back. */
  lemma {:induction false} SplitJoin(parts: seq<string>, sep: char)
    requires |parts| >= 1
    requires forall i :: 0 <= i < |parts| ==> sep !in parts[i]
    ensures Split(Join(parts, [sep]), sep) == parts
  {
    if |parts| == 1 {
      SplitNoSep(parts[0], sep);
    } else {
      SplitJoin(parts[1..], sep);
      SplitPrefix(parts[0], Join(parts[1..], [sep]), sep);
      assert parts == [parts[0]] + parts[1..];
    }
  }

  lemma {:induction false} SplitNoSep(s: string, sep: char)
    requires sep !in s
    ensures Split(s, sep) == [s]
  {
    if s != [] {
      SplitNoSep(s[1..], sep);
      assert s == [s[0]] + s[1..];
    }
  }

  lemma {:induction false} SplitPrefix(w: string, t: string, sep: char)
    requires sep !in w
    ensures Split(w + [sep] + t, sep) == [w] + Split(t, sep)
  {
    if w == [] {
      assert w + [sep] + t == [sep] + t;
      assert ([sep] + t)[1..] == t;
    } else {
      assert (w + [sep] + t)[1..] == w[1..] + [sep] + t;
      SplitPrefix(w[1..], t, sep);
      assert w == [w[0]] + w[1..];
    }
  }

  function DigitChar(d: nat): char
    requires d < 10
  {
    "0123456789"[d]
  }

  /** `str(n)` for a natural number: its decimal digits, without leading zeros. */
  function NatToString(n: nat): (r: string)
    ensures |r| >= 1
    ensures forall i :: 0 <= i < |r| ==> IsDigit(r[i])
    ensures r[0] == '0' ==> n == 0
    decreases n
  {
    if n < 10 then [DigitChar(n)] else NatToString(n / 10) + [DigitChar(n % 10)]
  }

  /** `str(n)` / `f"{n}"` for an integer. */
  function IntToString(n: int): string {
    if n < 0 then "-" + NatToString(-n) else NatToString(n)
  }

  function DigitValue(c: char): nat
    requires IsDigit(c)
  {
    c as int - '0' as int
  }

  /** The number a string of decimal digits denotes. */
  function DigitsValue(s: string): nat
    requires forall i :: 0 <= i < |s| ==> IsDigit(s[i])
  {
    if s == [] then 0 else DigitsValue(s[..|s| - 1]) * 10 + DigitValue(s[|s| - 1])
  }

  /** Reading back the digits `NatToString` writes gives the number. */
  lemma {:induction false} NatToStringValue(n: nat)
    ensures DigitsValue(NatToString(n)) == n
  {
    if n >= 10 {
      NatToStringValue(n / 10);
      var r := NatToString(n);
      assert r[..|r| - 1] == NatToString(n / 10);
    }
  }
}
