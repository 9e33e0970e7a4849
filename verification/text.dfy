/** The handful of Python `str` operations the modelled code relies on:
    `strip`, `split()`, `split(sep, 1)[0]`, `find`, `count`, `startswith`,
    `endswith`, `str(int)`, `<` on strings, and the `os.path` helpers
    `join`, `basename` and `splitext`. Characters are code points. */
module Text {

  /** Python's `str.isspace`, the white space `str.strip()` and `str.split()`
      remove: the ASCII controls tab to carriage return and file to unit
      separator, the space, and the Unicode separators U+0085, U+00A0,
      U+1680, U+2000 to U+200A, U+2028, U+2029, U+202F, U+205F and U+3000. */
  predicate IsSpace(c: char) {
    c == ' ' || c == '\t' || c == '\n' || c == '\r' || c == '\U{0B}' || c == '\U{0C}'
    || c == '\U{1C}' || c == '\U{1D}' || c == '\U{1E}' || c == '\U{1F}'
    || c == '\U{85}' || c == '\U{A0}' || c == '\U{1680}'
    || ('\U{2000}' <= c <= '\U{200A}')
    || c == '\U{2028}' || c == '\U{2029}' || c == '\U{202F}' || c == '\U{205F}'
    || c == '\U{3000}'
  }

  predicate NoSpace(s: string) {
    forall i :: 0 <= i < |s| ==> !IsSpace(s[i])
  }

  /** `s.lstrip()` */
  function TrimLeft(s: string): (r: string)
    ensures |r| <= |s| && r == s[|s| - |r|..]
    ensures forall i :: 0 <= i < |s| - |r| ==> IsSpace(s[i])
    ensures r == [] || !IsSpace(r[0])
  {
    if |s| > 0 && IsSpace(s[0]) then TrimLeft(s[1..]) else s
  }

  /** `s.rstrip()` */
  function TrimRight(s: string): (r: string)
    ensures |r| <= |s| && r == s[..|r|]
    ensures forall i :: |r| <= i < |s| ==> IsSpace(s[i])
    ensures r == [] || !IsSpace(r[|r| - 1])
  {
    if |s| > 0 && IsSpace(s[|s| - 1]) then TrimRight(s[..|s| - 1]) else s
  }

  /** `s.strip()`: the longest infix with no surrounding white space. */
  function Strip(s: string): (r: string)
    ensures r == [] || (!IsSpace(r[0]) && !IsSpace(r[|r| - 1]))
    ensures r == [] <==> forall i :: 0 <= i < |s| ==> IsSpace(s[i])
    ensures NoSpace(s) ==> r == s
  {
    TrimRight(TrimLeft(s))
  }

  /** `s.split(c, 1)[0]`: everything before the first `c`. */
  function BeforeFirst(s: string, c: char): (r: string)
    ensures r <= s
    ensures c !in r
    ensures |r| < |s| ==> s[|r|] == c
  {
    if s == [] || s[0] == c then [] else [s[0]] + BeforeFirst(s[1..], c)
  }

  /** The longest prefix of `s` without white space. */
  function Word(s: string): (r: string)
    ensures r <= s && NoSpace(r)
    ensures |r| < |s| ==> IsSpace(s[|r|])
  {
    if s == [] || IsSpace(s[0]) then [] else [s[0]] + Word(s[1..])
  }

  /** `s.split()`: the maximal runs of non-space characters, in order. */
  function Tokens(s: string): (r: seq<string>)
    ensures forall i :: 0 <= i < |r| ==> r[i] != [] && NoSpace(r[i])
    decreases |s|
  {
    var t := TrimLeft(s);
    if t == [] then []
    else
      var w := Word(t);
      var rest := Tokens(t[|w|..]);
      assert forall i :: 0 < i < |rest| + 1 ==> ([w] + rest)[i] == rest[i - 1];
      [w] + rest
  }

  /** `' '.join(words)` */
  function JoinSpaced(words: seq<string>): string {
    if words == [] then []
    else if |words| == 1 then words[0]
    else words[0] + " " + JoinSpaced(words[1..])
  }

  lemma {:induction false} WordOfJoined(w: string, rest: string)
    requires w != [] && NoSpace(w)
    requires rest == [] || IsSpace(rest[0])
    ensures Word(w + rest) == w
  {
    if |w| > 1 {
      assert (w + rest)[1..] == w[1..] + rest;
      WordOfJoined(w[1..], rest);
    } else {
      assert (w + rest)[1..] == rest;
    }
  }

  lemma {:induction false} TrimLeftOfWordStart(s: string)
    requires s == [] || !IsSpace(s[0])
    ensures TrimLeft(s) == s
  {
  }

  /** A leading word followed by nothing or by white space is the first token. */
  lemma {:induction false} TokensCons(w: string, rest: string)
    requires w != [] && NoSpace(w)
    requires rest == [] || IsSpace(rest[0])
    ensures Tokens(w + rest) == [w] + Tokens(rest)
  {
    var s := w + rest;
    TrimLeftOfWordStart(s);
    WordOfJoined(w, rest);
    assert s[|w|..] == rest;
  }

  /** A word, one space and any text: the word is the first token and the
      text gives the rest. */
  lemma {:induction false} TokensAfterSpace(w: string, rest: string)
    requires w != [] && NoSpace(w)
    ensures Tokens(w + " " + rest) == [w] + Tokens(rest)
  {
    var r := " " + rest;
    assert w + " " + rest == w + r;
    assert r[1..] == rest;
    TokensSkipsSpace(r);
    TokensCons(w, r);
  }

  /** Leading white space does not change the tokens. */
  lemma {:induction false} TokensSkipsSpace(s: string)
    requires s != [] && IsSpace(s[0])
    ensures Tokens(s) == Tokens(s[1..])
  {
    assert TrimLeft(s) == TrimLeft(s[1..]);
  }

  /** Splitting a space-joined list of words gives the words back. */
  lemma {:induction false} TokensOfJoined(words: seq<string>)
    requires forall i :: 0 <= i < |words| ==> words[i] != [] && NoSpace(words[i])
    ensures Tokens(JoinSpaced(words)) == words
  {
    if words == [] {
    } else if |words| == 1 {
      TokensCons(words[0], []);
      assert words[0] + [] == words[0];
    } else {
      var tail := words[1..];
      assert forall i :: 0 <= i < |tail| ==> tail[i] == words[i + 1];
      assert JoinSpaced(words) == words[0] + " " + JoinSpaced(tail);
      TokensAfterSpace(words[0], JoinSpaced(tail));
      TokensOfJoined(tail);
      assert [words[0]] + tail == words;
    }
  }

  predicate StartsWith(s: string, prefix: string) {
    prefix <= s
  }

  predicate EndsWith(s: string, suffix: string) {
    |suffix| <= |s| && s[|s| - |suffix|..] == suffix
  }

  /** `s.find(c, start)`: the first index at or after `start` holding `c`, or -1. */
  function Find(s: string, c: char, start: nat): (r: int)
    ensures r == -1 || (start <= r < |s| && s[r] == c)
    ensures r == -1 ==> forall i :: start <= i < |s| ==> s[i] != c
    ensures r >= 0 ==> forall i :: start <= i < r ==> s[i] != c
    decreases |s| - start
  {
    if start >= |s| then -1
    else if s[start] == c then start
    else Find(s, c, start + 1)
  }

  /** `s.count(c)` for a one-character `c`. */
  function Count(s: string, c: char): (r: nat)
    ensures r <= |s|
    ensures r == 0 <==> c !in s
  {
    if s == [] then 0
    else (if s[0] == c then 1 else 0) + Count(s[1..], c)
  }

  lemma {:induction false} CountAppend(s: string, t: string, c: char)
    ensures Count(s + t, c) == Count(s, c) + Count(t, c)
  {
    if s != [] {
      assert (s + t)[1..] == s[1..] + t;
      CountAppend(s[1..], t, c);
    } else {
      assert s + t == t;
    }
  }

  /** The decimal digit character of `d`. */
  function Digit(d: nat): char
    requires d < 10
  {
    ('0' as int + d) as char
  }

  predicate IsDigit(c: char) {
    '0' <= c <= '9'
  }

  /** The value of a decimal digit character. */
  function DigitValue(c: char): nat
    requires IsDigit(c)
  {
    c as int - '0' as int
  }

  /** `str(n)` for a natural number. */
  function NatToString(n: nat): string {
    if n < 10 then [Digit(n)] else NatToString(n / 10) + [Digit(n % 10)]
  }

  /** A nonempty string of decimal digits. */
  predicate IsDecimal(s: string) {
    s != [] && forall i | 0 <= i < |s| :: IsDigit(s[i])
  }

  /** `str(n)` is a decimal numeral without a leading zero. */
  lemma {:induction false} NatToStringDigits(n: nat)
    ensures IsDecimal(NatToString(n))
    ensures |NatToString(n)| > 1 ==> NatToString(n)[0] != '0'
  {
    if n >= 10 {
      NatToStringDigits(n / 10);
      var r := NatToString(n);
      var front := NatToString(n / 10);
      assert r == front + [Digit(n % 10)];
      assert forall i | 0 <= i < |front| :: r[i] == front[i];
      if n / 10 < 10 {
        assert front == [Digit(n / 10)];
        assert Digit(n / 10) as int == '0' as int + n / 10 > '0' as int;
      }
    }
  }

  /** The value of a string of decimal digits. */
  function DecimalValue(s: string): nat
    requires forall i | 0 <= i < |s| :: IsDigit(s[i])
  {
    if s == [] then 0
    else 10 * DecimalValue(s[..|s| - 1]) + DigitValue(s[|s| - 1])
  }

  /** `int(str(n)) == n` */
  lemma {:induction false} NatToStringRoundTrip(n: nat)
    ensures IsDecimal(NatToString(n)) && DecimalValue(NatToString(n)) == n
  {
    NatToStringDigits(n);
    var r := NatToString(n);
    if n >= 10 {
      NatToStringRoundTrip(n / 10);
      assert r[..|r| - 1] == NatToString(n / 10);
      assert DigitValue(Digit(n % 10)) == n % 10;
    } else {
      assert DigitValue(Digit(n)) == n;
    }
  }

  /** Distinct numbers print differently, so names built from them differ. */
  lemma {:induction false} NatToStringInjective(m: nat, n: nat)
    requires NatToString(m) == NatToString(n)
    ensures m == n
  {
    NatToStringRoundTrip(m);
    NatToStringRoundTrip(n);
  }

  /** `str(i)` for any integer. */
  function IntToString(i: int): string {
    if i < 0 then "-" + NatToString(-i) else NatToString(i)
  }

  /** `str(i)` is nonempty and starts with a minus sign exactly when `i` is
      negative. */
  lemma {:induction false} IntToStringSign(i: int)
    ensures IntToString(i) != []
    ensures i < 0 <==> IntToString(i)[0] == '-'
  {
    NatToStringDigits(if i < 0 then -i else i);
  }

  lemma {:induction false} IntToStringInjective(m: int, n: int)
    requires IntToString(m) == IntToString(n)
    ensures m == n
  {
    IntToStringSign(m);
    IntToStringSign(n);
    if m < 0 {
      assert IntToString(m)[1..] == NatToString(-m);
      assert IntToString(n)[1..] == NatToString(-n);
      NatToStringInjective(-m, -n);
    } else {
      NatToStringInjective(m, n);
    }
  }

  /** Python's `<` on strings: code-point lexicographic order. */
  predicate StrLess(a: string, b: string) {
    if a == [] then b != []
    else if b == [] then false
    else if a[0] != b[0] then a[0] < b[0]
    else StrLess(a[1..], b[1..])
  }

  lemma {:induction false} StrLessIrreflexive(a: string)
    ensures !StrLess(a, a)
  {
    if a != [] {
      StrLessIrreflexive(a[1..]);
    }
  }

  lemma {:induction false} StrLessTransitive(a: string, b: string, c: string)
    requires StrLess(a, b) && StrLess(b, c)
    ensures StrLess(a, c)
  {
    if a != [] && b != [] && c != [] && a[0] == b[0] && b[0] == c[0] {
      StrLessTransitive(a[1..], b[1..], c[1..]);
    }
  }

  lemma {:induction false} StrLessTotal(a: string, b: string)
    ensures StrLess(a, b) || StrLess(b, a) || a == b
  {
    if a != [] && b != [] && a[0] == b[0] {
      StrLessTotal(a[1..], b[1..]);
      if a[1..] == b[1..] {
        assert a == [a[0]] + a[1..] && b == [b[0]] + b[1..];
      }
    }
  }

  /** `os.path.join(directory, name)` */
  function PathJoin(directory: string, name: string): string {
    if StartsWith(name, "/") then name
    else if directory == [] || EndsWith(directory, "/") then directory + name
    else directory + "/" + name
  }

  /** The index just after the last '/' of `path` (0 when there is none). */
  function BaseStart(path: string): (k: nat)
    ensures k <= |path|
    ensures k > 0 ==> path[k - 1] == '/'
    ensures forall i :: k <= i < |path| ==> path[i] != '/'
  {
    if path == [] then 0
    else if path[|path| - 1] == '/' then |path|
    else BaseStart(path[..|path| - 1])
  }

  /** `os.path.basename(path)` */
  function Basename(path: string): string {
    path[BaseStart(path)..]
  }

  /** A directory entry name joined onto any directory has that entry as base name. */
  lemma {:induction false} BasenameOfJoin(directory: string, name: string)
    requires name != [] && '/' !in name
    ensures Basename(PathJoin(directory, name)) == name
  {
    var p := PathJoin(directory, name);
    assert p[|p| - |name|..] == name;
    assert |p| > |name| ==> p[|p| - |name| - 1] == '/';
    BaseStartAt(p, |p| - |name|);
  }

  lemma {:induction false} BaseStartAt(path: string, k: nat)
    requires k <= |path|
    requires k > 0 ==> path[k - 1] == '/'
    requires forall i :: k <= i < |path| ==> path[i] != '/'
    ensures BaseStart(path) == k
  {
    if path != [] && path[|path| - 1] != '/' {
      BaseStartAt(path[..|path| - 1], k);
    }
  }

  /** The index of the last '.' of `s`, or -1. */
  function LastDot(s: string): (r: int)
    ensures -1 <= r < |s|
    ensures r >= 0 ==> s[r] == '.'
    ensures forall i :: r < i < |s| ==> s[i] != '.'
  {
    if s == [] then -1
    else if s[|s| - 1] == '.' then |s| - 1
    else LastDot(s[..|s| - 1])
  }

  /** The extension part of `os.path.splitext(path)`: from the last dot of the
      base name, unless every character before that dot is a dot too. */
  function Extension(path: string): string {
    NameExtension(Basename(path))
  }

  /** The extension of a base name: from its last dot, unless every character
      before that dot is a dot too. */
  function NameExtension(b: string): string {
    var d := LastDot(b);
    if d >= 0 && exists j :: 0 <= j < d && b[j] != '.' then b[d..] else []
  }
}
