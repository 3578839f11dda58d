/**
 Shared vocabulary of the model: an Option type, string search in the sense of
 JavaScript's `indexOf`/`includes`, and the character classes the engine's
 regular expressions are built from. A `string` stands for a JavaScript string,
 one `char` per UTF-16 code unit, so offsets and lengths agree with the source.
 */
module Base {

  datatype Option<+T> = None | Some(value: T) {
    /** `x || fallback` for a value that is either present or absent */
    function GetOr(default: T): T {
      match this
      case Some(v) => v
      case None => default
    }
  }

  /** `t` occurs in `s` starting at offset `i` */
  predicate OccursAt(t: string, s: string, i: nat) {
    i + |t| <= |s| && s[i..i + |t|] == t
  }

  ghost predicate IsSubstring(t: string, s: string) {
    exists i: nat :: OccursAt(t, s, i)
  }

  /** `s.indexOf(t, from)`: the first offset at or after `from` where `t` occurs */
  function IndexOfFrom(s: string, t: string, from: nat): (r: Option<nat>)
    decreases |s| - from
    ensures r.Some? ==> from <= r.value && OccursAt(t, s, r.value)
    ensures r.Some? ==> forall j :: from <= j < r.value ==> !OccursAt(t, s, j)
    ensures r.None? ==> forall j :: from <= j ==> !OccursAt(t, s, j)
  {
    if from + |t| > |s| then None
    else if s[from..from + |t|] == t then Some(from)
    else IndexOfFrom(s, t, from + 1)
  }

  /** `s.indexOf(t)`, with -1 read as None */
  function IndexOf(s: string, t: string): Option<nat> {
    IndexOfFrom(s, t, 0)
  }

  /** `s.includes(t)` */
  predicate Contains(s: string, t: string) {
    IndexOf(s, t).Some?
  }

  lemma ContainsIff(s: string, t: string)
    ensures Contains(s, t) <==> IsSubstring(t, s)
  {
    if IsSubstring(t, s) {
      var i: nat :| OccursAt(t, s, i);
    }
  }

  /** A slice of a slice is a slice of the whole */
  lemma SliceOfSlice<T>(s: seq<T>, a: nat, b: nat, i: nat, j: nat)
    requires a <= b <= |s| && i <= j <= b - a
    ensures s[a..b][i..j] == s[a + i..a + j]
  {
    var x, y := s[a..b][i..j], s[a + i..a + j];
    forall k | 0 <= k < j - i ensures x[k] == y[k] {
      assert x[k] == s[a..b][i + k];
    }
  }

  /** An occurrence of a longer literal contains an occurrence of each of its infixes */
  lemma OccursInfix(t: string, s: string, i: nat, a: nat, b: nat)
    requires OccursAt(t, s, i) && a <= b <= |t|
    ensures OccursAt(t[a..b], s, i + a)
  {
    forall k | 0 <= k < b - a ensures s[i + a..i + b][k] == t[a..b][k] {
      assert s[i..i + |t|][a + k] == t[a + k];
    }
  }

  /** A text holding `a + b + c` holds `b` */
  lemma ContainsPart(s: string, a: string, b: string, c: string)
    requires IsSubstring(a + b + c, s)
    ensures Contains(s, b)
  {
    var t := a + b + c;
    var i: nat :| OccursAt(t, s, i);
    assert t[|a|..|a| + |b|] == b;
    OccursInfix(t, s, i, |a|, |a| + |b|);
    ContainsAt(s, b, i + |a|);
  }

  /** `s.includes(t)` holds as soon as one occurrence is known */
  lemma ContainsAt(s: string, t: string, i: nat)
    requires OccursAt(t, s, i)
    ensures Contains(s, t)
  {
  }

  predicate IsAsciiUpper(c: char) { 'A' <= c <= 'Z' }
  predicate IsAsciiLower(c: char) { 'a' <= c <= 'z' }
  predicate IsAsciiDigit(c: char) { '0' <= c <= '9' }

  /** `[a-zA-Z0-9]` */
  predicate IsAsciiAlnum(c: char) {
    IsAsciiUpper(c) || IsAsciiLower(c) || IsAsciiDigit(c)
  }

  /** `\w`, the word characters of JavaScript's `\b` without the `u` flag */
  predicate IsWordChar(c: char) {
    IsAsciiAlnum(c) || c == '_'
  }

  /** `[a-zA-Z0-9_-]`, the characters of a share code */
  predicate IsCodeChar(c: char) {
    IsAsciiAlnum(c) || c == '_' || c == '-'
  }

  /** JavaScript's `\s`: WhiteSpace and LineTerminator code points */
  predicate IsJsSpace(c: char) {
    c == '\t' || c == '\n' || c == '\U{000B}' || c == '\U{000C}' || c == '\r' || c == ' '
    || c == '\U{00A0}' || c == '\U{1680}' || ('\U{2000}' <= c <= '\U{200A}')
    || c == '\U{2028}' || c == '\U{2029}' || c == '\U{202F}' || c == '\U{205F}'
    || c == '\U{3000}' || c == '\U{FEFF}'
  }

  /** Characters equal under the `i` flag of a non-unicode JavaScript regex:
      only ASCII letters fold, `pattern` is the character written in the regex. */
  predicate CharMatches(c: char, pattern: char, ignoreCase: bool) {
    c == pattern
    || (ignoreCase && IsAsciiLower(pattern) && c as int == pattern as int - 32)
    || (ignoreCase && IsAsciiUpper(pattern) && c as int == pattern as int + 32)
  }

  /** The literal `lit` is matched at offset `i` of `s`, folding case when asked */
  predicate LiteralAt(s: string, i: nat, lit: string, ignoreCase: bool) {
    i + |lit| <= |s| && forall k :: 0 <= k < |lit| ==> CharMatches(s[i + k], lit[k], ignoreCase)
  }

  lemma LiteralAtCaseSensitive(s: string, i: nat, lit: string)
    ensures LiteralAt(s, i, lit, false) <==> OccursAt(lit, s, i)
  {
    if LiteralAt(s, i, lit, false) {
      assert s[i..i + |lit|] == lit;
    }
    if OccursAt(lit, s, i) {
      forall k | 0 <= k < |lit| ensures CharMatches(s[i + k], lit[k], false) {
        assert s[i..i + |lit|][k] == lit[k];
      }
    }
  }

  /** The character classes the engine's regexes repeat with `*` or `+` */
  datatype CharClass =
    | Code      // [a-zA-Z0-9_-]
    | Lower     // [a-z]
    | LetterW   // [ww], a class that only holds the letter w
    | Space     // \s
    | NotAmp    // [^&]

  predicate InClass(c: char, k: CharClass) {
    match k
    case Code => IsCodeChar(c)
    case Lower => IsAsciiLower(c)
    case LetterW => c == 'w'
    case Space => IsJsSpace(c)
    case NotAmp => c != '&'
  }

  /** End of the longest run of class `k` starting at `i`: a greedy `k*` */
  function Span(s: string, i: nat, k: CharClass): (j: nat)
    requires i <= |s|
    decreases |s| - i
    ensures i <= j <= |s|
    ensures forall m :: i <= m < j ==> InClass(s[m], k)
    ensures j < |s| ==> !InClass(s[j], k)
  {
    if i < |s| && InClass(s[i], k) then Span(s, i + 1, k) else i
  }

  /** `[a-zA-Z0-9]{4}` at offset `i` */
  predicate Alnum4At(s: string, i: nat) {
    i + 4 <= |s| && forall m :: i <= m < i + 4 ==> IsAsciiAlnum(s[m])
  }

  /** A password as every rule of the engine captures it: four ASCII letters or digits */
  predicate IsToken(t: string) {
    |t| == 4 && forall m :: 0 <= m < 4 ==> IsAsciiAlnum(t[m])
  }

  /** A share code: one or more characters of `[a-zA-Z0-9_-]` */
  predicate IsShareCode(t: string) {
    |t| > 0 && forall m :: 0 <= m < |t| ==> IsCodeChar(t[m])
  }

  predicate NoDuplicates<T(==)>(xs: seq<T>) {
    forall i, j :: 0 <= i < j < |xs| ==> xs[i] != xs[j]
  }

  /** `String.prototype.trim`: drops leading and trailing `\s` characters */
  function Trim(s: string): (r: string)
    ensures |r| <= |s|
    ensures |r| > 0 ==> !IsJsSpace(r[0]) && !IsJsSpace(r[|r| - 1])
    ensures exists i: nat, j: nat :: i <= j <= |s| && r == s[i..j] &&
              (forall k :: 0 <= k < i ==> IsJsSpace(s[k])) && (forall k :: j <= k < |s| ==> IsJsSpace(s[k]))
  {
    var t := TrimStart(s);
    var i := |s| - |t|;
    var r := TrimEnd(t);
    assert r == s[i..i + |r|];
    forall k | i + |r| <= k < |s| ensures IsJsSpace(s[k]) {
      assert s[k] == t[k - i];
    }
    r
  }

  function TrimStart(s: string): (r: string)
    ensures |r| <= |s| && r == s[|s| - |r|..]
    ensures |r| > 0 ==> !IsJsSpace(r[0])
    ensures forall k :: 0 <= k < |s| - |r| ==> IsJsSpace(s[k])
    decreases |s|
  {
    if |s| > 0 && IsJsSpace(s[0]) then TrimStart(s[1..]) else s
  }

  function TrimEnd(s: string): (r: string)
    ensures |r| <= |s| && r == s[..|r|]
    ensures |r| > 0 ==> !IsJsSpace(r[|r| - 1])
    ensures forall k :: |r| <= k < |s| ==> IsJsSpace(s[k])
    decreases |s|
  {
    if |s| > 0 && IsJsSpace(s[|s| - 1]) then TrimEnd(s[..|s| - 1]) else s
  }

  /** The parts one after the other */
  function Concat<T(!new)>(parts: seq<seq<T>>): (r: seq<T>)
    ensures forall x :: x in r <==> exists k :: 0 <= k < |parts| && x in parts[k]
  {
    if |parts| == 0 then []
    else
      var init := parts[..|parts| - 1];
      assert forall k :: 0 <= k < |init| ==> init[k] == parts[k];
      Concat(init) + parts[|parts| - 1]
  }

  /** Concatenating a prefix of the parts gives a prefix of the whole */
  lemma {:induction false} ConcatPrefix<T(!new)>(parts: seq<seq<T>>, n: nat)
    requires n <= |parts|
    ensures |Concat(parts[..n])| <= |Concat(parts)|
    ensures Concat(parts)[..|Concat(parts[..n])|] == Concat(parts[..n])
    decreases |parts|
  {
    if n < |parts| {
      var init := parts[..|parts| - 1];
      assert init[..n] == parts[..n];
      ConcatPrefix(init, n);
      var a := Concat(init);
      assert Concat(parts) == a + parts[|parts| - 1];
      assert (a + parts[|parts| - 1])[..|a|] == a;
    } else {
      assert parts[..n] == parts;
    }
  }
}
