/**
 Password inference: the ordered, de-duplicated candidate list drawn from the
 whole text, and the choice of one candidate for a given link.
 */
module Passwords {
  import opened Base
  import opened Regex

  /* A label alternation followed by `[：:]` is written out as the label words, each once with the
     full-width and once with the ASCII colon, in the order the alternation tries them. */

  /** `(?:提取码|密码|访问码|提取密码|验证码)[：:]\s*([a-zA-Z0-9]{4})/i` */
  const ChineseLabels: Pattern :=
    Labelled(["提取码：", "提取码:", "密码：", "密码:", "访问码：", "访问码:",
              "提取密码：", "提取密码:", "验证码：", "验证码:"], true)
  /** `(?:pw|pwd|pass|password)[：:]\s*([a-zA-Z0-9]{4})/i` */
  const PwLabels: Pattern :=
    Labelled(["pw：", "pw:", "pwd：", "pwd:", "pass：", "pass:", "password：", "password:"], true)
  /** `(?:code|验证|校验码)[：:]\s*([a-zA-Z0-9]{4})/i` */
  const CodeLabels: Pattern :=
    Labelled(["code：", "code:", "验证：", "验证:", "校验码：", "校验码:"], true)

  /** PASSWORD_PATTERNS, most specific first; the bare token is the last resort */
  const PasswordPatterns: seq<Pattern> := [ChineseLabels, PwLabels, CodeLabels, BareToken]

  /** `new RegExp(p, 'g')`: the copy keeps the source and takes only the flags given, so
      the `i` flag is lost and label words match in the case they are written */
  function GlobalCopy(p: Pattern): Pattern {
    match p
    case Labelled(labels, _) => Labelled(labels, false)
    case _ => p
  }

  /** What the global scan with pattern `p` contributes: its captures, in text order */
  function ScanOf(p: Pattern, text: string): (r: seq<string>)
    requires IsPasswordPattern(p)
    ensures forall x :: x in r ==> IsToken(x)
  {
    CapturesAreTokens(GlobalCopy(p), text);
    Group1s(AllMatches(GlobalCopy(p), text))
  }

  lemma CapturesAreTokens(p: Pattern, text: string)
    requires IsPasswordPattern(p)
    ensures forall x :: x in Group1s(AllMatches(p, text)) ==> IsToken(x)
  {
    var occs := AllMatches(p, text);
    var r := Group1s(occs);
    forall x | x in r ensures IsToken(x) {
      var n :| 0 <= n < |r| && r[n] == x;
      PasswordMatchShape(p, text, occs[n].index, occs[n].hit);
    }
  }

  predicate AllPasswordPatterns(pats: seq<Pattern>) {
    forall k :: 0 <= k < |pats| ==> IsPasswordPattern(pats[k])
  }

  /** The contribution of each pattern of PASSWORD_PATTERNS, in pattern order */
  function Parts(text: string): (r: seq<seq<string>>)
    ensures |r| == |PasswordPatterns|
    ensures forall k :: 0 <= k < |r| ==> r[k] == ScanOf(PasswordPatterns[k], text)
    ensures forall k, x :: 0 <= k < |r| && x in r[k] ==> IsToken(x)
  {
    seq(|PasswordPatterns|, k requires 0 <= k < |PasswordPatterns| => ScanOf(PasswordPatterns[k], text))
  }

  /** Offset of the first occurrence of `x` in `xs` */
  function FirstIndex<T(==)>(xs: seq<T>, x: T): (k: nat)
    requires x in xs
    ensures k < |xs| && xs[k] == x
    ensures forall j :: 0 <= j < k ==> xs[j] != x
  {
    if xs[0] == x then 0 else 1 + FirstIndex(xs[1..], x)
  }

  lemma FirstIndexPrefix<T>(xs: seq<T>, n: nat, x: T)
    requires n <= |xs| && x in xs[..n]
    ensures FirstIndex(xs, x) == FirstIndex(xs[..n], x)
  {
    var a := FirstIndex(xs, x);
    var b := FirstIndex(xs[..n], x);
    assert xs[b] == x by { assert xs[..n][b] == xs[b]; }
    assert a <= b;
    assert xs[..n][a] == x;
  }

  /** The JavaScript loop `if (!out.includes(x)) out.push(x)` over `xs`: each element
      once, at the place of its first occurrence */
  function Dedup<T(==,!new)>(xs: seq<T>): (r: seq<T>)
    ensures NoDuplicates(r)
    ensures forall x :: x in r <==> x in xs
    ensures forall i, j :: 0 <= i < j < |r| ==> FirstIndex(xs, r[i]) < FirstIndex(xs, r[j])
  {
    if |xs| == 0 then []
    else
      var init := xs[..|xs| - 1];
      var last := xs[|xs| - 1];
      var r0 := Dedup(init);
      assert xs == init + [last];
      forall y | y in init ensures FirstIndex(xs, y) == FirstIndex(init, y) {
        FirstIndexPrefix(xs, |xs| - 1, y);
      }
      if last in r0 then r0
      else
        assert FirstIndex(xs, last) == |xs| - 1;
        r0 + [last]
  }

  /** Elements first met in `a` come before elements not in `a` */
  lemma DedupKeepsBlocks<T(!new)>(a: seq<T>, b: seq<T>, i: nat, j: nat)
    requires i < |Dedup(a + b)| && j < |Dedup(a + b)|
    requires Dedup(a + b)[i] in a && Dedup(a + b)[j] !in a
    ensures i < j
  {
    var xs := a + b;
    var r := Dedup(xs);
    assert xs[..|a|] == a;
    FirstIndexPrefix(xs, |a|, r[i]);
  }

  /** extractPossiblePasswords */
  function ExtractPossiblePasswords(text: string): (r: seq<string>)
    ensures text == "" ==> r == []
    ensures NoDuplicates(r)
    ensures forall x :: x in r ==> IsToken(x)
    ensures text != "" ==> forall x :: x in r <==> exists k :: 0 <= k < |PasswordPatterns| && x in Parts(text)[k]
  {
    if text == "" then [] else Dedup(Concat(Parts(text)))
  }

  /** Priority: a candidate some label pattern contributes precedes every candidate that only
      later patterns (ultimately the bare-token fallback) contribute */
  lemma CandidatePriority(text: string, n: nat, i: nat, j: nat)
    requires n <= |PasswordPatterns|
    requires i < |ExtractPossiblePasswords(text)| && j < |ExtractPossiblePasswords(text)|
    requires ExtractPossiblePasswords(text)[i] in Concat(Parts(text)[..n])
    requires ExtractPossiblePasswords(text)[j] !in Concat(Parts(text)[..n])
    ensures i < j
  {
    DedupConcatBlocks(Parts(text), n, i, j);
  }

  /** In the de-duplicated concatenation, what the first `n` parts hold comes first */
  lemma DedupConcatBlocks<T(!new)>(parts: seq<seq<T>>, n: nat, i: nat, j: nat)
    requires n <= |parts|
    requires i < |Dedup(Concat(parts))| && j < |Dedup(Concat(parts))|
    requires Dedup(Concat(parts))[i] in Concat(parts[..n])
    requires Dedup(Concat(parts))[j] !in Concat(parts[..n])
    ensures i < j
  {
    var all := Concat(parts);
    var head := Concat(parts[..n]);
    ConcatPrefix(parts, n);
    var rest := all[|head|..];
    assert all == head + rest;
    DedupKeepsBlocks(head, rest, i, j);
  }

  /** `Math.max(0, idx - 100)` .. `Math.min(text.length, idx + len + 100)`: the text
      around an occurrence of length `len` at `idx` */
  function Window(text: string, idx: nat, len: nat): (w: string)
    requires idx + len <= |text|
    ensures |w| <= len + 200
    ensures var off := if idx >= 100 then 100 else idx;
              off + len <= |w| && w[off..off + len] == text[idx..idx + len]
  {
    var start := if idx >= 100 then idx - 100 else 0;
    var end := if idx + len + 100 <= |text| then idx + len + 100 else |text|;
    var w := text[start..end];
    SliceOfSlice(text, start, end, idx - start, idx - start + len);
    w
  }

  /** An occurrence inside the window is an occurrence in the text, at most 100 characters
      before the link and ending at most 100 characters after it */
  lemma WindowOccurs(text: string, idx: nat, len: nat, t: string, i: nat)
    requires idx + len <= |text| && OccursAt(t, Window(text, idx, len), i)
    ensures var start := if idx >= 100 then idx - 100 else 0;
              OccursAt(t, text, start + i) && start + i + |t| <= idx + len + 100
  {
    var start := if idx >= 100 then idx - 100 else 0;
    var end := if idx + len + 100 <= |text| then idx + len + 100 else |text|;
    SliceOfSlice(text, start, end, i, i + |t|);
  }

  /** The capture of the first pattern in `pats` that matches somewhere in `w` */
  function FirstRuleHit(pats: seq<Pattern>, w: string): (r: Option<string>)
    decreases |pats|
    ensures r.None? <==> forall k :: 0 <= k < |pats| ==> FirstMatch(pats[k], w).None?
    ensures r.Some? ==> exists k :: 0 <= k < |pats| && PriorityHitAt(pats, w, k, r.value)
    ensures r.Some? && AllPasswordPatterns(pats) ==> IsToken(r.value)
  {
    if |pats| == 0 then None
    else
      match FirstMatch(pats[0], w)
      case Some(o) =>
        assert PriorityHitAt(pats, w, 0, o.hit.group1);
        assert AllPasswordPatterns(pats) ==> IsToken(o.hit.group1) by {
          if AllPasswordPatterns(pats) {
            PasswordMatchShape(pats[0], w, o.index, o.hit);
          }
        }
        Some(o.hit.group1)
      case None =>
        var r := FirstRuleHit(pats[1..], w);
        assert r.Some? ==> exists k :: 0 <= k < |pats| && PriorityHitAt(pats, w, k, r.value) by {
          if r.Some? {
            var k :| 0 <= k < |pats| - 1 && PriorityHitAt(pats[1..], w, k, r.value);
            assert PriorityHitAt(pats, w, k + 1, r.value);
          }
        }
        r
  }

  /** `t` is what pattern `k` of `pats` captures first in `w`, and no earlier pattern matches in `w` */
  ghost predicate PriorityHitAt(pats: seq<Pattern>, w: string, k: nat, t: string) {
    && k < |pats|
    && FirstMatch(pats[k], w).Some? && FirstMatch(pats[k], w).value.hit.group1 == t
    && forall k' :: 0 <= k' < k ==> FirstMatch(pats[k'], w).None?
  }

  /** The candidates a call works with: the list given, or the text's own */
  function Pool(text: string, given: Option<seq<string>>): seq<string> {
    given.GetOr(ExtractPossiblePasswords(text))
  }

  /** findPasswordForLink's choice among the candidates `pool`, trying the rules `pats` in
      order on the text around the link */
  function Choose(pats: seq<Pattern>, url: string, text: string, pool: seq<string>): (r: Option<string>)
    ensures r.None? <==> url == "" || text == "" || |pool| == 0
    ensures url != "" && text != "" && |pool| == 1 ==> r == Some(pool[0])
    ensures url != "" && text != "" && |pool| >= 2 && !Contains(text, url) ==> r == Some(pool[0])
    ensures url != "" && text != "" && |pool| >= 2 && Contains(text, url) ==>
              var w := Window(text, IndexOf(text, url).value, |url|);
              && ((exists k :: 0 <= k < |pats| && FirstMatch(pats[k], w).Some?) ==>
                    exists k :: 0 <= k < |pats| && PriorityHitAt(pats, w, k, r.value))
              && ((forall k :: 0 <= k < |pats| ==> FirstMatch(pats[k], w).None?) ==> r == Some(pool[0]))
    ensures r.Some? && AllPasswordPatterns(pats) && (forall x :: x in pool ==> IsToken(x)) ==> IsToken(r.value)
  {
    if url == "" || text == "" || |pool| == 0 then None
    else if |pool| == 1 then Some(pool[0])
    else
      match IndexOf(text, url)
      case None => Some(pool[0])
      case Some(idx) =>
        assert pool[0] in pool;
        Some(FirstRuleHit(pats, Window(text, idx, |url|)).GetOr(pool[0]))
  }

  /** findPasswordForLink: with the text's own candidates, the choice is always a token */
  function FindPasswordForLink(url: string, text: string, given: Option<seq<string>>): (r: Option<string>)
    ensures r.Some? && given.None? ==> IsToken(r.value)
    ensures r.None? <==> url == "" || text == "" || |Pool(text, given)| == 0
  {
    var pats := PasswordPatterns;
    assert AllPasswordPatterns(pats) by {
      forall k | 0 <= k < 4 ensures IsPasswordPattern(pats[k]) {
        assert pats[k].Labelled? || pats[k].BareToken?;
      }
    }
    Choose(pats, url, text, Pool(text, given))
  }
}
