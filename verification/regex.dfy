/**
 The regular expressions of the engine, each as a hand-written recogniser at a
 fixed start offset, and the two ways the source runs them: the first
 (leftmost) match of `s.match(re)` / `re.test(s)`, and the sequence of
 non-overlapping matches of a global `re.exec` loop.

 Every pattern here is deterministic at a fixed start: each greedy run stops at
 a character that cannot begin what follows it, and each optional group is
 followed by nothing, so backtracking never yields a second, different match.
 */
module Regex {
  import opened Base

  datatype Pattern =
    | BaiduStandard   // pan.baidu.com/s/<code>
    | BaiduInit       // pan.baidu.com/share/init?surl=<code>[&pwd=<4>]
    | Aliyun          // www.aliyundrive.com|www.alipan.com /s/<code>[[?&]pwd=<4>]
    | Weiyun          // share.weiyun.com/<code>
    | Wangpan115      // 115.com/s/<code>
    | Lanzou          // [ww]*.lanzou[a-z]*.com/<code>
    | Quark           // pan.quark.cn/s/<code>
    | Pan123          // www.123pan.com|www.123684.com /s/<code>[[?&](pwd|extraction-code)=<4>]
    | ShareStd        // the normaliser's pan.baidu.com/s/<code>, no scheme
    | ShareInit       // the normaliser's pan.baidu.com/share/init?surl=<code>, no scheme
    | PwdParam        // the normaliser's [?&]pwd=([^&]+)
    | Labelled(labels: seq<string>, ignoreCase: bool)  // (?:label1|label2|...)\s*([a-zA-Z0-9]{4})
    | BareToken       // \b([a-zA-Z0-9]{4})\b

  /** One match: where it ends, capture group 1 and the optional capture group 2 */
  datatype Hit = Hit(end: nat, group1: string, group2: Option<string>)

  /** One match of a global scan: `match.index` and the match itself */
  datatype Occ = Occ(index: nat, hit: Hit)

  /** The share-link patterns of the detector's table */
  predicate IsLinkPattern(p: Pattern) {
    p.BaiduStandard? || p.BaiduInit? || p.Aliyun? || p.Weiyun? || p.Wangpan115?
    || p.Lanzou? || p.Quark? || p.Pan123?
  }

  predicate IsPasswordPattern(p: Pattern) {
    p.Labelled? || p.BareToken?
  }

  /** `https?:\/\/` at `i`: the offset just after the scheme */
  function SchemeEnd(s: string, i: nat): (r: Option<nat>)
    ensures r.Some? ==> i + 7 <= r.value <= |s| && OccursAt("http", s, i)
  {
    if OccursAt("https://", s, i) then
      OccursInfix("https://", s, i, 0, 4);
      Some(i + 8)
    else if OccursAt("http://", s, i) then
      OccursInfix("http://", s, i, 0, 4);
      Some(i + 7)
    else None
  }

  /** A host alternation (each alternative written with the path that follows it) at `e` */
  function HostEnd(s: string, e: nat, hosts: seq<string>): (r: Option<nat>)
    decreases |hosts|
    ensures r.Some? ==> e <= r.value <= |s|
    ensures r.Some? ==> exists h :: h in hosts && OccursAt(h, s, e) && r.value == e + |h|
  {
    if |hosts| == 0 then None
    else if OccursAt(hosts[0], s, e) then Some(e + |hosts[0]|)
    else HostEnd(s, e, hosts[1..])
  }

  /** An optional `(?:<prefix>([a-zA-Z0-9]{4}))?` group at `j`; the prefixes are the
      alternatives of the group's literal part, in the order the regex tries them */
  function OptionalPwd(s: string, j: nat, prefixes: seq<string>): (r: Option<(nat, string)>)
    decreases |prefixes|
    ensures r.Some? ==> j < r.value.0 <= |s| && 4 <= r.value.0 && IsToken(r.value.1)
                        && r.value.1 == s[r.value.0 - 4..r.value.0]
  {
    if |prefixes| == 0 then None
    else if OccursAt(prefixes[0], s, j) && Alnum4At(s, j + |prefixes[0]|) then
      var k := j + |prefixes[0]|;
      Some((k + 4, s[k..k + 4]))
    else OptionalPwd(s, j, prefixes[1..])
  }

  /** The optional group matches through one of its prefixes, and fails only when none fits */
  lemma {:induction false} OptionalPwdPrefix(s: string, j: nat, prefixes: seq<string>)
    decreases |prefixes|
    ensures var r := OptionalPwd(s, j, prefixes);
      && (r.Some? ==> exists pre :: pre in prefixes && OccursAt(pre, s, j) && r.value.0 == j + |pre| + 4)
      && (r.None? ==> forall pre :: pre in prefixes ==> !(OccursAt(pre, s, j) && Alnum4At(s, j + |pre|)))
  {
    if |prefixes| > 0 {
      OptionalPwdPrefix(s, j, prefixes[1..]);
      assert forall pre :: pre in prefixes ==> pre == prefixes[0] || pre in prefixes[1..];
    }
  }

  /** The common shape `<scheme><host>([a-zA-Z0-9_-]+)<optional password group>` */
  function ShareUrlAt(s: string, i: nat, hosts: seq<string>, pwdPrefixes: seq<string>): (r: Option<Hit>)
    ensures r.Some? ==> i < r.value.end <= |s| && OccursAt("http", s, i)
    ensures r.Some? ==> IsShareCode(r.value.group1)
    ensures r.Some? && r.value.group2.Some? ==> IsToken(r.value.group2.value)
    ensures r.Some? ==> exists h :: h in hosts && IsSubstring(h, s)
  {
    match SchemeEnd(s, i)
    case None => None
    case Some(e) =>
      match HostEnd(s, e, hosts)
      case None => None
      case Some(c) => CodeAndPwd(s, c, pwdPrefixes)
  }

  /** `([a-zA-Z0-9_-]+)` at `c` followed by the optional password group */
  function CodeAndPwd(s: string, c: nat, pwdPrefixes: seq<string>): Option<Hit>
    requires c <= |s|
  {
    var j := Span(s, c, Code);
    if j == c then None
    else
      match OptionalPwd(s, j, pwdPrefixes)
      case Some((end, pw)) => Some(Hit(end, s[c..j], Some(pw)))
      case None => Some(Hit(j, s[c..j], None))
  }

  /** Group 2 is there exactly when one of its prefixes and four letters or digits follow
      the share code */
  lemma CodeAndPwdPassword(s: string, c: nat, pwdPrefixes: seq<string>)
    requires c <= |s| && CodeAndPwd(s, c, pwdPrefixes).Some?
    ensures var h := CodeAndPwd(s, c, pwdPrefixes).value;
      && (h.group2.Some? ==>
            exists pre :: pre in pwdPrefixes && |pre| + 4 <= h.end && OccursAt(pre, s, h.end - 4 - |pre|)
                          && h.group2.value == s[h.end - 4..h.end])
      && (h.group2.None? ==>
            forall pre :: pre in pwdPrefixes ==> !(OccursAt(pre, s, h.end) && Alnum4At(s, h.end + |pre|)))
  {
    var j := Span(s, c, Code);
    OptionalPwdPrefix(s, j, pwdPrefixes);
    match OptionalPwd(s, j, pwdPrefixes)
    case Some((end, pw)) =>
      var pre :| pre in pwdPrefixes && OccursAt(pre, s, j) && end == j + |pre| + 4;
      assert end - 4 - |pre| == j;
    case None =>
  }

  /** `https?:\/\/[ww]*\.lanzou[a-z]*\.com\/([a-zA-Z0-9_-]+)`: the class `[ww]` holds
      only the letter w, so the host part is zero or more w's and nothing else */
  function LanzouAt(s: string, i: nat): (r: Option<Hit>)
    ensures r.Some? ==> i < r.value.end <= |s| && OccursAt("http", s, i)
    ensures r.Some? ==> IsShareCode(r.value.group1) && r.value.group2.None?
  {
    match SchemeEnd(s, i)
    case None => None
    case Some(e) =>
      var w := Span(s, e, LetterW);
      if !OccursAt(".lanzou", s, w) then None
      else
        var l := Span(s, w + 7, Lower);
        if !OccursAt(".com/", s, l) then None
        else
          var c := l + 5;
          var j := Span(s, c, Code);
          if j == c then None else Some(Hit(j, s[c..j], None))
  }

  /** A literal followed by `([a-zA-Z0-9_-]+)`, without a scheme (the normaliser's patterns) */
  function CodeAfterLiteral(s: string, i: nat, lit: string): (r: Option<Hit>)
    requires |lit| > 0
    ensures r.Some? ==> i + |lit| < r.value.end <= |s| && OccursAt(lit, s, i)
                        && r.value.group1 == s[i + |lit|..r.value.end]
    ensures r.Some? ==> IsShareCode(r.value.group1) && r.value.group2.None?
  {
    if !OccursAt(lit, s, i) then None
    else
      var c := i + |lit|;
      var j := Span(s, c, Code);
      if j == c then None else Some(Hit(j, s[c..j], None))
  }

  /** `[?&]pwd=([^&]+)` */
  function PwdParamAt(s: string, i: nat): (r: Option<Hit>)
    ensures r.Some? ==> i < r.value.end <= |s| && r.value.group2.None?
    ensures r.Some? ==> |r.value.group1| > 0 && '&' !in r.value.group1
    ensures r.Some? ==> r.value.end == |s| || s[r.value.end] == '&'
  {
    if i + 5 <= |s| && (s[i] == '?' || s[i] == '&') && s[i + 1..i + 5] == "pwd=" then
      var j := Span(s, i + 5, NotAmp);
      if j == i + 5 then None
      else
        Some(Hit(j, s[i + 5..j], None))
    else None
  }

  /** `(?:l1|l2|...)\s*([a-zA-Z0-9]{4})`, the labels tried in order, each label
      written with the separator that must follow it */
  function LabelAt(labels: seq<string>, ignoreCase: bool, s: string, i: nat): (r: Option<Hit>)
    decreases |labels|
    ensures r.Some? ==> i < r.value.end <= |s| && r.value.group2.None?
    ensures r.Some? ==> 4 <= r.value.end <= |s| && IsToken(r.value.group1)
                        && r.value.group1 == s[r.value.end - 4..r.value.end]
  {
    if |labels| == 0 then None
    else if LiteralAt(s, i, labels[0], ignoreCase) then
      var k := Span(s, i + |labels[0]|, Space);
      if Alnum4At(s, k) then Some(Hit(k + 4, s[k..k + 4], None))
      else LabelAt(labels[1..], ignoreCase, s, i)
    else LabelAt(labels[1..], ignoreCase, s, i)
  }

  /** Whether offset `p` of `s` is a `\b` word boundary */
  predicate Boundary(s: string, p: nat) {
    (0 < p <= |s| && IsWordChar(s[p - 1])) != (p < |s| && IsWordChar(s[p]))
  }

  /** `\b([a-zA-Z0-9]{4})\b` */
  function BareTokenAt(s: string, i: nat): (r: Option<Hit>)
    ensures r.Some? ==> i + 4 <= |s| && r.value == Hit(i + 4, s[i..i + 4], None)
    ensures r.Some? ==> IsToken(r.value.group1)
  {
    if Boundary(s, i) && Alnum4At(s, i) && Boundary(s, i + 4) then Some(Hit(i + 4, s[i..i + 4], None))
    else None
  }

  /** The match of pattern `p` that starts exactly at offset `i`, if there is one */
  function MatchAt(p: Pattern, s: string, i: nat): (r: Option<Hit>)
    ensures r.Some? ==> i < r.value.end <= |s|
  {
    match p
    case BaiduStandard => ShareUrlAt(s, i, ["pan.baidu.com/s/"], [])
    case BaiduInit => ShareUrlAt(s, i, ["pan.baidu.com/share/init?surl="], ["&pwd="])
    case Aliyun => ShareUrlAt(s, i, ["www.aliyundrive.com/s/", "www.alipan.com/s/"], ["?pwd=", "&pwd="])
    case Weiyun => ShareUrlAt(s, i, ["share.weiyun.com/"], [])
    case Wangpan115 => ShareUrlAt(s, i, ["115.com/s/"], [])
    case Lanzou => LanzouAt(s, i)
    case Quark => ShareUrlAt(s, i, ["pan.quark.cn/s/"], [])
    case Pan123 =>
      ShareUrlAt(s, i, ["www.123pan.com/s/", "www.123684.com/s/"],
                 ["?pwd=", "?extraction-code=", "&pwd=", "&extraction-code="])
    case ShareStd => CodeAfterLiteral(s, i, "pan.baidu.com/s/")
    case ShareInit => CodeAfterLiteral(s, i, "pan.baidu.com/share/init?surl=")
    case PwdParam => PwdParamAt(s, i)
    case Labelled(labels, ignoreCase) => LabelAt(labels, ignoreCase, s, i)
    case BareToken => BareTokenAt(s, i)
  }

  /** What a share-link pattern captures: a match starts with `http`, group 1 is a
      share code and group 2, when present, a four-character password */
  lemma LinkMatchShape(p: Pattern, s: string, i: nat, h: Hit)
    requires IsLinkPattern(p) && M(p)(s, i) == Some(h)
    ensures i < h.end <= |s| && OccursAt("http", s, i)
    ensures IsShareCode(h.group1)
    ensures h.group2.Some? ==> IsToken(h.group2.value) && (p.BaiduInit? || p.Aliyun? || p.Pan123?)
  {
    assert M(p)(s, i) == MatchAt(p, s, i);
    match p
    case BaiduStandard =>
    case BaiduInit =>
    case Aliyun =>
    case Weiyun =>
    case Wangpan115 =>
    case Lanzou =>
    case Quark =>
    case Pan123 =>
  }

  /** Group 2 of a share URL is there exactly when one of its prefixes and four letters or
      digits follow the share code */
  lemma ShareUrlPassword(s: string, i: nat, hosts: seq<string>, pwdPrefixes: seq<string>)
    requires ShareUrlAt(s, i, hosts, pwdPrefixes).Some?
    ensures var h := ShareUrlAt(s, i, hosts, pwdPrefixes).value;
      && (h.group2.Some? ==>
            exists pre :: pre in pwdPrefixes && |pre| + 4 <= h.end && OccursAt(pre, s, h.end - 4 - |pre|)
                          && h.group2.value == s[h.end - 4..h.end])
      && (h.group2.None? ==>
            forall pre :: pre in pwdPrefixes ==> !(OccursAt(pre, s, h.end) && Alnum4At(s, h.end + |pre|)))
  {
    var e := SchemeEnd(s, i).value;
    var c := HostEnd(s, e, hosts).value;
    CodeAndPwdPassword(s, c, pwdPrefixes);
  }

  /** The init form's password group: present exactly when `&pwd=` and four letters or digits
      follow the share code */
  lemma InitPasswordGroup(s: string, i: nat, h: Hit)
    requires MatchAt(BaiduInit, s, i) == Some(h)
    ensures h.group2.Some? ==> 9 <= h.end && OccursAt("&pwd=", s, h.end - 9) && h.group2.value == s[h.end - 4..h.end]
    ensures h.group2.None? ==> !(OccursAt("&pwd=", s, h.end) && Alnum4At(s, h.end + 5))
  {
    InitPasswordPresent(s, i);
    InitPasswordAbsent(s, i);
  }

  lemma InitPasswordPresent(s: string, i: nat)
    requires ShareUrlAt(s, i, ["pan.baidu.com/share/init?surl="], ["&pwd="]).Some?
    ensures var h := ShareUrlAt(s, i, ["pan.baidu.com/share/init?surl="], ["&pwd="]).value;
      h.group2.Some? ==> 9 <= h.end && OccursAt("&pwd=", s, h.end - 9) && h.group2.value == s[h.end - 4..h.end]
  {
    ShareUrlPassword(s, i, ["pan.baidu.com/share/init?surl="], ["&pwd="]);
    var h := ShareUrlAt(s, i, ["pan.baidu.com/share/init?surl="], ["&pwd="]).value;
    if h.group2.Some? {
      var pre :| pre in ["&pwd="] && |pre| + 4 <= h.end && OccursAt(pre, s, h.end - 4 - |pre|)
                 && h.group2.value == s[h.end - 4..h.end];
    }
  }

  lemma InitPasswordAbsent(s: string, i: nat)
    requires ShareUrlAt(s, i, ["pan.baidu.com/share/init?surl="], ["&pwd="]).Some?
    ensures var h := ShareUrlAt(s, i, ["pan.baidu.com/share/init?surl="], ["&pwd="]).value;
      h.group2.None? ==> !(OccursAt("&pwd=", s, h.end) && Alnum4At(s, h.end + 5))
  {
    ShareUrlPassword(s, i, ["pan.baidu.com/share/init?surl="], ["&pwd="]);
  }

  /** A match of a pattern whose host is named in the text holds that host name */
  lemma LinkMatchHost(p: Pattern, s: string, i: nat)
    requires (p.BaiduStandard? || p.BaiduInit? || p.Aliyun? || p.Pan123?) && MatchAt(p, s, i).Some?
    ensures p.BaiduStandard? || p.BaiduInit? ==> Contains(s, "pan.baidu.com")
    ensures p.Aliyun? ==> Contains(s, "alipan.com") || Contains(s, "aliyundrive.com")
    ensures p.Pan123? ==> Contains(s, "123pan.com") || Contains(s, "123684.com")
  {
    LinkMatchHostText(p, s, i);
    HostNames(s);
  }

  lemma LinkMatchHostText(p: Pattern, s: string, i: nat)
    requires (p.BaiduStandard? || p.BaiduInit? || p.Aliyun? || p.Pan123?) && MatchAt(p, s, i).Some?
    ensures p.BaiduStandard? ==> IsSubstring("pan.baidu.com/s/", s)
    ensures p.BaiduInit? ==> IsSubstring("pan.baidu.com/share/init?surl=", s)
    ensures p.Aliyun? ==> IsSubstring("www.aliyundrive.com/s/", s) || IsSubstring("www.alipan.com/s/", s)
    ensures p.Pan123? ==> IsSubstring("www.123pan.com/s/", s) || IsSubstring("www.123684.com/s/", s)
  {
    match p
    case BaiduStandard =>
      var h :| h in ["pan.baidu.com/s/"] && IsSubstring(h, s);
    case BaiduInit =>
      var h :| h in ["pan.baidu.com/share/init?surl="] && IsSubstring(h, s);
    case Aliyun =>
      var h :| h in ["www.aliyundrive.com/s/", "www.alipan.com/s/"] && IsSubstring(h, s);
    case Pan123 =>
      var h :| h in ["www.123pan.com/s/", "www.123684.com/s/"] && IsSubstring(h, s);
  }

  /** Each share-link prefix holds the bare host name */
  lemma HostNames(s: string)
    ensures IsSubstring("pan.baidu.com/s/", s) ==> Contains(s, "pan.baidu.com")
    ensures IsSubstring("pan.baidu.com/share/init?surl=", s) ==> Contains(s, "pan.baidu.com")
    ensures IsSubstring("www.aliyundrive.com/s/", s) ==> Contains(s, "aliyundrive.com")
    ensures IsSubstring("www.alipan.com/s/", s) ==> Contains(s, "alipan.com")
    ensures IsSubstring("www.123pan.com/s/", s) ==> Contains(s, "123pan.com")
    ensures IsSubstring("www.123684.com/s/", s) ==> Contains(s, "123684.com")
  {
    assert "pan.baidu.com/s/" == "" + "pan.baidu.com" + "/s/";
    assert "pan.baidu.com/share/init?surl=" == "" + "pan.baidu.com" + "/share/init?surl=";
    assert "www.aliyundrive.com/s/" == "www." + "aliyundrive.com" + "/s/";
    assert "www.alipan.com/s/" == "www." + "alipan.com" + "/s/";
    assert "www.123pan.com/s/" == "www." + "123pan.com" + "/s/";
    assert "www.123684.com/s/" == "www." + "123684.com" + "/s/";
    if IsSubstring("pan.baidu.com/s/", s) { ContainsPart(s, "", "pan.baidu.com", "/s/"); }
    if IsSubstring("pan.baidu.com/share/init?surl=", s) { ContainsPart(s, "", "pan.baidu.com", "/share/init?surl="); }
    if IsSubstring("www.aliyundrive.com/s/", s) { ContainsPart(s, "www.", "aliyundrive.com", "/s/"); }
    if IsSubstring("www.alipan.com/s/", s) { ContainsPart(s, "www.", "alipan.com", "/s/"); }
    if IsSubstring("www.123pan.com/s/", s) { ContainsPart(s, "www.", "123pan.com", "/s/"); }
    if IsSubstring("www.123684.com/s/", s) { ContainsPart(s, "www.", "123684.com", "/s/"); }
  }

  /** What a password pattern captures: the four ASCII letters or digits that end the match */
  lemma PasswordMatchShape(p: Pattern, s: string, i: nat, h: Hit)
    requires IsPasswordPattern(p) && M(p)(s, i) == Some(h)
    ensures i < h.end <= |s| && 4 <= h.end && h.group1 == s[h.end - 4..h.end]
    ensures IsToken(h.group1) && h.group2.None?
  {
    assert M(p)(s, i) == MatchAt(p, s, i);
    match p
    case Labelled(labels, ignoreCase) =>
    case BareToken =>
  }

  /** A recogniser: the match starting exactly at an offset, if any */
  type Matcher = (string, nat) -> Option<Hit>

  /** The recogniser of pattern `p` */
  function M(p: Pattern): Matcher {
    (s: string, i: nat) => MatchAt(p, s, i)
  }

  /** No match is empty and none runs past the end of `s` */
  ghost predicate Proper(m: Matcher, s: string) {
    forall i: nat :: m(s, i).Some? ==> i < m(s, i).value.end <= |s|
  }

  lemma ProperM(p: Pattern, s: string)
    ensures Proper(M(p), s)
  {
    forall i: nat | M(p)(s, i).Some? ensures i < M(p)(s, i).value.end <= |s| {
      assert M(p)(s, i) == MatchAt(p, s, i);
    }
  }

  /** `s.match(re)` searching from `from`: the leftmost start at or after `from` where `m` matches */
  function FirstFrom(m: Matcher, s: string, from: nat): (r: Option<Occ>)
    decreases |s| - from
    ensures r.Some? ==> from <= r.value.index < |s| && m(s, r.value.index) == Some(r.value.hit)
    ensures r.Some? ==> forall j :: from <= j < r.value.index ==> m(s, j).None?
    ensures r.None? ==> forall j :: from <= j < |s| ==> m(s, j).None?
  {
    if from >= |s| then None
    else
      match m(s, from)
      case Some(h) => Some(Occ(from, h))
      case None => FirstFrom(m, s, from + 1)
  }

  /** `s.match(p)` / `p.test(s)` for a non-global `p` */
  function FirstMatch(p: Pattern, s: string): (r: Option<Occ>)
    ensures r.Some? ==> r.value.index < r.value.hit.end <= |s|
  {
    var r := FirstFrom(M(p), s, 0);
    assert r.Some? ==> M(p)(s, r.value.index) == MatchAt(p, s, r.value.index);
    r
  }

  /** The first pattern of `pats` that matches anywhere in `s`, with its leftmost match */
  function FirstPattern(pats: seq<Pattern>, s: string): (r: Option<(nat, Occ)>)
    decreases |pats|
    ensures r.None? <==> forall k :: 0 <= k < |pats| ==> FirstMatch(pats[k], s).None?
    ensures r.Some? ==> r.value.0 < |pats| && FirstMatch(pats[r.value.0], s) == Some(r.value.1)
    ensures r.Some? ==> forall k :: 0 <= k < r.value.0 ==> FirstMatch(pats[k], s).None?
  {
    if |pats| == 0 then None
    else
      match FirstMatch(pats[0], s)
      case Some(o) => Some((0, o))
      case None =>
        match FirstPattern(pats[1..], s)
        case None => None
        case Some((k, o)) => Some((k + 1, o))
  }

  /** The leftmost match is the one at `k` when nothing matches before `k` */
  lemma FirstFromAt(m: Matcher, s: string, k: nat, h: Hit)
    requires k < |s| && m(s, k) == Some(h)
    requires forall j :: 0 <= j < k ==> m(s, j).None?
    ensures FirstFrom(m, s, 0) == Some(Occ(k, h))
  {
  }

  /** Without a match anywhere, the search fails */
  lemma FirstFromNone(m: Matcher, s: string)
    requires forall j :: 0 <= j < |s| ==> m(s, j).None?
    ensures FirstFrom(m, s, 0).None?
  {
  }

  /** Offset `j` lies inside one of the matches `r` */
  ghost predicate Covers(r: seq<Occ>, j: nat) {
    exists k :: 0 <= k < |r| && r[k].index <= j < r[k].hit.end
  }

  lemma CoversCons(o: Occ, rest: seq<Occ>, j: nat)
    requires o.index <= j < o.hit.end || Covers(rest, j)
    ensures Covers([o] + rest, j)
  {
    var r := [o] + rest;
    if o.index <= j < o.hit.end {
      assert r[0] == o;
    } else {
      var k :| 0 <= k < |rest| && rest[k].index <= j < rest[k].hit.end;
      assert r[k + 1] == rest[k];
    }
  }

  /** The matches a global `re.exec(s)` loop yields once `lastIndex` is `from`: after each
      match the search resumes at its end */
  function AllFrom(m: Matcher, s: string, from: nat): (r: seq<Occ>)
    requires Proper(m, s)
    decreases |s| - from
    ensures forall k :: 0 <= k < |r| ==> from <= r[k].index && m(s, r[k].index) == Some(r[k].hit)
    ensures forall k, l :: 0 <= k < l < |r| ==> r[k].hit.end <= r[l].index
    ensures forall j :: from <= j < |s| && m(s, j).Some? ==> Covers(r, j)
  {
    match FirstFrom(m, s, from)
    case None => []
    case Some(o) =>
      var rest := AllFrom(m, s, o.hit.end);
      var r := [o] + rest;
      assert forall k :: 0 < k < |r| ==> r[k] == rest[k - 1];
      assert forall j :: from <= j < |s| && m(s, j).Some? ==> Covers(r, j) by {
        forall j | from <= j < |s| && m(s, j).Some? ensures Covers(r, j) {
          CoversCons(o, rest, j);
        }
      }
      r
  }

  /** Every match of a global scan of `p` over `s` */
  function AllMatches(p: Pattern, s: string): seq<Occ> {
    ProperM(p, s);
    AllFrom(M(p), s, 0)
  }

  /** Capture group 1 of each match, in scan order */
  function Group1s(occs: seq<Occ>): (r: seq<string>)
    ensures |r| == |occs|
    ensures forall k :: 0 <= k < |r| ==> r[k] == occs[k].hit.group1
  {
    if |occs| == 0 then [] else [occs[0].hit.group1] + Group1s(occs[1..])
  }
}
