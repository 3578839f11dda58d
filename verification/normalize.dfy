/**
 URL normalisation of the content script: one registry key per Baidu share,
 whichever of its two URL forms the page used.
 */
module UrlNormalizer {
  import opened Base
  import opened Regex

  /** `url.replace(/\/+$/, '')`: the longest run of trailing slashes removed */
  function StripTrailingSlashes(url: string): (r: string)
    decreases |url|
    ensures r <= url
    ensures |r| == 0 || r[|r| - 1] != '/'
    ensures forall k :: |r| <= k < |url| ==> url[k] == '/'
  {
    if |url| > 0 && url[|url| - 1] == '/' then StripTrailingSlashes(url[..|url| - 1]) else url
  }

  /** Stripping a URL that does not end in a slash changes nothing */
  lemma StripNoSlash(url: string)
    requires |url| == 0 || url[|url| - 1] != '/'
    ensures StripTrailingSlashes(url) == url
  {
  }

  /** What `[?&]pwd=([^&]+)` can capture */
  predicate IsPwdValue(p: string) {
    |p| > 0 && '&' !in p
  }

  /** Capture group 1 of the first match of `p` in `u` */
  function Capture(p: Pattern, u: string): (r: Option<string>)
    ensures r.Some? <==> FirstMatch(p, u).Some?
    ensures r.Some? && (p.ShareStd? || p.ShareInit?) ==> IsShareCode(r.value)
    ensures r.Some? && p.PwdParam? ==> IsPwdValue(r.value)
  {
    match FirstMatch(p, u)
    case None => None
    case Some(o) =>
      assert M(p)(u, o.index) == MatchAt(p, u, o.index);
      Some(o.hit.group1)
  }

  const StdPrefix: string := "https://pan.baidu.com/s/"
  const InitPrefix: string := "https://pan.baidu.com/share/init?surl="

  /** `base`, followed by `<sep>pwd=<p>` when a password is given */
  function WithPwd(base: string, sep: char, pwd: Option<string>): string {
    match pwd
    case None => base
    case Some(p) => base + [sep] + "pwd=" + p
  }

  /** The form every Baidu share is normalised to: `https://pan.baidu.com/s/<id>[?pwd=<p>]` */
  function Canonical(id: string, pwd: Option<string>): string {
    WithPwd(StdPrefix + id, '?', pwd)
  }

  /** The other form of the same share: `https://pan.baidu.com/share/init?surl=<id>[&pwd=<p>]` */
  function InitForm(id: string, pwd: Option<string>): string {
    WithPwd(InitPrefix + id, '&', pwd)
  }

  /** normalizeNetDiskUrl */
  function NormalizeNetDiskUrl(url: string): (r: string)
    ensures url == "" ==> r == ""
    ensures !Contains(StripTrailingSlashes(url), "pan.baidu.com") ==> r == StripTrailingSlashes(url)
    ensures r == StripTrailingSlashes(url) ||
            exists id: string, pwd: Option<string> :: IsShareCode(id) && (pwd.None? || IsPwdValue(pwd.value)) && r == Canonical(id, pwd)
    ensures var u := StripTrailingSlashes(url);
            var id := if Capture(ShareInit, u).Some? then Capture(ShareInit, u) else Capture(ShareStd, u);
            url != "" && Contains(u, "pan.baidu.com") ==>
              r == (if id.Some? then Canonical(id.value, Capture(PwdParam, u)) else u)
  {
    if url == "" then url
    else
      var u := StripTrailingSlashes(url);
      if !Contains(u, "pan.baidu.com") then u
      else
        var init := Capture(ShareInit, u);
        var id := if init.Some? then init else Capture(ShareStd, u);
        match id
        case None => u
        case Some(i) => Canonical(i, Capture(PwdParam, u))
  }

  /** The pieces of `WithPwd(prefix + id, sep, pwd)`, offset by offset */
  lemma WithPwdLayout(prefix: string, id: string, sep: char, pwd: Option<string>)
    ensures var c := WithPwd(prefix + id, sep, pwd);
            var b := |prefix| + |id|;
            && c[..|prefix|] == prefix
            && c[|prefix|..b] == id
            && (pwd.None? ==> |c| == b)
            && (pwd.Some? ==> |c| == b + 5 + |pwd.value| && c[b] == sep && c[b + 1..b + 5] == "pwd="
                              && c[b + 5..] == pwd.value)
  {
    var c := WithPwd(prefix + id, sep, pwd);
    if pwd.Some? {
      assert c == prefix + id + [sep] + "pwd=" + pwd.value;
    }
  }

  /** A URL in either form with a share-code id and a password free of `&` and `/`
      holds no `/` past its prefix, and no `?` or `&` before the password separator */
  lemma TailChars(prefix: string, id: string, sep: char, pwd: Option<string>)
    requires IsShareCode(id) && (pwd.None? || (IsPwdValue(pwd.value) && '/' !in pwd.value))
    requires sep == '?' || sep == '&'
    ensures var c := WithPwd(prefix + id, sep, pwd);
            && (forall k :: |prefix| <= k < |c| ==> c[k] != '/')
            && (forall k :: |prefix| <= k < |prefix| + |id| ==> IsCodeChar(c[k]))
            && (forall k :: |prefix| + |id| + 5 <= k < |c| ==> c[k] != '&')
  {
    var c := WithPwd(prefix + id, sep, pwd);
    var b := |prefix| + |id|;
    WithPwdLayout(prefix, id, sep, pwd);
    forall k | |prefix| <= k < b ensures IsCodeChar(c[k]) && c[k] != '/' {
      assert c[k] == c[|prefix|..b][k - |prefix|];
    }
    if pwd.Some? {
      forall k | b + 5 <= k < |c| ensures c[k] != '/' && c[k] != '&' {
        assert c[k] == c[b + 5..][k - b - 5];
      }
      forall k | b <= k < b + 5 ensures c[k] != '/' {
        if k > b {
          assert c[k] == c[b + 1..b + 5][k - b - 1];
        }
      }
    }
  }

  /** The `pwd` parameter of a URL in either form is the password it was built with, provided
      no `?pwd=` or `&pwd=` starts inside the prefix */
  lemma PwdCapture(prefix: string, id: string, sep: char, pwd: Option<string>)
    requires IsShareCode(id) && (pwd.None? || (IsPwdValue(pwd.value) && '/' !in pwd.value))
    requires sep == '?' || sep == '&'
    requires forall j :: 0 <= j < |prefix| ==> PwdParamAt(WithPwd(prefix + id, sep, pwd), j).None?
    ensures Capture(PwdParam, WithPwd(prefix + id, sep, pwd)) == pwd
  {
    var c := WithPwd(prefix + id, sep, pwd);
    var b := |prefix| + |id|;
    WithPwdLayout(prefix, id, sep, pwd);
    TailChars(prefix, id, sep, pwd);
    var m := M(PwdParam);
    forall j | 0 <= j < b ensures m(c, j).None? {
      assert m(c, j) == PwdParamAt(c, j);
      if j >= |prefix| {
        assert IsCodeChar(c[j]);
      }
    }
    if pwd.Some? {
      var h := Hit(|c|, pwd.value, None);
      assert Span(c, b + 5, NotAmp) == |c|;
      assert c[b + 5..|c|] == pwd.value;
      assert m(c, b) == PwdParamAt(c, b);
      FirstFromAt(m, c, b, h);
    } else {
      FirstFromNone(m, c);
    }
  }

  /** The id of a URL in either form is found by the literal that its prefix ends with */
  lemma CodeCapture(prefix: string, lit: string, p: Pattern, id: string, sep: char, pwd: Option<string>)
    requires IsShareCode(id) && (pwd.None? || (IsPwdValue(pwd.value) && '/' !in pwd.value))
    requires (p.ShareStd? && lit == "pan.baidu.com/s/") || (p.ShareInit? && lit == "pan.baidu.com/share/init?surl=")
    requires |prefix| == 8 + |lit| && prefix[8..] == lit
    requires forall j :: 0 <= j < 8 ==> !OccursAt(lit, prefix, j)
    requires sep == '?' || sep == '&'
    ensures Capture(p, WithPwd(prefix + id, sep, pwd)) == Some(id)
  {
    var c := WithPwd(prefix + id, sep, pwd);
    var b := |prefix| + |id|;
    WithPwdLayout(prefix, id, sep, pwd);
    TailChars(prefix, id, sep, pwd);
    assert c[8..8 + |lit|] == lit by {
      assert c[..|prefix|][8..] == prefix[8..];
    }
    assert Span(c, |prefix|, Code) == b;
    assert c[|prefix|..b] == id;
    var m := M(p);
    forall j | 0 <= j < 8 ensures m(c, j).None? {
      assert m(c, j) == CodeAfterLiteral(c, j, lit);
      assert c[j..j + |lit|] == prefix[j..j + |lit|] by {
        assert c[..|prefix|][j..j + |lit|] == c[j..j + |lit|];
      }
      assert !OccursAt(lit, prefix, j);
    }
    assert m(c, 8) == CodeAfterLiteral(c, 8, lit);
    FirstFromAt(m, c, 8, Hit(b, id, None));
  }

  /** One character of an occurrence */
  lemma CharOfOccurrence(t: string, s: string, i: nat, k: nat)
    requires OccursAt(t, s, i) && k < |t|
    ensures s[i + k] == t[k]
  {
    assert s[i..i + |t|][k] == s[i + k];
  }

  /** No `pan.baidu.com/share/init?surl=` occurs in a canonical URL: its two slashes would have
      to fall where the canonical form has none */
  lemma NoInitInCanonical(id: string, pwd: Option<string>)
    requires IsShareCode(id) && (pwd.None? || (IsPwdValue(pwd.value) && '/' !in pwd.value))
    ensures Capture(ShareInit, Canonical(id, pwd)).None?
  {
    var c := Canonical(id, pwd);
    var lit := "pan.baidu.com/share/init?surl=";
    WithPwdLayout(StdPrefix, id, '?', pwd);
    TailChars(StdPrefix, id, '?', pwd);
    forall j | 0 <= j < |c| ensures !OccursAt(lit, c, j) {
      if OccursAt(lit, c, j) {
        CharOfOccurrence(lit, c, j, 19);
        CharOfOccurrence(lit, c, j, 13);
      }
    }
    NoCodeMatch(c, lit, ShareInit);
  }

  /** A literal-led pattern with no occurrence of its literal never matches */
  lemma NoCodeMatch(c: string, lit: string, p: Pattern)
    requires (p.ShareStd? && lit == "pan.baidu.com/s/") || (p.ShareInit? && lit == "pan.baidu.com/share/init?surl=")
    requires forall j :: 0 <= j < |c| ==> !OccursAt(lit, c, j)
    ensures Capture(p, c).None?
  {
    var m := M(p);
    forall j | 0 <= j < |c| ensures m(c, j).None? {
      assert m(c, j) == CodeAfterLiteral(c, j, lit);
    }
    FirstFromNone(m, c);
  }

  /** What the literals of the two prefixes hold */
  lemma StdPrefixFacts()
    ensures |StdPrefix| == 24 && StdPrefix[8..] == "pan.baidu.com/s/" && StdPrefix[8..21] == "pan.baidu.com"
    ensures forall j :: 0 <= j < 8 ==> !OccursAt("pan.baidu.com/s/", StdPrefix, j)
    ensures forall j :: 0 <= j < 24 ==> StdPrefix[j] != '?' && StdPrefix[j] != '&'
  {
    StdPrefixNoEarlyLiteral();
    assert '?' !in StdPrefix && '&' !in StdPrefix;
  }

  lemma StdPrefixNoEarlyLiteral()
    ensures forall j :: 0 <= j < 8 ==> !OccursAt("pan.baidu.com/s/", StdPrefix, j)
  {
    forall j | 0 <= j < 8 ensures !OccursAt("pan.baidu.com/s/", StdPrefix, j) {
      if OccursAt("pan.baidu.com/s/", StdPrefix, j) {
        CharOfOccurrence("pan.baidu.com/s/", StdPrefix, j, 13);
      }
    }
  }

  lemma InitPrefixFacts()
    ensures |InitPrefix| == 38 && InitPrefix[8..] == "pan.baidu.com/share/init?surl=" && InitPrefix[8..21] == "pan.baidu.com"
    ensures forall j :: 0 <= j < 8 ==> !OccursAt("pan.baidu.com/share/init?surl=", InitPrefix, j)
    ensures forall j :: 0 <= j < 38 && j != 32 ==> InitPrefix[j] != '?' && InitPrefix[j] != '&'
    ensures InitPrefix[32] == '?' && InitPrefix[33..37] == "surl"
  {
    assert InitPrefix[8..21] == InitPrefix[8..][..13];
    InitPrefixNoEarlyLiteral();
    InitPrefixSeparators();
  }

  lemma InitPrefixNoEarlyLiteral()
    ensures forall j :: 0 <= j < 8 ==> !OccursAt("pan.baidu.com/share/init?surl=", InitPrefix, j)
  {
    forall j | 0 <= j < 8 ensures !OccursAt("pan.baidu.com/share/init?surl=", InitPrefix, j) {
      if OccursAt("pan.baidu.com/share/init?surl=", InitPrefix, j) {
        CharOfOccurrence("pan.baidu.com/share/init?surl=", InitPrefix, j, 13);
      }
    }
  }

  lemma InitPrefixSeparators()
    ensures forall j :: 0 <= j < 38 && j != 32 ==> InitPrefix[j] != '?' && InitPrefix[j] != '&'
  {
    FreeOfSeparators(InitPrefix, 0, 32);
    FreeOfSeparators(InitPrefix, 33, 38);
  }

  /** No `?` or `&` in `s[a..b]` when the slice, as a value, holds neither */
  lemma FreeOfSeparators(s: string, a: nat, b: nat)
    requires a <= b <= |s| && '?' !in s[a..b] && '&' !in s[a..b]
    ensures forall j :: a <= j < b ==> s[j] != '?' && s[j] != '&'
  {
    forall j | a <= j < b ensures s[j] != '?' && s[j] != '&' {
      assert s[j] == s[a..b][j - a];
    }
  }

  /** How normalisation sees a URL in canonical form */
  lemma CanonicalParts(id: string, pwd: Option<string>)
    requires IsShareCode(id) && (pwd.None? || (IsPwdValue(pwd.value) && '/' !in pwd.value))
    ensures var c := Canonical(id, pwd);
            && c != "" && StripTrailingSlashes(c) == c && Contains(c, "pan.baidu.com")
            && Capture(ShareInit, c).None? && Capture(ShareStd, c) == Some(id)
            && Capture(PwdParam, c) == pwd
  {
    var c := Canonical(id, pwd);
    StdPrefixFacts();
    WithPwdLayout(StdPrefix, id, '?', pwd);
    TailChars(StdPrefix, id, '?', pwd);
    StripNoSlash(c);
    assert OccursAt("pan.baidu.com", c, 8) by {
      assert c[8..21] == c[..24][8..21];
    }
    ContainsAt(c, "pan.baidu.com", 8);
    NoInitInCanonical(id, pwd);
    CodeCapture(StdPrefix, "pan.baidu.com/s/", ShareStd, id, '?', pwd);
    forall j | 0 <= j < 24 ensures PwdParamAt(c, j).None? {
      assert c[j] == c[..24][j];
    }
    PwdCapture(StdPrefix, id, '?', pwd);
  }

  /** The canonical form is a fixed point, as long as the password holds no `/` */
  lemma CanonicalFixpoint(id: string, pwd: Option<string>)
    requires IsShareCode(id) && (pwd.None? || (IsPwdValue(pwd.value) && '/' !in pwd.value))
    ensures NormalizeNetDiskUrl(Canonical(id, pwd)) == Canonical(id, pwd)
  {
    CanonicalParts(id, pwd);
  }

  /** How normalisation sees a URL in the init form */
  lemma InitParts(id: string, pwd: Option<string>)
    requires IsShareCode(id) && (pwd.None? || (IsPwdValue(pwd.value) && '/' !in pwd.value))
    ensures var c := InitForm(id, pwd);
            && c != "" && StripTrailingSlashes(c) == c && Contains(c, "pan.baidu.com")
            && Capture(ShareInit, c) == Some(id) && Capture(PwdParam, c) == pwd
  {
    var c := InitForm(id, pwd);
    InitPrefixFacts();
    WithPwdLayout(InitPrefix, id, '&', pwd);
    TailChars(InitPrefix, id, '&', pwd);
    StripNoSlash(c);
    assert OccursAt("pan.baidu.com", c, 8) by {
      assert c[8..21] == c[..38][8..21];
    }
    ContainsAt(c, "pan.baidu.com", 8);
    CodeCapture(InitPrefix, "pan.baidu.com/share/init?surl=", ShareInit, id, '&', pwd);
    forall j | 0 <= j < 38 ensures PwdParamAt(c, j).None? {
      assert c[j] == c[..38][j];
      if j == 32 {
        assert c[33..37] == c[..38][33..37];
      }
    }
    PwdCapture(InitPrefix, id, '&', pwd);
  }

  /** Both URL forms of one share normalise to the same key */
  lemma InitFormNormalizes(id: string, pwd: Option<string>)
    requires IsShareCode(id) && (pwd.None? || (IsPwdValue(pwd.value) && '/' !in pwd.value))
    ensures NormalizeNetDiskUrl(InitForm(id, pwd)) == NormalizeNetDiskUrl(Canonical(id, pwd)) == Canonical(id, pwd)
  {
    InitParts(id, pwd);
    CanonicalFixpoint(id, pwd);
  }

  /** The result depends on the URL only through its slash-stripped form */
  lemma NormalizeStripped(url: string)
    ensures NormalizeNetDiskUrl(StripTrailingSlashes(url)) == NormalizeNetDiskUrl(url)
  {
    StripNoSlash(StripTrailingSlashes(url));
  }

  /** Normalising twice gives what normalising once gives, unless the `pwd` parameter
      captured the first time holds a `/` */
  lemma NormalizeIdempotent(url: string)
    requires var p := Capture(PwdParam, StripTrailingSlashes(url)); p.None? || '/' !in p.value
    ensures NormalizeNetDiskUrl(NormalizeNetDiskUrl(url)) == NormalizeNetDiskUrl(url)
  {
    var u := StripTrailingSlashes(url);
    var r := NormalizeNetDiskUrl(url);
    if r == u {
      NormalizeStripped(url);
    } else {
      var init := Capture(ShareInit, u);
      var id := if init.Some? then init else Capture(ShareStd, u);
      CanonicalFixpoint(id.value, Capture(PwdParam, u));
    }
  }
}
