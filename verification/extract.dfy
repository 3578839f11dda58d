/**
 The global scan of extractNetDiskLinks: every match of every share-link
 pattern in a text, grouped by pattern, with the password taken from the
 link itself or, for aliyun and 123pan, from the text around it.
 */
module LinkExtractor {
  import opened Base
  import opened Regex
  import opened Passwords
  import opened LinkDetector

  /** aliyun's `passwordPattern`,
      `(?:(?:提取|访问|密)?码[：:]\s*|[?&]pwd=\s*)([a-zA-Z0-9]{4})/i`; the optional word is tried
      before the bare `码`, and a failed attempt falls through to the next alternative */
  const AliyunPassword: Pattern :=
    Labelled(["提取码：", "提取码:", "访问码：", "访问码:", "密码：", "密码:", "码：", "码:",
              "?pwd=", "&pwd="], true)

  /** 123pan's `passwordPattern`,
      `(?:(?:提取|访问|密)?码[：:]\s*|[?&](?:pwd|extraction-code)=\s*)([a-zA-Z0-9]{4})/i` */
  const Pan123Password: Pattern :=
    Labelled(["提取码：", "提取码:", "访问码：", "访问码:", "密码：", "密码:", "码：", "码:",
              "?pwd=", "?extraction-code=", "&pwd=", "&extraction-code="], true)

  /** The password rule of the platforms whose links may carry the password beside them */
  function WindowRule(p: Pattern): (rule: Pattern)
    requires p.Aliyun? || p.Pan123?
    ensures rule.Labelled? && rule.ignoreCase
  {
    if p.Aliyun? then AliyunPassword else Pan123Password
  }

  /** One object of the result: `type` and `name` follow from the pattern; `password` is absent
      when nothing supplied one */
  datatype FoundLink = FoundLink(pattern: Pattern, url: string, code: string, password: Option<string>)

  /** `surroundingText.match(passwordPattern)`: capture 1 of the leftmost match of `rule`
      in the text around the link at `idx` of length `len` */
  function WindowPassword(rule: Pattern, text: string, idx: nat, len: nat): (r: Option<string>)
    requires rule.Labelled? && idx + len <= |text|
    ensures r.None? <==> FirstMatch(rule, Window(text, idx, len)).None?
    ensures r.Some? ==> IsToken(r.value)
    ensures r.Some? ==> exists j: nat :: OccursAt(r.value, text, j)
                                         && (if idx >= 100 then idx - 100 else 0) <= j && j + 4 <= idx + len + 100
  {
    var w := Window(text, idx, len);
    match FirstMatch(rule, w)
    case None => None
    case Some(o) =>
      PasswordMatchShape(rule, w, o.index, o.hit);
      WindowOccurs(text, idx, len, o.hit.group1, o.hit.end - 4);
      Some(o.hit.group1)
  }

  /** The password of a link of pattern `p` at `idx` of length `len` whose group 2 is `group2`:
      the init form's and aliyun's or 123pan's own group, else, for the latter two, the
      password written near the link */
  function LinkPassword(p: Pattern, text: string, idx: nat, len: nat, group2: Option<string>): (r: Option<string>)
    requires IsLinkPattern(p) && idx + len <= |text|
    requires group2.Some? ==> IsToken(group2.value)
    ensures r.Some? ==> IsToken(r.value)
    ensures p.BaiduInit? ==> r == group2
    ensures !(p.BaiduInit? || p.Aliyun? || p.Pan123?) ==> r.None?
    ensures (p.Aliyun? || p.Pan123?) && group2.Some? ==> r == group2
    ensures (p.Aliyun? || p.Pan123?) && group2.None? ==> r == WindowPassword(WindowRule(p), text, idx, len)
  {
    if p.BaiduInit? then group2
    else if p.Aliyun? || p.Pan123? then
      if group2.Some? then group2 else WindowPassword(WindowRule(p), text, idx, len)
    else None
  }

  /** What a match of a share-link pattern is known to hold: a non-empty span of the text,
      a share code and, when group 2 is there, a four-character password */
  predicate LinkHit(text: string, o: Occ) {
    && o.index < o.hit.end <= |text| && IsShareCode(o.hit.group1)
    && (o.hit.group2.Some? ==> IsToken(o.hit.group2.value))
  }

  lemma MatchesAreLinkHits(p: Pattern, text: string)
    requires IsLinkPattern(p)
    ensures forall k :: 0 <= k < |AllMatches(p, text)| ==> LinkHit(text, AllMatches(p, text)[k])
  {
    var occs := AllMatches(p, text);
    forall k | 0 <= k < |occs| ensures LinkHit(text, occs[k]) {
      LinkMatchShape(p, text, occs[k].index, occs[k].hit);
    }
  }

  /** The object pushed for the match `o` of pattern `p` */
  function LinkOf(p: Pattern, text: string, o: Occ): (l: FoundLink)
    requires IsLinkPattern(p) && LinkHit(text, o)
    ensures l.pattern == p && OccursAt(l.url, text, o.index)
    ensures l.code == o.hit.group1 && IsShareCode(l.code)
    ensures l.password == LinkPassword(p, text, o.index, |l.url|, o.hit.group2)
    ensures l.password.Some? ==> IsToken(l.password.value)
  {
    var url := text[o.index..o.hit.end];
    assert o.index + |url| == o.hit.end;
    assert OccursAt(url, text, o.index);
    FoundLink(p, url, o.hit.group1, LinkPassword(p, text, o.index, |url|, o.hit.group2))
  }

  /** The `while ((match = re.exec(text)) !== null)` loop of pattern `p`: one object per
      match, in text order */
  function ScanLinks(p: Pattern, text: string): (r: seq<FoundLink>)
    requires IsLinkPattern(p)
    ensures |r| == |AllMatches(p, text)|
    ensures forall k :: 0 <= k < |r| ==> LinkHit(text, AllMatches(p, text)[k]) && r[k] == LinkOf(p, text, AllMatches(p, text)[k])
    ensures forall k :: 0 <= k < |r| ==> OccursAt(r[k].url, text, AllMatches(p, text)[k].index)
    ensures forall l :: l in r ==> l.pattern == p && Contains(text, l.url) && IsShareCode(l.code)
    ensures forall l :: l in r && l.password.Some? ==> IsToken(l.password.value)
  {
    MatchesAreLinkHits(p, text);
    LinksOf(p, text, AllMatches(p, text))
  }

  /** The objects for the matches `occs` of `p`, in order */
  function LinksOf(p: Pattern, text: string, occs: seq<Occ>): (r: seq<FoundLink>)
    requires IsLinkPattern(p)
    requires forall k :: 0 <= k < |occs| ==> LinkHit(text, occs[k])
    ensures |r| == |occs|
    ensures forall k :: 0 <= k < |r| ==> r[k] == LinkOf(p, text, occs[k])
    ensures forall k :: 0 <= k < |r| ==> OccursAt(r[k].url, text, occs[k].index)
    ensures forall l :: l in r ==> l.pattern == p && Contains(text, l.url) && IsShareCode(l.code)
    ensures forall l :: l in r && l.password.Some? ==> IsToken(l.password.value)
  {
    if |occs| == 0 then []
    else
      var l := LinkOf(p, text, occs[0]);
      ContainsAt(text, l.url, occs[0].index);
      var rest := LinksOf(p, text, occs[1..]);
      assert forall k :: 0 < k < |occs| ==> ([l] + rest)[k] == rest[k - 1];
      [l] + rest
  }

  /** The scans of the patterns `pats`, one block per pattern, in order */
  function Blocks(pats: seq<Pattern>, text: string): (b: seq<seq<FoundLink>>)
    requires AllLinkPatterns(pats)
    ensures |b| == |pats|
    ensures forall k :: 0 <= k < |b| ==> b[k] == ScanLinks(pats[k], text)
  {
    seq(|pats|, k requires 0 <= k < |pats| => ScanLinks(pats[k], text))
  }

  /** Position of a share-link pattern in the extraction order */
  function Rank(p: Pattern): nat {
    match p
    case BaiduStandard => 0
    case BaiduInit => 1
    case Aliyun => 2
    case Pan123 => 3
    case Weiyun => 4
    case Wangpan115 => 5
    case Lanzou => 6
    case Quark => 7
    case _ => 8
  }

  lemma RankOfDetectOrder()
    ensures forall k :: 0 <= k < |DetectOrder| ==> Rank(DetectOrder[k]) == k
  {
    DetectOrderFacts();
  }

  /** Concatenated blocks whose elements carry their block's number keep the numbers sorted */
  lemma {:induction false} ConcatRanked(parts: seq<seq<FoundLink>>)
    requires forall k, l :: 0 <= k < |parts| && l in parts[k] ==> Rank(l.pattern) == k
    ensures forall i, j :: 0 <= i < j < |Concat(parts)| ==> Rank(Concat(parts)[i].pattern) <= Rank(Concat(parts)[j].pattern)
    decreases |parts|
  {
    if |parts| > 0 {
      var n := |parts| - 1;
      var init := parts[..n];
      assert forall k :: 0 <= k < n ==> init[k] == parts[k];
      ConcatRanked(init);
      var c := Concat(parts);
      var a := Concat(init);
      assert c == a + parts[n];
      forall i, j | 0 <= i < j < |c| ensures Rank(c[i].pattern) <= Rank(c[j].pattern) {
        if j < |a| {
          assert c[i] == a[i] && c[j] == a[j];
        } else if i < |a| {
          assert c[i] == a[i] && c[i] in a;
          assert c[j] == parts[n][j - |a|] && c[j] in parts[n];
        } else {
          assert c[i] in parts[n] && c[j] in parts[n];
        }
      }
    }
  }

  /** extractNetDiskLinks: the scans of the patterns one after the other, in detection order */
  function ExtractNetDiskLinks(text: string): (r: seq<FoundLink>)
    ensures text == "" ==> r == []
    ensures text != "" ==> forall l :: l in r <==> exists k :: 0 <= k < |DetectOrder| && l in ScanLinks(DetectOrder[k], text)
  {
    if text == "" then []
    else
      DetectOrderFacts();
      Concat(Blocks(DetectOrder, text))
  }

  /** Every object found comes from a detection pattern, is written in the text, and carries
      a share code and, if any, a four-character password */
  lemma ExtractedLinks(text: string)
    ensures forall l :: l in ExtractNetDiskLinks(text) ==>
              l.pattern in DetectOrder && Contains(text, l.url) && IsShareCode(l.code)
              && (l.password.Some? ==> IsToken(l.password.value))
  {
    DetectOrderFacts();
  }

  /** The objects are grouped by pattern, in detection order */
  lemma ExtractedInPatternOrder(text: string)
    ensures var r := ExtractNetDiskLinks(text);
            forall i, j :: 0 <= i < j < |r| ==> Rank(r[i].pattern) <= Rank(r[j].pattern)
  {
    if text != "" {
      DetectOrderFacts();
      var b := Blocks(DetectOrder, text);
      RankOfDetectOrder();
      ConcatRanked(b);
    }
  }
}
