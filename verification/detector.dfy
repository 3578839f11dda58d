/**
 The link detector: the platform table, recognition of one URL, the global
 scan of a text, and the per-type enable switch of the settings.
 */
module LinkDetector {
  import opened Base
  import opened Regex
  import Passwords
  import opened Js

  /** The platforms of the pattern table */
  datatype Platform = BaiduPan | AliyunDrive | WeiyunShare | Pan115 | LanzouCloud | QuarkPan | Pan123Disk

  /** The table key and `type` of a platform */
  function TypeKey(pl: Platform): string {
    match pl
    case BaiduPan => "baidu"
    case AliyunDrive => "aliyun"
    case WeiyunShare => "weiyun"
    case Pan115 => "wangpan115"
    case LanzouCloud => "lanzou"
    case QuarkPan => "quark"
    case Pan123Disk => "pan123"
  }

  /** The display `name` of a platform */
  function DisplayName(pl: Platform): string {
    match pl
    case BaiduPan => "百度网盘"
    case AliyunDrive => "阿里云盘"
    case WeiyunShare => "腾讯微云"
    case Pan115 => "115网盘"
    case LanzouCloud => "蓝奏云"
    case QuarkPan => "夸克网盘"
    case Pan123Disk => "123盘"
  }

  /** The platform a share-link pattern belongs to */
  function PlatformOf(p: Pattern): Platform
    requires IsLinkPattern(p)
  {
    match p
    case BaiduStandard => BaiduPan
    case BaiduInit => BaiduPan
    case Aliyun => AliyunDrive
    case Weiyun => WeiyunShare
    case Wangpan115 => Pan115
    case Lanzou => LanzouCloud
    case Quark => QuarkPan
    case Pan123 => Pan123Disk
  }

  /** The order in which both detection and extraction try the patterns: the two Baidu forms,
      aliyun and 123pan first, then the rest of the table in its own order */
  const SpecialOrder: seq<Pattern> := [BaiduStandard, BaiduInit, Aliyun, Pan123]
  const GenericOrder: seq<Pattern> := [Weiyun, Wangpan115, Lanzou, Quark]
  const DetectOrder: seq<Pattern> := SpecialOrder + GenericOrder

  predicate AllLinkPatterns(pats: seq<Pattern>) {
    forall k :: 0 <= k < |pats| ==> IsLinkPattern(pats[k])
  }

  lemma DetectOrderFacts()
    ensures |DetectOrder| == 8 && AllLinkPatterns(DetectOrder) && AllLinkPatterns(GenericOrder)
    ensures DetectOrder[..4] == SpecialOrder && DetectOrder[4..] == GenericOrder
  {
  }

  /** What detectNetDiskLink returns: `type` and `name` follow from the pattern that matched */
  datatype DiskInfo = DiskInfo(pattern: Pattern, url: string, matched: string, code: string, password: Option<string>)

  /** The result built from the leftmost match `o` of pattern `p` in `url` */
  function InfoOf(p: Pattern, url: string, o: Occ): (r: DiskInfo)
    requires IsLinkPattern(p) && M(p)(url, o.index) == Some(o.hit)
    ensures r.pattern == p && r.url == url && IsShareCode(r.code)
    ensures OccursAt(r.matched, url, o.index)
    ensures r.password.Some? ==> IsToken(r.password.value) && (p.BaiduInit? || p.Aliyun? || p.Pan123?)
  {
    LinkMatchShape(p, url, o.index, o.hit);
    var matched := url[o.index..o.hit.end];
    assert o.index + |matched| == o.hit.end;
    assert OccursAt(matched, url, o.index);
    DiskInfo(p, url, matched, o.hit.group1, o.hit.group2)
  }

  /** Trying one pattern with `test` and then `match` */
  function Dispatch(url: string, p: Pattern): (r: Option<DiskInfo>)
    requires IsLinkPattern(p)
    ensures r.None? <==> FirstMatch(p, url).None?
    ensures r.Some? ==> r.value == InfoOf(p, url, FirstMatch(p, url).value)
  {
    match FirstMatch(p, url)
    case None => None
    case Some(o) =>
      Some(InfoOf(p, url, o))
  }

  /** The `for` loop over the remaining table entries: the first one that matches */
  function TryInOrder(url: string, pats: seq<Pattern>): (r: Option<DiskInfo>)
    requires AllLinkPatterns(pats)
    decreases |pats|
  {
    if |pats| == 0 then None
    else
      var d := Dispatch(url, pats[0]);
      if d.Some? then d else TryInOrder(url, pats[1..])
  }

  /** The reference reading: the leftmost match of the first pattern, in detection order,
      that matches anywhere in `url` */
  function FirstOf(url: string, pats: seq<Pattern>): (r: Option<DiskInfo>)
    requires AllLinkPatterns(pats)
  {
    match FirstPattern(pats, url)
    case None => None
    case Some((k, o)) =>
      Some(InfoOf(pats[k], url, o))
  }

  /** The loop and the reference agree */
  lemma {:induction false} TryInOrderIsFirstOf(url: string, pats: seq<Pattern>)
    requires AllLinkPatterns(pats)
    ensures TryInOrder(url, pats) == FirstOf(url, pats)
    decreases |pats|
  {
    if |pats| > 0 {
      TryInOrderIsFirstOf(url, pats[1..]);
      var f := FirstPattern(pats[1..], url);
      if FirstMatch(pats[0], url).None? && f.Some? {
        var k := f.value.0;
        assert pats[1..][k] == pats[k + 1];
      }
    }
  }

  /** A pattern that matches somewhere in `url` finds the host name detectNetDiskLink checks for it */
  lemma HostGuard(p: Pattern, url: string)
    requires (p.BaiduStandard? || p.BaiduInit? || p.Aliyun? || p.Pan123?) && FirstMatch(p, url).Some?
    ensures p.BaiduStandard? || p.BaiduInit? ==> Contains(url, "pan.baidu.com")
    ensures p.Aliyun? ==> Contains(url, "alipan.com") || Contains(url, "aliyundrive.com")
    ensures p.Pan123? ==> Contains(url, "123pan.com") || Contains(url, "123684.com")
  {
    var o := FirstMatch(p, url).value;
    assert M(p)(url, o.index) == MatchAt(p, url, o.index);
    LinkMatchHost(p, url, o.index);
  }

  /** detectNetDiskLink: `null` for an empty URL, otherwise the leftmost match of the first
      pattern, in detection order, that matches anywhere in the URL */
  function DetectNetDiskLink(url: string): (r: Option<DiskInfo>)
    ensures url == "" ==> r.None?
    ensures url != "" ==> r == FirstOf(url, DetectOrder)
  {
    if url == "" then None
    else
      GuardedIsLoop(url);
      TryInOrderIsFirstOf(url, DetectOrder);
      DetectGuarded(url)
  }

  /** What detectNetDiskLink finds comes from one of the table's share-link patterns and
      describes the URL it was given */
  lemma DetectedPattern(url: string)
    requires DetectNetDiskLink(url).Some?
    ensures var d := DetectNetDiskLink(url).value;
            d.pattern in DetectOrder && IsLinkPattern(d.pattern) && d.url == url && IsShareCode(d.code)
  {
    DetectOrderFacts();
    var k := FirstPattern(DetectOrder, url).value.0;
    assert DetectOrder[k] in DetectOrder;
  }

  /** The body of detectNetDiskLink after its empty-URL check, with its `includes` guards */
  function DetectGuarded(url: string): Option<DiskInfo> {
    var baidu :=
      if Contains(url, "pan.baidu.com") then
        var std := Dispatch(url, BaiduStandard);
        if std.Some? then std else Dispatch(url, BaiduInit)
      else None;
    if baidu.Some? then baidu
    else
      var ali := if Contains(url, "alipan.com") || Contains(url, "aliyundrive.com") then Dispatch(url, Aliyun) else None;
      if ali.Some? then ali
      else
        var p123 := if Contains(url, "123pan.com") || Contains(url, "123684.com") then Dispatch(url, Pan123) else None;
        if p123.Some? then p123 else TryInOrder(url, GenericOrder)
  }

  /** The first of two attempts that found something */
  function OrElse(a: Option<DiskInfo>, b: Option<DiskInfo>): Option<DiskInfo> {
    if a.Some? then a else b
  }

  lemma TryInOrderStep(url: string, pats: seq<Pattern>)
    requires |pats| > 0 && AllLinkPatterns(pats)
    ensures AllLinkPatterns(pats[1..])
    ensures TryInOrder(url, pats) == OrElse(Dispatch(url, pats[0]), TryInOrder(url, pats[1..]))
  {
  }

  /** The loop over the detection order, written out for its first four patterns */
  lemma UnrollDetectOrder(url: string)
    ensures AllLinkPatterns(DetectOrder)
    ensures TryInOrder(url, DetectOrder) ==
      OrElse(Dispatch(url, BaiduStandard), OrElse(Dispatch(url, BaiduInit),
        OrElse(Dispatch(url, Aliyun), OrElse(Dispatch(url, Pan123), TryInOrder(url, GenericOrder)))))
  {
    DetectOrderFacts();
    var d0 := DetectOrder;
    var d1 := d0[1..];
    var d2 := d1[1..];
    var d3 := d2[1..];
    assert d1 == [BaiduInit, Aliyun, Pan123] + GenericOrder;
    assert d2 == [Aliyun, Pan123] + GenericOrder;
    assert d3 == [Pan123] + GenericOrder;
    assert d3[1..] == GenericOrder;
    TryInOrderStep(url, d0);
    TryInOrderStep(url, d1);
    TryInOrderStep(url, d2);
    TryInOrderStep(url, d3);
  }

  /** The `includes` guards only ever skip patterns that cannot match */
  lemma GuardedIsLoop(url: string)
    ensures AllLinkPatterns(DetectOrder)
    ensures DetectGuarded(url) == TryInOrder(url, DetectOrder)
  {
    UnrollDetectOrder(url);
    if FirstMatch(BaiduStandard, url).Some? { HostGuard(BaiduStandard, url); }
    if FirstMatch(BaiduInit, url).Some? { HostGuard(BaiduInit, url); }
    if FirstMatch(Aliyun, url).Some? { HostGuard(Aliyun, url); }
    if FirstMatch(Pan123, url).Some? { HostGuard(Pan123, url); }
  }

  /** `settings[group][ty]` when `settings[group]` is truthy, `undefined` otherwise: the entry the
      `settings.group && settings.group[ty] !== undefined` test looks at */
  function Entry(settings: Val, group: string, ty: string): Val {
    var g := Get(settings, group);
    if Truthy(g) then Get(g, ty) else Undefined
  }

  /** isNetDiskTypeEnabled */
  function IsNetDiskTypeEnabled(ty: string, settings: Val): (r: bool)
    ensures !Truthy(settings) ==> r
    ensures Entry(settings, "enabledPlatforms", ty) == Undefined && Entry(settings, "enabledTypes", ty) == Undefined ==> r
    ensures Truthy(settings) && Entry(settings, "enabledPlatforms", ty) != Undefined ==>
              (r <==> Entry(settings, "enabledPlatforms", ty) != Bool(false))
    ensures !r <==> Truthy(settings) && (Entry(settings, "enabledPlatforms", ty) == Bool(false)
                      || (Entry(settings, "enabledPlatforms", ty) == Undefined && Entry(settings, "enabledTypes", ty) == Bool(false)))
  {
    if !Truthy(settings) then true
    else if Truthy(Get(settings, "enabledPlatforms")) && Get(Get(settings, "enabledPlatforms"), ty) != Undefined then
      Get(Get(settings, "enabledPlatforms"), ty) != Bool(false)
    else if Truthy(Get(settings, "enabledTypes")) && Get(Get(settings, "enabledTypes"), ty) != Undefined then
      Get(Get(settings, "enabledTypes"), ty) != Bool(false)
    else true
  }
}
