/**
 Share links that are real `<a>` elements: findAndProcessLinks walks the page's
 unmarked anchors, and replaceWithAccessButton puts an access button in front of
 each new link and hides the anchor. Every anchor of a link already handled
 elsewhere is only hidden, so a link gets one button however often it appears.
 */
module Anchors {
  import opened Base
  import opened Regex
  import opened LinkDetector
  import opened UrlNormalizer
  import opened Passwords
  import opened Registry

  /** An anchor: its resolved `href`, whether it carries the `netdisk-processed` class,
      whether it is hidden, and the buttons (as the entries they were made for) of the
      containers inserted in front of it, in order */
  datatype Anchor = Anchor(href: string, marked: bool, hidden: bool, buttons: seq<LinkInfo>)

  /** An anchor after handling, and the registry */
  datatype Handled = Handled(anchor: Anchor, reg: Links)

  /** `linkInfo.normalizedUrl || normalizeNetDiskUrl(linkInfo.url)` */
  function KeyOf(info: LinkInfo): string {
    if info.key != "" then info.key else NormalizeNetDiskUrl(info.url)
  }

  /** `classList.add('netdisk-processed')` and `style.display = 'none'` */
  function Hide(a: Anchor): (r: Anchor)
    ensures r.marked && r.hidden && r.href == a.href && r.buttons == a.buttons
  {
    a.(marked := true, hidden := true)
  }

  /** replaceWithAccessButton once it has its key: nothing for a marked anchor; only
      hiding when the link is processed already; otherwise a button in front, the
      anchor hidden, and the entry, its `normalizedUrl` set to the key, stored as
      processed (and submitted when autoSubmit is on) */
  function ReplaceWithKey(a: Anchor, info: LinkInfo, key: string, reg: Links, ctx: Context): (r: Handled)
    ensures a.marked ==> r == Handled(a, reg)
    ensures !a.marked ==> r.anchor.marked && r.anchor.hidden
    ensures r.anchor.href == a.href && Keeps(reg, r.reg)
    ensures Processed(reg, key) ==> r.reg == reg && r.anchor.buttons == a.buttons
    ensures !a.marked && !Processed(reg, key) ==>
              && r.anchor.buttons == a.buttons + [info.(key := key)]
              && Processed(r.reg, key)
              && r.reg[key].url == info.url && r.reg[key].password == info.password
  {
    if a.marked then Handled(a, reg)
    else if Processed(reg, key) then Handled(Hide(a), reg)
    else
      var done := info.(key := key);
      PublishStores(reg, key, done, ctx);
      Handled(Hide(a).(buttons := a.buttons + [done]), Publish(reg, key, done, ctx))
  }

  /** replaceWithAccessButton */
  function ReplaceWithAccessButton(a: Anchor, info: LinkInfo, reg: Links, ctx: Context): Handled {
    ReplaceWithKey(a, info, KeyOf(info), reg, ctx)
  }

  /** What Publish leaves under the key: the entry, processed, with its url and password */
  lemma PublishStores(reg: Links, key: string, info: LinkInfo, ctx: Context)
    ensures var r := Publish(reg, key, info, ctx);
            key in r && r[key].url == info.url && r[key].password == info.password && r[key].processed
  {
  }

  /** The entry findAndProcessLinks records for a detected anchor */
  function AnchorInfo(href: string, d: DiskInfo, ctx: Context): (info: LinkInfo)
    requires IsLinkPattern(d.pattern)
    ensures info.url == href && info.key == NormalizeNetDiskUrl(href)
    ensures !info.processed && !info.submitted
    ensures d.password.Some? ==> info.password == d.password
    ensures d.password.None? ==> info.password == FindPasswordForLink(info.key, ctx.pageText, Some(ctx.candidates))
  {
    var pl := PlatformOf(d.pattern);
    var key := NormalizeNetDiskUrl(href);
    var password := if d.password.Some? then d.password else FindPasswordForLink(key, ctx.pageText, Some(ctx.candidates));
    LinkInfo(href, key, TypeKey(pl), DisplayName(pl), password, false, false)
  }

  /** The link an anchor holds, when detection finds one whose type is enabled */
  function EnabledLink(href: string, ctx: Context): (r: Option<DiskInfo>)
    ensures r.Some? ==> IsLinkPattern(r.value.pattern) && r.value.url == href
  {
    match DetectNetDiskLink(href)
    case None => None
    case Some(d) =>
      DetectedPattern(href);
      if IsNetDiskTypeEnabled(TypeKey(PlatformOf(d.pattern)), ctx.settings) then Some(d) else None
  }

  /** An anchor's link is taken up exactly when detection finds it and its type is enabled */
  lemma EnabledLinkIff(href: string, ctx: Context)
    ensures var r := EnabledLink(href, ctx);
      && (r.Some? ==> DetectNetDiskLink(href) == r
                      && IsNetDiskTypeEnabled(TypeKey(PlatformOf(r.value.pattern)), ctx.settings))
      && (r.None? ==> DetectNetDiskLink(href).None?
                      || (DetectedPattern(href);
                          !IsNetDiskTypeEnabled(TypeKey(PlatformOf(DetectNetDiskLink(href).value.pattern)), ctx.settings)))
  {
    if DetectNetDiskLink(href).Some? {
      DetectedPattern(href);
    }
  }

  /** The entry an anchor's iteration works with, when the anchor holds an enabled link;
      its key is the one replaceWithAccessButton will use */
  function Found(a: Anchor, ctx: Context): (r: Option<LinkInfo>)
    ensures r.Some? ==> r.value.url == a.href && r.value.key == NormalizeNetDiskUrl(a.href)
                        && KeyOf(r.value) == r.value.key && !r.value.processed
    ensures r.None? <==> EnabledLink(a.href, ctx).None?
  {
    match EnabledLink(a.href, ctx)
    case None => None
    case Some(d) => Some(AnchorInfo(a.href, d, ctx))
  }

  /** One iteration of findAndProcessLinks' loop, for an unmarked anchor and its entry:
      hidden only when the link is processed already; otherwise the entry is recorded
      and replaceWithAccessButton, which finds it under the same key, puts the button in */
  function Visit(a: Anchor, found: Option<LinkInfo>, reg: Links, ctx: Context): (r: Handled)
    requires !a.marked
    ensures r.anchor.href == a.href && Keeps(reg, r.reg)
    ensures found.None? ==> r == Handled(a, reg)
    ensures found.Some? ==> r.anchor.marked && r.anchor.hidden
    ensures found.Some? && Processed(reg, found.value.key) ==> r == Handled(Hide(a), reg)
    ensures found.Some? && !Processed(reg, found.value.key) && !found.value.processed ==>
              r.anchor.buttons == a.buttons + [found.value] && NewButton(a, r.anchor, reg, r.reg)
    ensures r.anchor.buttons == a.buttons
            || (found.Some? && r.anchor.buttons == a.buttons + [found.value] && NewButton(a, r.anchor, reg, r.reg))
    ensures found.Some? ==> Processed(r.reg, found.value.key)
    ensures forall k :: Processed(r.reg, k) ==>
              Processed(reg, k) || (found.Some? && (k == found.value.key || k == found.value.url))
  {
    match found
    case None => Handled(a, reg)
    case Some(info) =>
      if Processed(reg, info.key) then Handled(Hide(a), reg)
      else
        var reg1 := reg[info.key := info];
        assert Keeps(reg, reg1) by {
          forall k | Processed(reg, k) ensures Processed(reg1, k) {
            assert k != info.key;
          }
        }
        var r := ReplaceWithKey(a, info, info.key, reg1, ctx);
        KeepsTrans(reg, reg1, r.reg);
        assert info.(key := info.key) == info;
        r
  }

  /** `after` is `before` with one new button in front, for a link that was not
      processed in `reg` and is in `reg2` */
  predicate NewButton(before: Anchor, after: Anchor, reg: Links, reg2: Links) {
    && |after.buttons| == |before.buttons| + 1
    && after.buttons[..|before.buttons|] == before.buttons
    && var info := after.buttons[|before.buttons|];
    && !Processed(reg, info.key) && Processed(reg2, info.key)
  }

  /** Each anchor is unchanged in its buttons or gained one new button */
  predicate Gains(before: seq<Anchor>, after: seq<Anchor>, reg: Links, reg2: Links) {
    && |after| == |before|
    && forall i :: 0 <= i < |before| ==>
         after[i].buttons == before[i].buttons || NewButton(before[i], after[i], reg, reg2)
  }

  /** No two anchors gained a button for the same key */
  predicate DistinctGains(before: seq<Anchor>, after: seq<Anchor>)
    requires |after| == |before|
  {
    forall i, j :: (0 <= i < j < |before| && |after[i].buttons| > |before[i].buttons|
                    && |after[j].buttons| > |before[j].buttons|) ==>
      after[i].buttons[|before[i].buttons|].key != after[j].buttons[|before[j].buttons|].key
  }

  /** The page's anchors after a pass, and the registry */
  datatype Page = Page(anchors: seq<Anchor>, reg: Links)

  /** What an iteration did to one anchor, given the entry it worked with: the href
      is kept; an anchor skipped or without an enabled link is untouched; an unmarked
      anchor becomes marked exactly when it holds one; and the anchor's buttons are as
      before or gained that entry */
  predicate Outcome(before: Anchor, found: Option<LinkInfo>, after: Anchor) {
    && after.href == before.href
    && ((before.marked || found.None?) ==> after == before)
    && (!before.marked ==> (found.Some? <==> after.marked))
    && (after.buttons == before.buttons || (found.Some? && after.buttons == before.buttons + [found.value]))
  }

  /** One iteration: a marked anchor is skipped, any other one visited */
  function Iteration(a: Anchor, found: Option<LinkInfo>, reg: Links, ctx: Context): (r: Handled)
    ensures Outcome(a, found, r.anchor) && Keeps(reg, r.reg)
    ensures r.anchor.buttons == a.buttons || NewButton(a, r.anchor, reg, r.reg)
    ensures !a.marked && found.Some? ==> Processed(r.reg, found.value.key)
    ensures !a.marked && found.Some? && !Processed(reg, found.value.key) && !found.value.processed ==>
              r.anchor.buttons == a.buttons + [found.value]
    ensures forall k :: Processed(r.reg, k) ==>
              Processed(reg, k) || (!a.marked && found.Some? && (k == found.value.key || k == found.value.url))
  {
    if a.marked then Handled(a, reg) else Visit(a, found, reg, ctx)
  }

  /** The loop over the anchors, each with the entry its iteration works with */
  function Loop(anchors: seq<Anchor>, found: seq<Option<LinkInfo>>, reg: Links, ctx: Context): (r: Page)
    requires |found| == |anchors|
    ensures |r.anchors| == |anchors| && Keeps(reg, r.reg)
    ensures forall i :: 0 <= i < |anchors| ==> Outcome(anchors[i], found[i], r.anchors[i])
    decreases |anchors|
  {
    if |anchors| == 0 then Page([], reg)
    else
      var h := Iteration(anchors[0], found[0], reg, ctx);
      var tail := anchors[1..];
      var rest := Loop(tail, found[1..], h.reg, ctx);
      KeepsTrans(reg, h.reg, rest.reg);
      assert forall i :: 1 <= i < |anchors| ==> found[i] == found[1..][i - 1] && anchors[i] == tail[i - 1];
      Page([h.anchor] + rest.anchors, rest.reg)
  }

  /** Across the loop, every anchor either keeps its buttons or gains one new one, and
      no two anchors gain a button for the same link */
  lemma {:induction false} LoopGains(anchors: seq<Anchor>, found: seq<Option<LinkInfo>>, reg: Links, ctx: Context)
    requires |found| == |anchors|
    ensures var r := Loop(anchors, found, reg, ctx);
            Gains(anchors, r.anchors, reg, r.reg) && DistinctGains(anchors, r.anchors)
    decreases |anchors|
  {
    if |anchors| > 0 {
      var a := anchors[0];
      var h := Iteration(a, found[0], reg, ctx);
      var tail := anchors[1..];
      var rest := Loop(tail, found[1..], h.reg, ctx);
      LoopGains(tail, found[1..], h.reg, ctx);
      PassKeepsNew(a, tail, h, rest, reg);
      assert anchors == [a] + tail;
    }
  }

  /** The key of every unmarked anchor with an entry is processed after the loop */
  lemma {:induction false} LoopProcessesKey(anchors: seq<Anchor>, found: seq<Option<LinkInfo>>, reg: Links, ctx: Context, i: nat)
    requires |found| == |anchors| && i < |anchors|
    requires !anchors[i].marked && found[i].Some?
    ensures Processed(Loop(anchors, found, reg, ctx).reg, found[i].value.key)
    decreases i
  {
    var h := Iteration(anchors[0], found[0], reg, ctx);
    var rest := Loop(anchors[1..], found[1..], h.reg, ctx);
    if i > 0 {
      assert anchors[1..][i - 1] == anchors[i] && found[1..][i - 1] == found[i];
      LoopProcessesKey(anchors[1..], found[1..], h.reg, ctx, i - 1);
    }
  }

  /** An unmarked anchor whose key was not processed before the loop gains its button,
      unless an earlier unmarked anchor with an entry has the same key or, as its raw URL
      (under which a submission stores the entry too), that key */
  lemma {:induction false} LoopFirstGains(anchors: seq<Anchor>, found: seq<Option<LinkInfo>>, reg: Links, ctx: Context, i: nat)
    requires |found| == |anchors| && i < |anchors|
    requires !anchors[i].marked && found[i].Some? && !found[i].value.processed
    requires !Processed(reg, found[i].value.key)
    requires forall j :: 0 <= j < i && !anchors[j].marked && found[j].Some? ==>
               found[j].value.key != found[i].value.key && found[j].value.url != found[i].value.key
    ensures Loop(anchors, found, reg, ctx).anchors[i].buttons == anchors[i].buttons + [found[i].value]
    decreases i
  {
    var h := Iteration(anchors[0], found[0], reg, ctx);
    var tail := anchors[1..];
    var rest := Loop(tail, found[1..], h.reg, ctx);
    if i > 0 {
      var key := found[i].value.key;
      assert !Processed(h.reg, key);
      forall j | 0 <= j < i - 1 && !tail[j].marked && found[1..][j].Some?
        ensures found[1..][j].value.key != key && found[1..][j].value.url != key
      {
        assert tail[j] == anchors[j + 1] && found[1..][j] == found[j + 1];
      }
      assert tail[i - 1] == anchors[i] && found[1..][i - 1] == found[i];
      LoopFirstGains(tail, found[1..], h.reg, ctx, i - 1);
    }
  }

  /** The entry each anchor's iteration works with */
  function FoundAll(anchors: seq<Anchor>, ctx: Context): (r: seq<Option<LinkInfo>>)
    ensures |r| == |anchors|
    ensures forall i :: 0 <= i < |anchors| ==> r[i] == Found(anchors[i], ctx)
  {
    if |anchors| == 0 then [] else [Found(anchors[0], ctx)] + FoundAll(anchors[1..], ctx)
  }

  /** findAndProcessLinks' anchor loop. `querySelectorAll('a:not(.netdisk-processed)')`
      is taken before the loop starts and only the anchor in hand changes in an
      iteration, so the anchors visited are exactly those unmarked on entry. Each
      link gets at most one new button in the pass, and none if it was processed
      before */
  function FindAndProcessLinks(anchors: seq<Anchor>, reg: Links, ctx: Context): (r: Page)
    ensures |r.anchors| == |anchors| && Keeps(reg, r.reg)
    ensures forall i :: 0 <= i < |anchors| ==> Outcome(anchors[i], Found(anchors[i], ctx), r.anchors[i])
    ensures Gains(anchors, r.anchors, reg, r.reg) && DistinctGains(anchors, r.anchors)
  {
    LoopGains(anchors, FoundAll(anchors, ctx), reg, ctx);
    Loop(anchors, FoundAll(anchors, ctx), reg, ctx)
  }

  /** After the pass, the link of every anchor it took up is processed under its normalized URL */
  lemma FindAndProcessLinksProcesses(anchors: seq<Anchor>, reg: Links, ctx: Context)
    ensures var r := FindAndProcessLinks(anchors, reg, ctx);
            forall i :: 0 <= i < |anchors| && !anchors[i].marked && Found(anchors[i], ctx).Some? ==>
              Processed(r.reg, NormalizeNetDiskUrl(anchors[i].href))
  {
    var found := FoundAll(anchors, ctx);
    forall i | 0 <= i < |anchors| && !anchors[i].marked && Found(anchors[i], ctx).Some?
      ensures Processed(Loop(anchors, found, reg, ctx).reg, NormalizeNetDiskUrl(anchors[i].href))
    {
      LoopProcessesKey(anchors, found, reg, ctx, i);
    }
  }

  /** The first unmarked anchor of a link that was not processed before the pass gains the
      button for it, provided no earlier unmarked anchor's raw URL is that link's key */
  lemma FindAndProcessLinksFirstGains(anchors: seq<Anchor>, reg: Links, ctx: Context, i: nat)
    requires i < |anchors| && !anchors[i].marked && Found(anchors[i], ctx).Some?
    requires !Processed(reg, NormalizeNetDiskUrl(anchors[i].href))
    requires forall j :: 0 <= j < i && !anchors[j].marked && Found(anchors[j], ctx).Some? ==>
               NormalizeNetDiskUrl(anchors[j].href) != NormalizeNetDiskUrl(anchors[i].href)
               && anchors[j].href != NormalizeNetDiskUrl(anchors[i].href)
    ensures FindAndProcessLinks(anchors, reg, ctx).anchors[i].buttons == anchors[i].buttons + [Found(anchors[i], ctx).value]
  {
    LoopFirstGains(anchors, FoundAll(anchors, ctx), reg, ctx, i);
  }

  /** The buttons a pass adds are for the anchor's own link, under its normalized URL */
  lemma FindAndProcessLinksOwn(anchors: seq<Anchor>, reg: Links, ctx: Context)
    ensures var r := FindAndProcessLinks(anchors, reg, ctx);
            forall i :: 0 <= i < |anchors| ==> OwnButtons(anchors[i], r.anchors[i])
  {
    var r := FindAndProcessLinks(anchors, reg, ctx);
    forall i | 0 <= i < |anchors| ensures OwnButtons(anchors[i], r.anchors[i]) {
      OutcomeOwn(anchors[i], r.anchors[i], ctx);
    }
  }

  /** A button an iteration adds is the anchor's own entry */
  lemma OutcomeOwn(before: Anchor, after: Anchor, ctx: Context)
    requires Outcome(before, Found(before, ctx), after)
    ensures OwnButtons(before, after)
  {
  }

  /** The buttons an anchor gained are for its own link, under its normalized URL */
  predicate OwnButtons(before: Anchor, after: Anchor) {
    forall k :: |before.buttons| <= k < |after.buttons| ==>
      after.buttons[k].url == before.href && after.buttons[k].key == NormalizeNetDiskUrl(before.href)
  }

  /** With `normalizedUrl` set, replaceWithAccessButton uses it as the key */
  lemma ReplaceUsesKey(a: Anchor, info: LinkInfo, reg: Links, ctx: Context)
    requires KeyOf(info) == info.key
    ensures ReplaceWithAccessButton(a, info, reg, ctx) == ReplaceWithKey(a, info, info.key, reg, ctx)
  {
  }

  /** The pass's facts about new buttons, from those of its first anchor and the rest */
  lemma PassKeepsNew(a: Anchor, tail: seq<Anchor>, h: Handled, rest: Page, reg: Links)
    requires Keeps(reg, h.reg) && Keeps(h.reg, rest.reg)
    requires h.anchor.buttons == a.buttons || NewButton(a, h.anchor, reg, h.reg)
    requires Gains(tail, rest.anchors, h.reg, rest.reg) && DistinctGains(tail, rest.anchors)
    ensures Gains([a] + tail, [h.anchor] + rest.anchors, reg, rest.reg)
    ensures DistinctGains([a] + tail, [h.anchor] + rest.anchors)
  {
    var before := [a] + tail;
    var all := [h.anchor] + rest.anchors;
    forall i | 0 <= i < |before| && all[i].buttons != before[i].buttons
      ensures NewButton(before[i], all[i], reg, rest.reg)
    {
      if i == 0 {
        assert NewButton(a, h.anchor, reg, h.reg);
      } else {
        assert all[i] == rest.anchors[i - 1] && before[i] == tail[i - 1];
        assert NewButton(tail[i - 1], rest.anchors[i - 1], h.reg, rest.reg);
      }
    }
    forall i, j | 0 <= i < j < |before| && |all[i].buttons| > |before[i].buttons|
                  && |all[j].buttons| > |before[j].buttons|
      ensures all[i].buttons[|before[i].buttons|].key != all[j].buttons[|before[j].buttons|].key
    {
      assert all[j] == rest.anchors[j - 1] && before[j] == tail[j - 1];
      assert NewButton(tail[j - 1], rest.anchors[j - 1], h.reg, rest.reg);
      if i == 0 {
        // the first anchor's key is processed from then on, so no later anchor gets a button for it
        assert NewButton(a, h.anchor, reg, h.reg);
      } else {
        assert all[i] == rest.anchors[i - 1] && before[i] == tail[i - 1];
      }
    }
  }
}
