/**
 Share links written as plain text inside container elements (`pre`, `code`, `p`,
 `div`, `span`, `td`, `li`, `blockquote`): findAndProcessLinks' container loop and
 checkAndProcessPattern, which rewrites a container's `innerHTML` with a button in
 place of each new link. The rewritten markup is seen as a run of nodes: the
 untouched stretches of the old markup as text, and a button for each link.
 */
module Containers {
  import opened Base
  import opened Regex
  import opened LinkDetector
  import opened Registry
  import opened Dom
  import opened UrlNormalizer
  import opened TextUrls

  /** The link patterns in the order `Object.entries(NETDISK_PATTERNS)` yields them, with
      Baidu's two forms in place of its entry */
  const TableOrder: seq<Pattern> := [BaiduStandard, BaiduInit, Aliyun, Weiyun, Wangpan115, Lanzou, Quark, Pan123]

  lemma TableOrderLinks()
    ensures forall k :: 0 <= k < |TableOrder| ==> IsLinkPattern(TableOrder[k])
  {
  }

  /** Markup that already holds one of the script's buttons or containers */
  predicate HasOurHtml(html: string) {
    Contains(html, "netdisk-link-button") || Contains(html, "netdisk-inline-btn") || Contains(html, "netdisk-container")
  }

  /** `s.charAt(i)`: the character at `i`, or the empty string past the end */
  function CharAt(s: string, i: nat): (r: string)
    ensures i < |s| ==> r == [s[i]]
    ensures i >= |s| ==> r == ""
  {
    if i < |s| then [s[i]] else ""
  }

  /** A quote right before or right after the match: the match is taken for an attribute value */
  predicate Quoted(html: string, m: UrlMatch) {
    var prev := CharAt(html, if m.index > 0 then m.index - 1 else 0);
    var next := CharAt(html, m.index + m.length);
    prev == "\"" || prev == "'" || next == "\"" || next == "'"
  }

  /** The markup around a match that is parsed on its own: up to 50 characters on each side */
  function Window(html: string, m: UrlMatch): string {
    var end := m.index + m.length + 50;
    Substring(html, if m.index >= 50 then m.index - 50 else 0, if end <= |html| then end else |html|)
  }

  /** Whether parsing a fragment of markup yields an `a`, a `button`, one of the script's
      inline buttons or an element marked checked (the `tempDiv.querySelector` test) */
  type Parsed = string -> bool

  /** The tests a match must pass to be collected */
  predicate Kept(html: string, m: UrlMatch, tagged: Parsed) {
    !Quoted(html, m) && !tagged(Window(html, m)) && !Contains(m.url, "<") && !Contains(m.url, ">")
  }

  /** The matches that pass the tests, in order */
  function Filter(ms: seq<UrlMatch>, html: string, tagged: Parsed): (r: seq<UrlMatch>)
    ensures |r| <= |ms|
    ensures forall x :: x in r <==> x in ms && Kept(html, x, tagged)
    decreases |ms|
  {
    if |ms| == 0 then []
    else
      var rest := Filter(ms[1..], html, tagged);
      if Kept(html, ms[0], tagged) then [ms[0]] + rest else rest
  }

  /** Dropping matches keeps the others where they were, in order */
  lemma {:induction false} FilterLaid(ms: seq<UrlMatch>, html: string, tagged: Parsed)
    requires Laid(ms, html)
    ensures Laid(Filter(ms, html, tagged), html)
    decreases |ms|
  {
    if |ms| > 0 {
      var tail := ms[1..];
      assert forall k :: 0 <= k < |tail| ==> tail[k] == ms[k + 1];
      FilterLaid(tail, html, tagged);
      var rest := Filter(tail, html, tagged);
      if Kept(html, ms[0], tagged) {
        var r := [ms[0]] + rest;
        assert forall k :: 0 < k < |r| ==> r[k] == rest[k - 1];
        forall k | 0 <= k < |r| ensures r[k].length == |r[k].url| && OccursAt(r[k].url, html, r[k].index) {
          if k == 0 {
            assert r[0] == ms[0];
          }
        }
        forall k, l | 0 <= k < l < |r| ensures r[k].index + r[k].length <= r[l].index {
          if k == 0 {
            assert r[l] in tail;
            var j :| 0 <= j < |tail| && tail[j] == r[l];
            assert r[l] == ms[j + 1];
          }
        }
        assert Laid(r, html);
      }
    }
  }

  /** The global scan of the markup with the matches that fail a test left out. The scan's
      group 2, when present, is the four-character password, so `match[2] || null` is the
      group itself */
  function KeptMatches(html: string, p: Pattern, tagged: Parsed): (r: seq<UrlMatch>)
    ensures Laid(r, html)
    ensures forall x :: x in r <==> x in ExtractUrlsFromText(html, p) && Kept(html, x, tagged)
  {
    var all := ExtractUrlsFromText(html, p);
    FilterLaid(all, html, tagged);
    Filter(all, html, tagged)
  }

  /** A container after checkAndProcessPattern: its new content, when `innerHTML` was
      assigned, and the registry */
  datatype Rewrite = Rewrite(nodes: Option<seq<Node>>, reg: Links)

  /** A walk that selects no match publishes nothing */
  lemma {:induction false} CollectNoneKeeps(ms: seq<UrlMatch>, n: nat, reg: Links, ctx: Context, entry: Entries)
    requires n <= |ms| && Collect(ms, n, reg, ctx, entry).0 == []
    ensures Collect(ms, n, reg, ctx, entry).1 == reg
    decreases n
  {
    if n > 0 {
      CollectNoneKeeps(ms, n - 1, reg, ctx, entry);
    }
  }

  /** The walk from the last kept match to the first, as written. Each match whose link is
      not processed yet is recorded and published, and `innerHTML` is assigned the ORIGINAL
      markup with that one match replaced by a button; every assignment undoes the one
      before, and only the last, for the first selected match in text order, remains */
  function RewriteAsWritten(ms: seq<UrlMatch>, html: string, reg: Links, ctx: Context, entry: Entries): (r: Rewrite)
    requires Laid(ms, html) && forall m :: entry(m).url == m.url
    ensures r.reg == Collect(ms, |ms|, reg, ctx, entry).1
    ensures Keeps(reg, r.reg)
    ensures r.nodes.None? <==> Collect(ms, |ms|, reg, ctx, entry).0 == []
    ensures r.nodes.None? ==> r.reg == reg
    ensures r.nodes.Some? ==> Shown(r.nodes.value) == html
    ensures r.nodes.Some? ==> Buttons(r.nodes.value) == [entry(ms[Collect(ms, |ms|, reg, ctx, entry).0[0]])]
  {
    var sel := Collect(ms, |ms|, reg, ctx, entry).0;
    var reg1 := Collect(ms, |ms|, reg, ctx, entry).1;
    CollectKeeps(ms, |ms|, reg, ctx, entry);
    if |sel| == 0 then
      CollectNoneKeeps(ms, |ms|, reg, ctx, entry);
      Rewrite(None, reg1)
    else
      var m := ms[sel[0]];
      PiecesOfMatch(ms, html, sel[0], entry(m));
      Rewrite(Some(Pieces(html, m.index, m.length, entry(m))), reg1)
  }

  /** `before + button + after` around a match shows the markup and holds that one button */
  lemma PiecesOfMatch(ms: seq<UrlMatch>, html: string, k: nat, info: LinkInfo)
    requires Laid(ms, html) && k < |ms| && info.url == ms[k].url
    ensures var p := Pieces(html, ms[k].index, ms[k].length, info);
            Shown(p) == html && Buttons(p) == [info]
  {
    var m := ms[k];
    assert OccursAt(m.url, html, m.index) && m.length == |m.url|;
    assert m.url == Substring(html, m.index, m.index + m.length);
  }

  /** The walk as evidently intended: every selected match gets its button, all in one
      rewrite of the markup */
  function RewriteAll(ms: seq<UrlMatch>, html: string, reg: Links, ctx: Context, entry: Entries): (r: Rewrite)
    requires Laid(ms, html) && forall m :: entry(m).url == m.url
    ensures r.reg == Collect(ms, |ms|, reg, ctx, entry).1
    ensures Keeps(reg, r.reg)
    ensures r.nodes.None? <==> Collect(ms, |ms|, reg, ctx, entry).0 == []
    ensures r.nodes.None? ==> r.reg == reg
    ensures r.nodes.Some? ==> Shown(r.nodes.value) == html
    ensures r.nodes.Some? ==>
              var sel := Collect(ms, |ms|, reg, ctx, entry).0;
              && |Buttons(r.nodes.value)| == |sel|
              && forall i :: 0 <= i < |sel| ==> Buttons(r.nodes.value)[i] == entry(ms[sel[i]])
    ensures r.nodes.Some? ==> NewButtons(Buttons(r.nodes.value), ms, entry, reg)
  {
    var sel := Collect(ms, |ms|, reg, ctx, entry).0;
    var reg1 := Collect(ms, |ms|, reg, ctx, entry).1;
    CollectKeeps(ms, |ms|, reg, ctx, entry);
    if |sel| == 0 then
      CollectNoneKeeps(ms, |ms|, reg, ctx, entry);
      Rewrite(None, reg1)
    else
      var cuts := CutsOf(ms, sel, entry);
      SelectedCuts(ms, sel, entry, html, 0);
      SpliceShows(html, 0, cuts);
      SpliceButtons(html, 0, cuts);
      SelectedAreNew(ms, reg, ctx, entry);
      Rewrite(Some(Splice(html, 0, cuts)), reg1)
  }

  /** When the walk selects two links or more, the rewrite as written shows one button while
      the intended one shows them all, and the second selected link is left processed with
      no button anywhere in the container */
  lemma AsWrittenDropsButtons(ms: seq<UrlMatch>, html: string, reg: Links, ctx: Context, entry: Entries)
    requires Laid(ms, html) && forall m :: entry(m).url == m.url
    requires |Collect(ms, |ms|, reg, ctx, entry).0| >= 2
    ensures var sel := Collect(ms, |ms|, reg, ctx, entry).0;
            var shown := Buttons(RewriteAsWritten(ms, html, reg, ctx, entry).nodes.value);
            var lost := entry(ms[sel[1]]).key;
            && |shown| == 1 && |Buttons(RewriteAll(ms, html, reg, ctx, entry).nodes.value)| == |sel|
            && Processed(RewriteAsWritten(ms, html, reg, ctx, entry).reg, lost)
            && forall b :: b in shown ==> b.key != lost
  {
    CollectFresh(ms, |ms|, reg, ctx, entry);
    CollectProcesses(ms, |ms|, reg, ctx, entry);
  }

  /** The walk selects the last two matches when their links are new and different, and the
      last one's raw URL is not the other's key */
  lemma CollectSelectsTwo(ms: seq<UrlMatch>, reg: Links, ctx: Context, entry: Entries)
    requires |ms| >= 2
    requires var il, ip := entry(ms[|ms| - 1]), entry(ms[|ms| - 2]);
             !Processed(reg, il.key) && !Processed(reg, ip.key) && ip.key != il.key && ip.key != il.url
    ensures |Collect(ms, |ms|, reg, ctx, entry).0| >= 2
  {
    var n := |ms|;
    var il, ip := entry(ms[n - 1]), entry(ms[n - 2]);
    var reg1 := Publish(reg[il.key := il], il.key, il, ctx);
    assert !Processed(reg1, ip.key);
    assert Collect(ms, n, reg, ctx, entry).0 == Collect(ms, n - 1, reg1, ctx, entry).0 + [n - 1];
  }

  /** The container text `a b`, for matches of `a` and `b`, rewritten as written with an
      empty registry, shows one button, and the link `b` is processed without one */
  ghost predicate ShowsOneOfTwo(a: string, b: string, ca: string, cb: string, pl: Platform, ctx: Context) {
    var html := a + " " + b;
    var ms := [UrlMatch(a, ca, None, 0, |a|), UrlMatch(b, cb, None, |a| + 1, |b|)];
    var entry := FreshEntries(pl, ctx);
    && Laid(ms, html) && (forall m :: entry(m).url == m.url)
    && var r := RewriteAsWritten(ms, html, map[], ctx, entry);
    && r.nodes.Some? && |Buttons(r.nodes.value)| == 1
    && Processed(r.reg, b) && forall x :: x in Buttons(r.nodes.value) ==> x.key != b
  }

  /** Two different new links side by side, each its own normalized form: as written, the
      second one loses its button */
  lemma TwoNewLinksOneButton(a: string, b: string, ca: string, cb: string, pl: Platform, ctx: Context)
    requires NormalizeNetDiskUrl(a) == a && NormalizeNetDiskUrl(b) == b && a != b
    ensures ShowsOneOfTwo(a, b, ca, cb, pl, ctx)
  {
    var html := a + " " + b;
    var ms := [UrlMatch(a, ca, None, 0, |a|), UrlMatch(b, cb, None, |a| + 1, |b|)];
    var entry := FreshEntries(pl, ctx);
    TwoLaid(a, b, ca, cb);
    assert entry(ms[0]).key == a && entry(ms[1]).key == b && entry(ms[1]).url == b;
    CollectSelectsTwo(ms, map[], ctx, entry);
    var sel := Collect(ms, 2, map[], ctx, entry).0;
    assert sel[1] == 1;
    AsWrittenDropsButtons(ms, html, map[], ctx, entry);
  }

  /** The container text `https://pan.baidu.com/s/1aaaa https://pan.baidu.com/s/1bbbb` with an
      empty registry: as written, one button is shown, and the second link is processed
      without one */
  lemma TwoLinksOneButton(ctx: Context)
    ensures ShowsOneOfTwo(Canonical("1aaaa", None), Canonical("1bbbb", None), "1aaaa", "1bbbb", BaiduPan, ctx)
  {
    var a, b := Canonical("1aaaa", None), Canonical("1bbbb", None);
    TwoCanonical(a, b);
    TwoNewLinksOneButton(a, b, "1aaaa", "1bbbb", BaiduPan, ctx);
  }

  /** Two links separated by a space lie where the matches say */
  lemma TwoLaid(a: string, b: string, ca: string, cb: string)
    ensures Laid([UrlMatch(a, ca, None, 0, |a|), UrlMatch(b, cb, None, |a| + 1, |b|)], a + " " + b)
  {
    var html := a + " " + b;
    assert html[0..|a|] == a;
    assert html[|a| + 1..|a| + 1 + |b|] == b;
  }

  /** The two links of the example are their own normalized forms, and differ */
  lemma TwoCanonical(a: string, b: string)
    requires a == Canonical("1aaaa", None) && b == Canonical("1bbbb", None)
    ensures NormalizeNetDiskUrl(a) == a && NormalizeNetDiskUrl(b) == b && a != b
  {
    assert IsShareCode("1aaaa") && IsShareCode("1bbbb");
    CanonicalFixpoint("1aaaa", None);
    CanonicalFixpoint("1bbbb", None);
    assert a[|a| - 1] == 'a' && b[|b| - 1] == 'b';
  }

  /** checkAndProcessPattern as written, for the pattern `p` of platform `pl`: nothing on
      empty markup or markup that already holds a button of ours (an element found by the
      first `querySelector` test shows its class in its markup, so the markup test covers
      it); otherwise the walk over the kept matches */
  function CheckAndProcessPattern(html: string, p: Pattern, pl: Platform, reg: Links, ctx: Context, tagged: Parsed): (r: Rewrite)
    ensures Keeps(reg, r.reg)
    ensures html == "" || HasOurHtml(html) ==> r == Rewrite(None, reg)
    ensures r.nodes.None? ==> r.reg == reg
    ensures r.nodes.Some? ==> Shown(r.nodes.value) == html && |Buttons(r.nodes.value)| == 1
  {
    if html == "" || HasOurHtml(html) then Rewrite(None, reg)
    else RewriteAsWritten(KeptMatches(html, p, tagged), html, reg, ctx, FreshEntries(pl, ctx))
  }

  /** checkAndProcessPattern as evidently intended: every new link among the kept matches
      gets its button, in place, in one rewrite */
  function CheckAndProcessPatternSpliced(html: string, p: Pattern, pl: Platform, reg: Links, ctx: Context, tagged: Parsed): (r: Rewrite)
    ensures Keeps(reg, r.reg)
    ensures html == "" || HasOurHtml(html) ==> r == Rewrite(None, reg)
    ensures r.nodes.None? ==> r.reg == reg
    ensures r.nodes.Some? ==> Shown(r.nodes.value) == html && |Buttons(r.nodes.value)| > 0
    ensures r.nodes.Some? ==> NewButtons(Buttons(r.nodes.value), KeptMatches(html, p, tagged), FreshEntries(pl, ctx), reg)
    ensures r.nodes.Some? ==>
              var ms := KeptMatches(html, p, tagged);
              var sel := Collect(ms, |ms|, reg, ctx, FreshEntries(pl, ctx)).0;
              && |Buttons(r.nodes.value)| == |sel|
              && forall i :: 0 <= i < |sel| ==> Buttons(r.nodes.value)[i] == FreshEntries(pl, ctx)(ms[sel[i]])
  {
    if html == "" || HasOurHtml(html) then Rewrite(None, reg)
    else RewriteAll(KeptMatches(html, p, tagged), html, reg, ctx, FreshEntries(pl, ctx))
  }

  /** Both versions leave the registry alike: they differ only in the markup */
  lemma PatternSameRegistry(html: string, p: Pattern, pl: Platform, reg: Links, ctx: Context, tagged: Parsed)
    ensures CheckAndProcessPattern(html, p, pl, reg, ctx, tagged).reg == CheckAndProcessPatternSpliced(html, p, pl, reg, ctx, tagged).reg
  {
  }

  /** The link of every kept match ends up processed */
  lemma PatternProcessesAll(html: string, p: Pattern, pl: Platform, reg: Links, ctx: Context, tagged: Parsed)
    requires html != "" && !HasOurHtml(html)
    ensures var ms := KeptMatches(html, p, tagged);
            var r := CheckAndProcessPattern(html, p, pl, reg, ctx, tagged);
            forall k :: 0 <= k < |ms| ==> Processed(r.reg, NormalizeNetDiskUrl(ms[k].url))
  {
    var ms := KeptMatches(html, p, tagged);
    var entry := FreshEntries(pl, ctx);
    var r := RewriteAsWritten(ms, html, reg, ctx, entry);
    assert CheckAndProcessPattern(html, p, pl, reg, ctx, tagged) == r;
    CollectProcesses(ms, |ms|, reg, ctx, entry);
    forall k | 0 <= k < |ms| ensures Processed(r.reg, NormalizeNetDiskUrl(ms[k].url)) {
      assert entry(ms[k]).key == NormalizeNetDiskUrl(ms[k].url);
    }
  }

  /** The calls for the table's patterns on one container. Once a call has rewritten the
      markup, every later call finds `netdisk-inline-btn` in it and returns, so the first
      pattern with a new link decides the container's content */
  function Patterns(html: string, pats: seq<Pattern>, reg: Links, ctx: Context, tagged: Parsed): (r: Rewrite)
    requires forall k :: 0 <= k < |pats| ==> IsLinkPattern(pats[k])
    ensures Keeps(reg, r.reg)
    ensures r.nodes.None? ==> r.reg == reg
    ensures r.nodes.Some? ==> Shown(r.nodes.value) == html && |Buttons(r.nodes.value)| == 1
    decreases |pats|
  {
    if |pats| == 0 then Rewrite(None, reg)
    else
      var r := CheckAndProcessPattern(html, pats[0], PlatformOf(pats[0]), reg, ctx, tagged);
      if r.nodes.Some? then r else Patterns(html, pats[1..], reg, ctx, tagged)
  }

  /** checkAndProcessPattern on fixed markup and registry, as a function of the pattern */
  type Call = Pattern -> Rewrite

  /** The calls on the markup and registry as they are before any of them is made */
  function CallsOn(html: string, reg: Links, ctx: Context, tagged: Parsed): Call {
    p => if IsLinkPattern(p) then CheckAndProcessPattern(html, p, PlatformOf(p), reg, ctx, tagged) else Rewrite(None, reg)
  }

  /** The call for each pattern, in order */
  function Tries(pats: seq<Pattern>, call: Call): (r: seq<Rewrite>)
    ensures |r| == |pats|
    ensures forall k :: 0 <= k < |pats| ==> r[k] == call(pats[k])
    decreases |pats|
  {
    if |pats| == 0 then []
    else
      var rest := Tries(pats[1..], call);
      var r := [call(pats[0])] + rest;
      assert forall k :: 1 <= k < |r| ==> r[k] == rest[k - 1];
      r
  }

  /** The first rewrite among `tries`, or nothing */
  function FirstRewrite(tries: seq<Rewrite>, reg: Links): (r: Rewrite)
    ensures r.nodes.Some? ==>
              exists k :: 0 <= k < |tries| && r == tries[k] && forall j :: 0 <= j < k ==> tries[j].nodes.None?
    ensures r.nodes.None? ==> r == Rewrite(None, reg) && forall k :: 0 <= k < |tries| ==> tries[k].nodes.None?
    decreases |tries|
  {
    if |tries| == 0 then Rewrite(None, reg)
    else if tries[0].nodes.Some? then tries[0]
    else
      var rest := FirstRewrite(tries[1..], reg);
      assert forall k :: 1 <= k < |tries| ==> tries[k] == tries[1..][k - 1];
      rest
  }

  /** The calls in turn, each on the registry the one before left, are the first of the calls
      all made on the registry as it was: a call that does not rewrite changes nothing */
  lemma {:induction false} PatternsIsFirst(html: string, pats: seq<Pattern>, reg: Links, ctx: Context, tagged: Parsed)
    requires forall k :: 0 <= k < |pats| ==> IsLinkPattern(pats[k])
    ensures Patterns(html, pats, reg, ctx, tagged) == FirstRewrite(Tries(pats, CallsOn(html, reg, ctx, tagged)), reg)
    decreases |pats|
  {
    if |pats| > 0 {
      var call := CallsOn(html, reg, ctx, tagged);
      var tries := Tries(pats, call);
      assert tries[1..] == Tries(pats[1..], call);
      assert tries[0] == CheckAndProcessPattern(html, pats[0], PlatformOf(pats[0]), reg, ctx, tagged);
      PatternsIsFirst(html, pats[1..], reg, ctx, tagged);
    }
  }

  /** A container element: whether it carries `data-netdisk-checked="true"`, whether it holds
      or is one of the script's buttons or containers, its `innerText` and its `innerHTML` */
  datatype Container = Container(checked: bool, ours: bool, innerText: string, html: string)

  /** A container after its iteration, its new content when rewritten, and the registry */
  datatype Visited = Visited(container: Container, nodes: Option<seq<Node>>, reg: Links)

  /** One iteration of the container loop: a checked container is not selected; any other one
      is marked checked, and unless it is ours or shows no text, the table's patterns run on
      its markup */
  function ContainerStep(c: Container, reg: Links, ctx: Context, tagged: Parsed): (r: Visited)
    ensures r.container == c.(checked := true) && Keeps(reg, r.reg)
    ensures c.checked || c.ours || c.innerText == "" ==> r == Visited(c.(checked := true), None, reg)
    ensures r.nodes.None? ==> r.reg == reg
    ensures r.nodes.Some? ==> Shown(r.nodes.value) == c.html && |Buttons(r.nodes.value)| == 1
  {
    if c.checked || c.ours || c.innerText == "" then Visited(c.(checked := true), None, reg)
    else
      TableOrderLinks();
      var w := Patterns(c.html, TableOrder, reg, ctx, tagged);
      Visited(c.(checked := true), w.nodes, w.reg)
  }

  /** A container is handled once: after its iteration it is never rewritten again */
  lemma ContainerOnce(c: Container, reg: Links, reg2: Links, ctx: Context, tagged: Parsed)
    ensures var v := ContainerStep(c, reg, ctx, tagged);
            ContainerStep(v.container, reg2, ctx, tagged) == Visited(v.container, None, reg2)
  {
  }

  /** The containers after the loop, each with its new content when rewritten, and the registry */
  datatype Sweep = Sweep(visited: seq<Visited>, reg: Links)

  /** The container loop over the containers in the order the tag loop reaches them. Each
      one is taken as it stands before the loop: a rewrite of one container is not seen by
      the containers nested in it */
  function ContainerLoop(cs: seq<Container>, reg: Links, ctx: Context, tagged: Parsed): (r: Sweep)
    ensures |r.visited| == |cs| && Keeps(reg, r.reg)
    ensures forall i :: 0 <= i < |cs| ==> r.visited[i].container == cs[i].(checked := true)
    ensures forall i :: 0 <= i < |cs| && r.visited[i].nodes.Some? ==>
              && !cs[i].checked && !cs[i].ours && cs[i].innerText != ""
              && Shown(r.visited[i].nodes.value) == cs[i].html && |Buttons(r.visited[i].nodes.value)| == 1
    decreases |cs|
  {
    if |cs| == 0 then Sweep([], reg)
    else
      var v := ContainerStep(cs[0], reg, ctx, tagged);
      var rest := ContainerLoop(cs[1..], v.reg, ctx, tagged);
      KeepsTrans(reg, v.reg, rest.reg);
      var r := Sweep([v] + rest.visited, rest.reg);
      assert forall i :: 1 <= i < |cs| ==> cs[i] == cs[1..][i - 1] && r.visited[i] == rest.visited[i - 1];
      r
  }

  /** The containers of a sweep, as the next sweep finds them */
  function Containers(vs: seq<Visited>): (r: seq<Container>)
    ensures |r| == |vs| && forall i :: 0 <= i < |vs| ==> r[i] == vs[i].container
    decreases |vs|
  {
    if |vs| == 0 then []
    else
      var rest := Containers(vs[1..]);
      var r := [vs[0].container] + rest;
      assert forall i :: 1 <= i < |r| ==> r[i] == rest[i - 1];
      r
  }

  /** A second sweep over the same containers rewrites nothing and leaves the registry as it
      is: every container is marked checked by the first */
  lemma {:induction false} SweepOnce(cs: seq<Container>, reg: Links, reg2: Links, ctx: Context, tagged: Parsed)
    ensures var again := ContainerLoop(Containers(ContainerLoop(cs, reg, ctx, tagged).visited), reg2, ctx, tagged);
            && again.reg == reg2
            && forall i :: 0 <= i < |cs| ==> again.visited[i].nodes.None?
    decreases |cs|
  {
    var first := ContainerLoop(cs, reg, ctx, tagged);
    var ds := Containers(first.visited);
    assert forall i :: 0 <= i < |ds| ==> ds[i].checked;
    AllCheckedQuiet(ds, reg2, ctx, tagged);
  }

  /** A sweep over checked containers only changes nothing */
  lemma {:induction false} AllCheckedQuiet(cs: seq<Container>, reg: Links, ctx: Context, tagged: Parsed)
    requires forall i :: 0 <= i < |cs| ==> cs[i].checked
    ensures var r := ContainerLoop(cs, reg, ctx, tagged);
            r.reg == reg && forall i :: 0 <= i < |cs| ==> r.visited[i].nodes.None?
    decreases |cs|
  {
    if |cs| > 0 {
      var rest := cs[1..];
      assert forall i :: 0 <= i < |rest| ==> rest[i] == cs[i + 1];
      AllCheckedQuiet(rest, reg, ctx, tagged);
    }
  }
}
