/**
 Plain-text links in text nodes: extractUrlsFromText, processTextMatches and
 replaceTextNodeUrl, each as the content script has it, next to a version that
 splits the node in place and handles every match of the node.
 */
module TextUrls {
  import opened Base
  import opened Regex
  import opened LinkDetector
  import opened UrlNormalizer
  import opened Passwords
  import opened Registry
  import opened Dom

  /** One object of extractUrlsFromText's result */
  datatype UrlMatch = UrlMatch(url: string, code: string, password: Option<string>, index: nat, length: nat)

  /** The matches lie in `text` where they say, in order, without overlapping */
  predicate Laid(ms: seq<UrlMatch>, text: string) {
    && (forall k :: 0 <= k < |ms| ==> ms[k].length == |ms[k].url| && OccursAt(ms[k].url, text, ms[k].index))
    && (forall k, l :: 0 <= k < l < |ms| ==> ms[k].index + ms[k].length <= ms[l].index)
  }

  /** The matches `occs` of a global scan of `text` as extractUrlsFromText reports them */
  function UrlMatchesOf(text: string, occs: seq<Occ>): (r: seq<UrlMatch>)
    requires forall k :: 0 <= k < |occs| ==> occs[k].index < occs[k].hit.end <= |text|
    ensures |r| == |occs|
    ensures forall k :: 0 <= k < |r| ==> r[k].index == occs[k].index && r[k].index + r[k].length == occs[k].hit.end
    ensures forall k :: 0 <= k < |r| ==> r[k].code == occs[k].hit.group1 && r[k].password == occs[k].hit.group2
    ensures forall k :: 0 <= k < |r| ==> r[k].length == |r[k].url| > 0 && OccursAt(r[k].url, text, r[k].index)
  {
    seq(|occs|, k requires 0 <= k < |occs| =>
      UrlMatch(text[occs[k].index..occs[k].hit.end], occs[k].hit.group1, occs[k].hit.group2,
               occs[k].index, occs[k].hit.end - occs[k].index))
  }

  /** The matches of a global scan lie inside the text */
  lemma ScanBounds(p: Pattern, text: string)
    ensures var occs := AllMatches(p, text);
            forall k :: 0 <= k < |occs| ==> occs[k].index < occs[k].hit.end <= |text|
  {
    ProperM(p, text);
    var m := M(p);
    var occs := AllFrom(m, text, 0);
    assert occs == AllMatches(p, text);
    forall k | 0 <= k < |occs| ensures occs[k].index < occs[k].hit.end <= |text| {
      assert m(text, occs[k].index) == Some(occs[k].hit);
    }
  }

  /** extractUrlsFromText: the matches of the global scan of `p`, in order, each with its text,
      groups and place */
  function ExtractUrlsFromText(text: string, p: Pattern): (r: seq<UrlMatch>)
    ensures |r| == |AllMatches(p, text)| && Laid(r, text)
    ensures forall k :: 0 <= k < |r| ==>
              var o := AllMatches(p, text)[k];
              && r[k].index == o.index && r[k].index + r[k].length == o.hit.end
              && r[k].code == o.hit.group1 && r[k].password == o.hit.group2
  {
    var occs := AllMatches(p, text);
    ScanBounds(p, text);
    UrlMatchesOf(text, occs)
  }

  /** Each reported match is a match of `p` at its place, with its groups */
  lemma ExtractHits(text: string, p: Pattern, k: nat)
    requires k < |ExtractUrlsFromText(text, p)|
    ensures var u := ExtractUrlsFromText(text, p)[k];
            MatchAt(p, text, u.index) == Some(Hit(u.index + u.length, u.code, u.password))
  {
    ProperM(p, text);
    var m := M(p);
    var occs := AllFrom(m, text, 0);
    assert occs == AllMatches(p, text);
    assert m(text, occs[k].index) == Some(occs[k].hit);
  }

  /** `p` matches nowhere outside the reported matches */
  lemma ExtractCovers(text: string, p: Pattern, j: nat)
    requires j < |text| && MatchAt(p, text, j).Some?
    ensures var r := ExtractUrlsFromText(text, p);
            exists k :: 0 <= k < |r| && r[k].index <= j < r[k].index + r[k].length
  {
    ProperM(p, text);
    var m := M(p);
    var occs := AllFrom(m, text, 0);
    var r := ExtractUrlsFromText(text, p);
    assert occs == AllMatches(p, text);
    assert m(text, j).Some?;
    assert Covers(occs, j);
    var k :| 0 <= k < |occs| && occs[k].index <= j < occs[k].hit.end;
    assert r[k].index <= j < r[k].index + r[k].length;
  }

  /** The entry created for a match of platform `pl`: the password in the link, or else the
      guess for the normalized URL */
  function Fresh(m: UrlMatch, pl: Platform, ctx: Context): (info: LinkInfo)
    ensures info.url == m.url && info.key == NormalizeNetDiskUrl(m.url) && !info.processed && !info.submitted
    ensures info.password == if m.password.Some? then m.password
                             else FindPasswordForLink(info.key, ctx.pageText, Some(ctx.candidates))
  {
    var key := NormalizeNetDiskUrl(m.url);
    var password := if m.password.Some? then m.password else FindPasswordForLink(key, ctx.pageText, Some(ctx.candidates));
    LinkInfo(m.url, key, TypeKey(pl), DisplayName(pl), password, false, false)
  }

  /** How a pass builds the entry of each match (`Fresh` for the real one) */
  type Entries = UrlMatch -> LinkInfo

  /** The entries of a real pass over matches of platform `pl` */
  function FreshEntries(pl: Platform, ctx: Context): Entries {
    m => Fresh(m, pl, ctx)
  }

  /** `linkInfo.normalizedUrl || normalizeNetDiskUrl(linkInfo.url)`: for a fresh entry, its key */
  lemma FreshKey(m: UrlMatch, pl: Platform, ctx: Context)
    ensures var info := Fresh(m, pl, ctx);
            (if info.key != "" then info.key else NormalizeNetDiskUrl(info.url)) == info.key
  {
  }

  /** A pass over one text node: its parent's children, the node's position among them while
      it is attached, the registry, and whether a TypeError has ended the pass */
  datatype Pass = Pass(children: seq<Node>, at: Option<nat>, reg: Links, thrown: bool)

  /** The text node holding `value` is where `at` says */
  predicate Placed(st: Pass, value: string) {
    st.at.Some? ==> st.at.value < |st.children| && st.children[st.at.value] == Text(value)
  }
  /** The nodes a replacement puts where the link was (`Pieces` for the real one) */
  type Layout = (string, nat, nat, LinkInfo) -> seq<Node>

  /** replaceTextNodeUrl as written, with `key` the entry's key
      (`linkInfo.normalizedUrl || normalizeNetDiskUrl(linkInfo.url)`, see `FreshKey`) and
      `layout` the split of the text: the node is removed and its replacement (a plain copy
      when the link is already processed, otherwise the split) is appended at the END of the
      parent; on a detached node `parentNode` is null and the call throws */
  function ReplaceWith(value: string, st: Pass, start: nat, len: nat, info: LinkInfo, key: string, ctx: Context, layout: Layout): (r: Pass)
    requires Placed(st, value)
    ensures r.at.None?
    ensures st.at.None? ==> r == st.(thrown := true)
    ensures st.at.Some? ==> r.thrown == st.thrown
    ensures Keeps(st.reg, r.reg)
    ensures st.at.Some? && Processed(st.reg, key) ==> r.reg == st.reg
    ensures st.at.Some? && !Processed(st.reg, key) ==> Processed(r.reg, key)
  {
    match st.at
    case None => st.(thrown := true)
    case Some(pos) =>
      var rest := Remove(st.children, pos);
      if Processed(st.reg, key) then st.(children := rest + [Text(value)], at := None)
      else st.(children := rest + layout(value, start, len, info), at := None, reg := Publish(st.reg, key, info, ctx))
  }

  /** replaceTextNodeUrl, splitting the text into before-text, button and after-text */
  function ReplaceTextNodeUrl(value: string, st: Pass, start: nat, len: nat, info: LinkInfo, key: string, ctx: Context): (r: Pass)
    requires Placed(st, value)
  {
    ReplaceWith(value, st, start, len, info, key, ctx, Pieces)
  }

  /** What the as-written replacement leaves in the parent: the other children in order, then
      the node's text, with a button for `info` unless its link was already processed */
  lemma ReplacedChildren(value: string, st: Pass, start: nat, len: nat, info: LinkInfo, key: string, ctx: Context)
    requires Placed(st, value) && st.at.Some?
    ensures var r := ReplaceTextNodeUrl(value, st, start, len, info, key, ctx);
            var rest := Remove(st.children, st.at.value);
            && (Processed(st.reg, key) ==> Buttons(r.children) == Buttons(rest))
            && (!Processed(st.reg, key) ==> Buttons(r.children) == Buttons(rest) + [info])
            && (info.url == Substring(value, start, start + len) ==> Shown(r.children) == Shown(rest) + value)
  {
    var rest := Remove(st.children, st.at.value);
    var added := if Processed(st.reg, key) then [Text(value)] else Pieces(value, start, len, info);
    assert ReplaceTextNodeUrl(value, st, start, len, info, key, ctx).children == rest + added;
    assert Shown([Text(value)]) == value && Buttons([Text(value)]) == [] by {
      assert [Text(value)][1..] == [];
    }
    ShownConcat(rest, added);
    ButtonsConcat(rest, added);
  }

  /** The text the as-written replacement leaves: whatever followed the node now comes before
      its text, so a sibling showing text after the node reorders the paragraph */
  lemma AppendedTextMoves(value: string, st: Pass, start: nat, len: nat, info: LinkInfo, key: string, ctx: Context)
    requires Placed(st, value) && st.at.Some?
    requires info.url == Substring(value, start, start + len)
    ensures var pos := st.at.value;
            && Shown(st.children) == Shown(st.children[..pos]) + value + Shown(st.children[pos + 1..])
            && Shown(ReplaceTextNodeUrl(value, st, start, len, info, key, ctx).children)
               == Shown(st.children[..pos]) + Shown(st.children[pos + 1..]) + value
  {
    var pos := st.at.value;
    ShownAround(st.children, pos);
    ShownConcat(st.children[..pos], st.children[pos + 1..]);
    ReplacedChildren(value, st, start, len, info, key, ctx);
  }

  /** `<p>L<b>!</b></p>` with the link `L` in the paragraph's text node: the page reads `!L`
      afterwards instead of `L!` */
  lemma AppendReordersExample(info: LinkInfo, ctx: Context)
    requires info.url == "L"
    ensures var st := Pass([Text("L"), Element("b", "!")], Some(0), map[], false);
            var r := ReplaceTextNodeUrl("L", st, 0, 1, info, "L", ctx);
            Shown(st.children) == "L!" && Shown(r.children) == "!L"
  {
    var st := Pass([Text("L"), Element("b", "!")], Some(0), map[], false);
    AppendedTextMoves("L", st, 0, 1, info, "L", ctx);
    assert st.children[..0] == [] && st.children[1..] == [Element("b", "!")];
    assert Shown([Element("b", "!")]) == "!" by { assert [Element("b", "!")][1..] == []; }
  }

  /** replaceTextNodeUrl as evidently intended: the replacement takes the node's place */
  function ReplaceInPlace(value: string, st: Pass, start: nat, len: nat, info: LinkInfo, key: string, ctx: Context): (r: Pass)
    requires Placed(st, value)
    ensures Placed(r, value)
    ensures st.at.None? ==> r == st.(thrown := true)
    ensures st.at.Some? ==> r.thrown == st.thrown && Keeps(st.reg, r.reg)
    ensures st.at.Some? && info.url == Substring(value, start, start + len) ==> Shown(r.children) == Shown(st.children)
    ensures st.at.Some? && Processed(st.reg, key) ==> r.children == st.children && r.reg == st.reg
    ensures st.at.Some? && !Processed(st.reg, key) ==>
              var pos := st.at.value;
              && Processed(r.reg, key) && r.at.None?
              && Buttons(r.children) == Buttons(st.children[..pos]) + [info] + Buttons(st.children[pos + 1..])
  {
    match st.at
    case None => st.(thrown := true)
    case Some(pos) =>
      ShownAround(st.children, pos);
      if Processed(st.reg, key) then st
      else
        var ns := Pieces(value, start, len, info);
        st.(children := ReplaceAt(st.children, pos, ns), at := None, reg := Publish(st.reg, key, info, ctx))
  }

  /** The `for (let i = matches.length - 1; i >= 0; i--)` loop of processTextMatches with
      `ms[..n]` still to do and `entry` building each match's entry: an entry already
      processed is skipped, otherwise it is stored and its text replaced; a TypeError ends
      the pass */
  function MatchLoop(ms: seq<UrlMatch>, n: nat, value: string, st: Pass, ctx: Context, entry: Entries, layout: Layout): (r: Pass)
    requires n <= |ms| && Placed(st, value)
    ensures Placed(r, value)
    ensures st.thrown ==> r == st
    ensures st.at.None? ==> r.children == st.children
    decreases n
  {
    if n == 0 || st.thrown then st
    else
      var m := ms[n - 1];
      var info := entry(m);
      if Processed(st.reg, info.key) then MatchLoop(ms, n - 1, value, st, ctx, entry, layout)
      else
        var st1 := st.(reg := st.reg[info.key := info]);
        MatchLoop(ms, n - 1, value, ReplaceWith(value, st1, m.index, m.length, info, info.key, ctx, layout), ctx, entry, layout)
  }

  /** The loop keeps every processed entry */
  lemma LoopKeeps(ms: seq<UrlMatch>, n: nat, value: string, st: Pass, ctx: Context, entry: Entries, layout: Layout)
    requires n <= |ms| && Placed(st, value)
    ensures Keeps(st.reg, MatchLoop(ms, n, value, st, ctx, entry, layout).reg)
  {
    forall k | Processed(st.reg, k) ensures Processed(MatchLoop(ms, n, value, st, ctx, entry, layout).reg, k) {
      LoopKeepsKey(ms, n, value, st, ctx, entry, layout, k);
    }
  }

  lemma {:induction false} LoopKeepsKey(ms: seq<UrlMatch>, n: nat, value: string, st: Pass, ctx: Context, entry: Entries, layout: Layout, k: string)
    requires n <= |ms| && Placed(st, value) && Processed(st.reg, k)
    ensures Processed(MatchLoop(ms, n, value, st, ctx, entry, layout).reg, k)
    decreases n
  {
    if n > 0 && !st.thrown {
      var m := ms[n - 1];
      var info := entry(m);
      if Processed(st.reg, info.key) {
        LoopKeepsKey(ms, n - 1, value, st, ctx, entry, layout, k);
      } else {
        var st1 := st.(reg := st.reg[info.key := info]);
        var st2 := ReplaceWith(value, st1, m.index, m.length, info, info.key, ctx, layout);
        assert Processed(st2.reg, k) by {
          assert Processed(st1.reg, k);
        }
        LoopKeepsKey(ms, n - 1, value, st2, ctx, entry, layout, k);
      }
    }
  }

  /** Unless a TypeError ends it, the loop leaves the link of every match processed */
  lemma LoopProcesses(ms: seq<UrlMatch>, n: nat, value: string, st: Pass, ctx: Context, entry: Entries, layout: Layout)
    requires n <= |ms| && Placed(st, value)
    ensures var r := MatchLoop(ms, n, value, st, ctx, entry, layout);
            !r.thrown ==> forall k :: 0 <= k < n ==> Processed(r.reg, entry(ms[k]).key)
  {
    var r := MatchLoop(ms, n, value, st, ctx, entry, layout);
    forall k | 0 <= k < n && !r.thrown ensures Processed(r.reg, entry(ms[k]).key) {
      LoopProcessesMatch(ms, n, value, st, ctx, entry, layout, k);
    }
  }

  lemma {:induction false} LoopProcessesMatch(ms: seq<UrlMatch>, n: nat, value: string, st: Pass, ctx: Context, entry: Entries, layout: Layout, k: nat)
    requires n <= |ms| && Placed(st, value) && k < n
    ensures var r := MatchLoop(ms, n, value, st, ctx, entry, layout);
            !r.thrown ==> Processed(r.reg, entry(ms[k]).key)
    decreases n
  {
    if !st.thrown {
      var m := ms[n - 1];
      var info := entry(m);
      if Processed(st.reg, info.key) {
        if k < n - 1 {
          LoopProcessesMatch(ms, n - 1, value, st, ctx, entry, layout, k);
        } else {
          LoopKeepsKey(ms, n - 1, value, st, ctx, entry, layout, info.key);
        }
      } else {
        var st1 := st.(reg := st.reg[info.key := info]);
        var st2 := ReplaceWith(value, st1, m.index, m.length, info, info.key, ctx, layout);
        if k < n - 1 {
          LoopProcessesMatch(ms, n - 1, value, st2, ctx, entry, layout, k);
        } else if !st2.thrown {
          assert Processed(st2.reg, info.key);
          LoopKeepsKey(ms, n - 1, value, st2, ctx, entry, layout, info.key);
        }
      }
    }
  }

  /** processTextMatches as written, for the matches `ms` of platform `pl` in the text node
      holding `value`: nothing happens without matches, on a detached node or for a disabled
      platform; otherwise, unless a TypeError ends it, the link of every match is processed */
  function ProcessTextMatches(ms: seq<UrlMatch>, pl: Platform, value: string, st: Pass, ctx: Context): (r: Pass)
    requires Placed(st, value)
    ensures Placed(r, value) && Keeps(st.reg, r.reg)
    ensures |ms| == 0 || st.at.None? || !IsNetDiskTypeEnabled(TypeKey(pl), ctx.settings) ==> r == st
    ensures st.at.Some? && IsNetDiskTypeEnabled(TypeKey(pl), ctx.settings) && !r.thrown ==>
              forall k :: 0 <= k < |ms| ==> Processed(r.reg, NormalizeNetDiskUrl(ms[k].url))
  {
    if |ms| == 0 || st.at.None? || !IsNetDiskTypeEnabled(TypeKey(pl), ctx.settings) then st
    else
      var entry := FreshEntries(pl, ctx);
      LoopKeeps(ms, |ms|, value, st, ctx, entry, Pieces);
      LoopProcesses(ms, |ms|, value, st, ctx, entry, Pieces);
      MatchLoop(ms, |ms|, value, st, ctx, entry, Pieces)
  }

  /** Two unprocessed links in one text node: the later one detaches the node, and the earlier
      one then reaches `parentNode.removeChild` with a null parent */
  lemma LoopThrows(ms: seq<UrlMatch>, value: string, st: Pass, ctx: Context, entry: Entries, layout: Layout)
    requires Placed(st, value) && st.at.Some? && !st.thrown && |ms| >= 2
    requires var il, ip := entry(ms[|ms| - 1]), entry(ms[|ms| - 2]);
             !Processed(st.reg, il.key) && !Processed(st.reg, ip.key) && ip.key != il.key && ip.key != il.url
    ensures MatchLoop(ms, |ms|, value, st, ctx, entry, layout).thrown
  {
    var n := |ms|;
    var last, prev := ms[n - 1], ms[n - 2];
    var il, ip := entry(last), entry(prev);
    var st1 := st.(reg := st.reg[il.key := il]);
    var st2 := ReplaceWith(value, st1, last.index, last.length, il, il.key, ctx, layout);
    assert MatchLoop(ms, n, value, st, ctx, entry, layout) == MatchLoop(ms, n - 1, value, st2, ctx, entry, layout);
    assert !Processed(st2.reg, ip.key);
    var st3 := ReplaceWith(value, st2.(reg := st2.reg[ip.key := ip]), prev.index, prev.length, ip, ip.key, ctx, layout);
    assert st3.thrown;
    assert MatchLoop(ms, n - 1, value, st2, ctx, entry, layout) == MatchLoop(ms, n - 2, value, st3, ctx, entry, layout);
  }

  /** processTextMatches on a node whose last two matches are different links not yet
      processed ends in a TypeError */
  lemma SecondMatchThrows(ms: seq<UrlMatch>, pl: Platform, value: string, st: Pass, ctx: Context)
    requires Placed(st, value) && st.at.Some? && !st.thrown
    requires IsNetDiskTypeEnabled(TypeKey(pl), ctx.settings) && |ms| >= 2
    requires var last, prev := ms[|ms| - 1], ms[|ms| - 2];
             var kl, kp := NormalizeNetDiskUrl(last.url), NormalizeNetDiskUrl(prev.url);
             !Processed(st.reg, kl) && !Processed(st.reg, kp) && kp != kl && kp != last.url
    ensures ProcessTextMatches(ms, pl, value, st, ctx).thrown
  {
    var entry := FreshEntries(pl, ctx);
    var n := |ms|;
    assert entry(ms[n - 1]).key == NormalizeNetDiskUrl(ms[n - 1].url) && entry(ms[n - 1]).url == ms[n - 1].url;
    assert entry(ms[n - 2]).key == NormalizeNetDiskUrl(ms[n - 2].url);
    LoopThrows(ms, value, st, ctx, entry, Pieces);
  }

  /** The text node `https://pan.baidu.com/s/1aaaa https://pan.baidu.com/s/1bbbb`, alone in
      its parent, with an empty registry: processing its two matches throws */
  lemma TwoLinksExample(ctx: Context)
    requires IsNetDiskTypeEnabled("baidu", ctx.settings)
    ensures var a, b := Canonical("1aaaa", None), Canonical("1bbbb", None);
            var value := a + " " + b;
            var ms := [UrlMatch(a, "1aaaa", None, 0, |a|), UrlMatch(b, "1bbbb", None, |a| + 1, |b|)];
            ProcessTextMatches(ms, BaiduPan, value, Pass([Text(value)], Some(0), map[], false), ctx).thrown
  {
    var a, b := Canonical("1aaaa", None), Canonical("1bbbb", None);
    assert IsShareCode("1aaaa") && IsShareCode("1bbbb");
    CanonicalFixpoint("1aaaa", None);
    CanonicalFixpoint("1bbbb", None);
    assert a != b by { assert a[|a| - 1] == 'a' && b[|b| - 1] == 'b'; }
    var value := a + " " + b;
    var ms := [UrlMatch(a, "1aaaa", None, 0, |a|), UrlMatch(b, "1bbbb", None, |a| + 1, |b|)];
    SecondMatchThrows(ms, BaiduPan, value, Pass([Text(value)], Some(0), map[], false), ctx);
  }

  /** The matches the last-to-first walk gives a button, in text order, and the registry after
      publishing each; the splitting is left to the caller */
  function Collect(ms: seq<UrlMatch>, n: nat, reg: Links, ctx: Context, entry: Entries): (r: (seq<nat>, Links))
    requires n <= |ms|
    ensures |r.0| <= n
    ensures forall i :: 0 <= i < |r.0| ==> r.0[i] < n
    ensures forall i, j :: 0 <= i < j < |r.0| ==> r.0[i] < r.0[j]
    decreases n
  {
    if n == 0 then ([], reg)
    else
      var info := entry(ms[n - 1]);
      if Processed(reg, info.key) then Collect(ms, n - 1, reg, ctx, entry)
      else
        var rest := Collect(ms, n - 1, Publish(reg[info.key := info], info.key, info, ctx), ctx, entry);
        (rest.0 + [n - 1], rest.1)
  }

  /** The walk keeps every processed entry */
  lemma CollectKeeps(ms: seq<UrlMatch>, n: nat, reg: Links, ctx: Context, entry: Entries)
    requires n <= |ms|
    ensures Keeps(reg, Collect(ms, n, reg, ctx, entry).1)
  {
    forall k | Processed(reg, k) ensures Processed(Collect(ms, n, reg, ctx, entry).1, k) {
      CollectKeepsKey(ms, n, reg, ctx, entry, k);
    }
  }

  lemma {:induction false} CollectKeepsKey(ms: seq<UrlMatch>, n: nat, reg: Links, ctx: Context, entry: Entries, k: string)
    requires n <= |ms| && Processed(reg, k)
    ensures Processed(Collect(ms, n, reg, ctx, entry).1, k)
    decreases n
  {
    if n > 0 {
      var info := entry(ms[n - 1]);
      if Processed(reg, info.key) {
        CollectKeepsKey(ms, n - 1, reg, ctx, entry, k);
      } else {
        var reg1 := Publish(reg[info.key := info], info.key, info, ctx);
        assert Processed(reg1, k) by {
          assert Processed(reg[info.key := info], k);
        }
        CollectKeepsKey(ms, n - 1, reg1, ctx, entry, k);
      }
    }
  }

  /** The walk leaves the link of every match processed */
  lemma CollectProcesses(ms: seq<UrlMatch>, n: nat, reg: Links, ctx: Context, entry: Entries)
    requires n <= |ms|
    ensures forall k :: 0 <= k < n ==> Processed(Collect(ms, n, reg, ctx, entry).1, entry(ms[k]).key)
  {
    forall k | 0 <= k < n ensures Processed(Collect(ms, n, reg, ctx, entry).1, entry(ms[k]).key) {
      CollectProcessesMatch(ms, n, reg, ctx, entry, k);
    }
  }

  lemma {:induction false} CollectProcessesMatch(ms: seq<UrlMatch>, n: nat, reg: Links, ctx: Context, entry: Entries, k: nat)
    requires k < n <= |ms|
    ensures Processed(Collect(ms, n, reg, ctx, entry).1, entry(ms[k]).key)
    decreases n
  {
    var info := entry(ms[n - 1]);
    if Processed(reg, info.key) {
      if k < n - 1 {
        CollectProcessesMatch(ms, n - 1, reg, ctx, entry, k);
      } else {
        CollectKeepsKey(ms, n - 1, reg, ctx, entry, info.key);
      }
    } else {
      var reg1 := Publish(reg[info.key := info], info.key, info, ctx);
      if k < n - 1 {
        CollectProcessesMatch(ms, n - 1, reg1, ctx, entry, k);
      } else {
        CollectKeepsKey(ms, n - 1, reg1, ctx, entry, info.key);
      }
    }
  }

  /** The walk picks only links not yet processed, and no link twice */
  lemma CollectFresh(ms: seq<UrlMatch>, n: nat, reg: Links, ctx: Context, entry: Entries)
    requires n <= |ms|
    ensures forall i :: 0 <= i < |Collect(ms, n, reg, ctx, entry).0| ==>
              !Processed(reg, entry(ms[Collect(ms, n, reg, ctx, entry).0[i]]).key)
    ensures forall i, j :: 0 <= i < j < |Collect(ms, n, reg, ctx, entry).0| ==>
              entry(ms[Collect(ms, n, reg, ctx, entry).0[i]]).key != entry(ms[Collect(ms, n, reg, ctx, entry).0[j]]).key
  {
    CollectUnprocessed(ms, n, reg, ctx, entry);
    CollectDistinct(ms, n, reg, ctx, entry);
  }

  lemma {:induction false} CollectUnprocessed(ms: seq<UrlMatch>, n: nat, reg: Links, ctx: Context, entry: Entries)
    requires n <= |ms|
    ensures forall i :: 0 <= i < |Collect(ms, n, reg, ctx, entry).0| ==>
              !Processed(reg, entry(ms[Collect(ms, n, reg, ctx, entry).0[i]]).key)
    decreases n
  {
    if n > 0 {
      var info := entry(ms[n - 1]);
      if Processed(reg, info.key) {
        CollectUnprocessed(ms, n - 1, reg, ctx, entry);
      } else {
        var reg1 := Publish(reg[info.key := info], info.key, info, ctx);
        var rest := Collect(ms, n - 1, reg1, ctx, entry).0;
        var sel := rest + [n - 1];
        assert Collect(ms, n, reg, ctx, entry).0 == sel;
        CollectUnprocessed(ms, n - 1, reg1, ctx, entry);
        forall i | 0 <= i < |sel| ensures !Processed(reg, entry(ms[sel[i]]).key) {
          if i < |rest| {
            var key := entry(ms[rest[i]]).key;
            assert sel[i] == rest[i] && !Processed(reg1, key);
            assert !Processed(reg[info.key := info], key);
          }
        }
      }
    }
  }

  lemma {:induction false} CollectDistinct(ms: seq<UrlMatch>, n: nat, reg: Links, ctx: Context, entry: Entries)
    requires n <= |ms|
    ensures forall i, j :: 0 <= i < j < |Collect(ms, n, reg, ctx, entry).0| ==>
              entry(ms[Collect(ms, n, reg, ctx, entry).0[i]]).key != entry(ms[Collect(ms, n, reg, ctx, entry).0[j]]).key
    decreases n
  {
    if n > 0 {
      var info := entry(ms[n - 1]);
      if Processed(reg, info.key) {
        CollectDistinct(ms, n - 1, reg, ctx, entry);
      } else {
        var reg1 := Publish(reg[info.key := info], info.key, info, ctx);
        var rest := Collect(ms, n - 1, reg1, ctx, entry).0;
        var sel := rest + [n - 1];
        assert Collect(ms, n, reg, ctx, entry).0 == sel;
        CollectDistinct(ms, n - 1, reg1, ctx, entry);
        CollectUnprocessed(ms, n - 1, reg1, ctx, entry);
        forall i, j | 0 <= i < j < |sel| ensures entry(ms[sel[i]]).key != entry(ms[sel[j]]).key {
          assert sel[i] == rest[i];
          if j == |rest| {
            assert !Processed(reg1, entry(ms[rest[i]]).key);
          } else {
            assert sel[j] == rest[j];
          }
        }
      }
    }
  }

  /** The cuts for the selected matches */
  function CutsOf(ms: seq<UrlMatch>, sel: seq<nat>, entry: Entries): (cuts: seq<Cut>)
    requires forall i :: 0 <= i < |sel| ==> sel[i] < |ms|
    ensures |cuts| == |sel|
    ensures forall i :: 0 <= i < |sel| ==> Infos(cuts)[i] == entry(ms[sel[i]])
    decreases |sel|
  {
    if |sel| == 0 then []
    else
      var rest := CutsOf(ms, sel[1..], entry);
      var r := [Cut(ms[sel[0]].index, ms[sel[0]].length, entry(ms[sel[0]]))] + rest;
      assert r[1..] == rest;
      r
  }

  /** Selected matches of a laid-out list, in increasing order, are cuts of the text */
  lemma {:induction false} SelectedCuts(ms: seq<UrlMatch>, sel: seq<nat>, entry: Entries, text: string, from: nat)
    requires Laid(ms, text)
    requires forall i :: 0 <= i < |sel| ==> sel[i] < |ms| && from <= ms[sel[i]].index && entry(ms[sel[i]]).url == ms[sel[i]].url
    requires forall i, j :: 0 <= i < j < |sel| ==> sel[i] < sel[j]
    ensures CutsFrom(text, from, CutsOf(ms, sel, entry))
    decreases |sel|
  {
    if |sel| > 0 {
      var m := ms[sel[0]];
      var rest := sel[1..];
      forall i | 0 <= i < |rest|
        ensures rest[i] < |ms| && m.index + m.length <= ms[rest[i]].index && entry(ms[rest[i]]).url == ms[rest[i]].url
      {
        assert rest[i] == sel[i + 1];
      }
      SelectedCuts(ms, rest, entry, text, m.index + m.length);
      assert CutsOf(ms, sel, entry)[1..] == CutsOf(ms, rest, entry);
    }
  }

  /** `added` are the entries of some of the matches `ms`, none processed in `reg`, no two for
      the same link */
  ghost predicate NewButtons(added: seq<LinkInfo>, ms: seq<UrlMatch>, entry: Entries, reg: Links) {
    && |added| <= |ms|
    && (forall i :: 0 <= i < |added| ==> !Processed(reg, added[i].key))
    && (forall i :: 0 <= i < |added| ==> exists k :: 0 <= k < |ms| && added[i] == entry(ms[k]))
    && (forall i, j :: 0 <= i < j < |added| ==> added[i].key != added[j].key)
  }

  /** The entries of the selected matches are new buttons */
  lemma SelectedAreNew(ms: seq<UrlMatch>, reg: Links, ctx: Context, entry: Entries)
    ensures var sel := Collect(ms, |ms|, reg, ctx, entry).0;
            NewButtons(Infos(CutsOf(ms, sel, entry)), ms, entry, reg)
  {
    var sel := Collect(ms, |ms|, reg, ctx, entry).0;
    var infos := Infos(CutsOf(ms, sel, entry));
    CollectFresh(ms, |ms|, reg, ctx, entry);
    forall i | 0 <= i < |sel| ensures exists k :: 0 <= k < |ms| && infos[i] == entry(ms[k]) {
      assert infos[i] == entry(ms[sel[i]]);
    }
  }

  /** The whole pass in place: one split of the node with a button for every selected match */
  function SpliceMatches(ms: seq<UrlMatch>, value: string, st: Pass, ctx: Context, entry: Entries): (r: Pass)
    requires Placed(st, value) && Laid(ms, value) && st.at.Some?
    requires forall m :: entry(m).url == m.url
    ensures Placed(r, value) && r.thrown == st.thrown
    ensures r.reg == Collect(ms, |ms|, st.reg, ctx, entry).1
    ensures Shown(r.children) == Shown(st.children)
    ensures r.at.None? ==>
              var pos := st.at.value;
              exists added :: NewButtons(added, ms, entry, st.reg) &&
                Buttons(r.children) == Buttons(st.children[..pos]) + added + Buttons(st.children[pos + 1..])
    ensures r.at.None? <==> Collect(ms, |ms|, st.reg, ctx, entry).0 != []
    ensures r.at.None? ==>
              var pos := st.at.value;
              var sel := Collect(ms, |ms|, st.reg, ctx, entry).0;
              Buttons(r.children) == Buttons(st.children[..pos]) + Infos(CutsOf(ms, sel, entry)) + Buttons(st.children[pos + 1..])
  {
    var (sel, reg) := Collect(ms, |ms|, st.reg, ctx, entry);
    if |sel| == 0 then st.(reg := reg)
    else
      var cuts := CutsOf(ms, sel, entry);
      SelectedCuts(ms, sel, entry, value, 0);
      SplicedInPlace(st.children, st.at.value, value, cuts);
      SelectedAreNew(ms, st.reg, ctx, entry);
      st.(children := ReplaceAt(st.children, st.at.value, Splice(value, 0, cuts)), at := None, reg := reg)
  }

  /** processTextMatches as evidently intended: every match whose link is not yet processed gets
      its button, all in one split of the node, in place, and no link gets two (`SpliceMatches`
      with the entries of `FreshEntries`) */
  function ProcessTextMatchesInPlace(ms: seq<UrlMatch>, pl: Platform, value: string, st: Pass, ctx: Context): (r: Pass)
    requires Placed(st, value) && Laid(ms, value)
    ensures Placed(r, value) && Keeps(st.reg, r.reg) && r.thrown == st.thrown
    ensures Shown(r.children) == Shown(st.children)
    ensures |ms| == 0 || st.at.None? || !IsNetDiskTypeEnabled(TypeKey(pl), ctx.settings) ==> r == st
  {
    if |ms| == 0 || st.at.None? || !IsNetDiskTypeEnabled(TypeKey(pl), ctx.settings) then st
    else
      var entry := FreshEntries(pl, ctx);
      CollectKeeps(ms, |ms|, st.reg, ctx, entry);
      SpliceMatches(ms, value, st, ctx, entry)
  }

  /** In place, the link of every match ends up processed */
  lemma InPlaceProcessesAll(ms: seq<UrlMatch>, pl: Platform, value: string, st: Pass, ctx: Context)
    requires Placed(st, value) && Laid(ms, value)
    requires st.at.Some? && IsNetDiskTypeEnabled(TypeKey(pl), ctx.settings)
    ensures var r := ProcessTextMatchesInPlace(ms, pl, value, st, ctx);
            forall k :: 0 <= k < |ms| ==> Processed(r.reg, NormalizeNetDiskUrl(ms[k].url))
  {
    if |ms| > 0 {
      var entry := FreshEntries(pl, ctx);
      CollectProcesses(ms, |ms|, st.reg, ctx, entry);
      assert ProcessTextMatchesInPlace(ms, pl, value, st, ctx) == SpliceMatches(ms, value, st, ctx, entry);
    }
  }
}
