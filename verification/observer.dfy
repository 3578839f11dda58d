/**
 The decision the content script's mutation observer makes for one batch of DOM
 mutations: ignore it, scan only the nodes that were added, or schedule a full
 page scan. Its main job is to keep the script from reacting to the buttons,
 containers and marker attributes it inserts itself. Nodes are abstracted to the
 facts the decision reads from them.
 */
module Observer {
  import opened Base

  /** An element's class list and the names of its attributes */
  datatype Tags = Tags(classes: set<string>, attrs: set<string>)

  /** An added node. For an element: its tags, `innerHTML`, `tagName`, whether it has
      a descendant link without the processed class, whether it has a `pre`, `code`,
      `p` or `div` descendant without the checked marker, and its `textContent` */
  datatype Node =
    | Element(tags: Tags, html: string, tag: string, freshAnchor: bool, uncheckedBlock: bool, text: string)
    | Text(value: string)
    | OtherNode

  datatype Mutation =
    | Attributes(name: string, element: Tags)
    | ChildList(added: seq<Node>)
    | CharacterData(target: Node, parent: Option<Tags>)

  /** The marker attribute and classes the script puts on what it has handled or created */
  const CheckedAttr := "data-netdisk-checked"
  const ProcessedAttr := "data-netdisk-processed"
  const ProcessedClass := "netdisk-processed"

  /** An attribute change made by the script itself */
  predicate OwnAttribute(name: string, element: Tags) {
    name == CheckedAttr || name == ProcessedAttr || (name == "class" && ProcessedClass in element.classes)
  }

  /** A container or button the script created, or an element it has marked */
  predicate IsOurElement(t: Tags) {
    || "netdisk-container" in t.classes || "netdisk-link-button" in t.classes
    || "netdisk-inline-btn" in t.classes
    || CheckedAttr in t.attrs || ProcessedAttr in t.attrs
  }

  /** Markup that carries the script's own containers, buttons or markers */
  predicate HasOurMarkup(html: string) {
    Contains(html, "netdisk-container") || Contains(html, "netdisk-link-button") || Contains(html, ProcessedAttr)
  }

  /** An element already checked or processed */
  predicate Checked(t: Tags) {
    CheckedAttr in t.attrs || ProcessedClass in t.classes
  }

  /** Trimmed text long enough and suggestive enough to be worth a scan. `toLowerCase`
      cannot create or remove the two CJK characters looked for, so it is omitted. */
  predicate MayHoldLink(t: string) {
    |t| > 10 && (Contains(t, "http") || Contains(t, "pan.baidu.com") || Contains(t, "网盘"))
  }

  /** What one mutation, or one added node, contributes: whether it asks for a scan,
      and the nodes it puts on the `addedNodes` list */
  datatype Step = Step(scan: bool, added: seq<Node>)

  /** A node the script inserted itself; it is skipped without a trace */
  predicate OwnNode(n: Node) {
    n.Element? && (IsOurElement(n.tags) || HasOurMarkup(n.html))
  }

  /** The treatment of one added node */
  function NodeStep(n: Node): (r: Step)
    ensures OwnNode(n) ==> r == Step(false, [])
    ensures r.added == [] || r.added == [n]
    ensures n.Text? ==> (r.scan <==> MayHoldLink(Trim(n.value))) && (r.added == [n] <==> r.scan)
    ensures n.Element? && !OwnNode(n) ==> r.added == [n]
  {
    match n
    case Element(tags, html, tag, freshAnchor, uncheckedBlock, text) =>
      if IsOurElement(tags) then Step(false, [])
      else if html != "" && HasOurMarkup(html) then Step(false, [])
      else Step(tag == "A" || freshAnchor || uncheckedBlock || Trim(text) != "", [n])
    case Text(value) =>
      var t := Trim(value);
      if t != "" && MayHoldLink(t) then Step(true, [n]) else Step(false, [])
    case OtherNode => Step(false, [])
  }

  /** The loop over `mutation.addedNodes`: it visits every node, never stopping early */
  function NodesStep(ns: seq<Node>): (r: Step)
    ensures r.scan <==> exists i :: 0 <= i < |ns| && NodeStep(ns[i]).scan
    ensures forall x :: x in r.added ==> x in ns && !OwnNode(x)
    ensures (forall i :: 0 <= i < |ns| ==> OwnNode(ns[i])) ==> r == Step(false, [])
  {
    if |ns| == 0 then Step(false, [])
    else
      var head := NodeStep(ns[0]);
      var rest := NodesStep(ns[1..]);
      assert forall i :: 1 <= i < |ns| ==> ns[i] == ns[1..][i - 1];
      Step(head.scan || rest.scan, head.added + rest.added)
  }

  /** The treatment of one mutation */
  function MutationStep(m: Mutation): (r: Step)
    ensures forall x :: x in r.added ==> !OwnNode(x)
  {
    match m
    case Attributes(name, element) =>
      // the script's own attribute changes are skipped explicitly; any other
      // attribute change falls through both remaining tests, which it cannot pass
      Step(false, [])
    case ChildList(added) =>
      NodesStep(added)
    case CharacterData(target, parent) =>
      if target.Text? && Trim(target.value) != "" then
        if parent.Some? && Checked(parent.value) then Step(false, [])
        else Step(MayHoldLink(Trim(target.value)), [])
      else Step(false, [])
  }

  /** The loop over a batch: mutations are handled in order until one asks for a
      scan, and the nodes collected so far, that one's included, are kept */
  function Collect(ms: seq<Mutation>): (r: Step)
    ensures forall x :: x in r.added ==> !OwnNode(x)
  {
    if |ms| == 0 then Step(false, [])
    else
      var head := MutationStep(ms[0]);
      if head.scan then head
      else
        var rest := Collect(ms[1..]);
        assert forall k :: 1 <= k < |ms| ==> ms[k] == ms[1..][k - 1];
        Step(rest.scan, head.added + rest.added)
  }

  /** A batch asks for a scan exactly when one of its mutations does */
  lemma {:induction false} CollectScans(ms: seq<Mutation>)
    ensures Collect(ms).scan <==> exists k :: 0 <= k < |ms| && MutationStep(ms[k]).scan
  {
    if |ms| > 0 && !MutationStep(ms[0]).scan {
      var rest := ms[1..];
      CollectScans(rest);
      assert forall k :: 1 <= k < |ms| ==> ms[k] == rest[k - 1];
      if Collect(rest).scan {
        var k :| 0 <= k < |rest| && MutationStep(rest[k]).scan;
        assert MutationStep(ms[k + 1]).scan;
      }
    }
  }

  /** What the observer does with a batch */
  datatype Reaction =
    | Ignore
    | ScanAdded(nodes: seq<Node>)
    /** `clearTimeout` + `setTimeout(scanPage, 500)`: any pending full scan is replaced */
    | RescheduleFullScan

  /** `addedNodes.filter(...)`: elements already checked or processed are dropped */
  function Unmarked(ns: seq<Node>): (r: seq<Node>)
    ensures forall x :: x in r <==> x in ns && !(x.Element? && Checked(x.tags))
  {
    if |ns| == 0 then []
    else
      var rest := Unmarked(ns[1..]);
      if ns[0].Element? && Checked(ns[0].tags) then rest else [ns[0]] + rest
  }

  /** The observer callback for one batch */
  function React(ms: seq<Mutation>): (r: Reaction)
    ensures r != Ignore ==> exists k :: 0 <= k < |ms| && MutationStep(ms[k]).scan
    ensures r.ScanAdded? ==> |r.nodes| > 0
    ensures r.ScanAdded? ==> forall x :: x in r.nodes ==> !OwnNode(x) && !(x.Element? && Checked(x.tags))
    ensures r == RescheduleFullScan <==> Collect(ms) == Step(true, [])
  {
    var b := Collect(ms);
    CollectScans(ms);
    if !b.scan then Ignore
    else if |b.added| > 0 then
      var nodes := Unmarked(b.added);
      if |nodes| == 0 then Ignore else ScanAdded(nodes)
    else RescheduleFullScan
  }

  /** A mutation the script itself caused: one of its attribute changes, an insertion
      of nothing but its own nodes, or a text change under an element it has checked */
  predicate OwnMutation(m: Mutation) {
    match m
    case Attributes(name, element) => OwnAttribute(name, element)
    case ChildList(added) => forall i :: 0 <= i < |added| ==> OwnNode(added[i])
    case CharacterData(_, parent) => parent.Some? && Checked(parent.value)
  }

  /** A mutation the script caused asks for nothing */
  lemma OwnMutationQuiet(m: Mutation)
    requires OwnMutation(m)
    ensures MutationStep(m) == Step(false, [])
  {
  }

  /** A batch made only of the script's own mutations is ignored, so the script does
      not rescan in reaction to its own buttons */
  lemma {:induction false} OwnBatchIgnored(ms: seq<Mutation>)
    requires forall k :: 0 <= k < |ms| ==> OwnMutation(ms[k])
    ensures Collect(ms) == Step(false, [])
    ensures React(ms) == Ignore
  {
    if |ms| > 0 {
      OwnMutationQuiet(ms[0]);
      assert forall k :: 0 <= k < |ms| - 1 ==> ms[1..][k] == ms[k + 1];
      OwnBatchIgnored(ms[1..]);
    }
  }

  /** No attribute change alone ever triggers a scan, not even of `href` */
  lemma {:induction false} AttributesNeverScan(ms: seq<Mutation>)
    requires forall k :: 0 <= k < |ms| ==> ms[k].Attributes?
    ensures Collect(ms) == Step(false, [])
    ensures React(ms) == Ignore
  {
    if |ms| > 0 {
      assert forall k :: 0 <= k < |ms| - 1 ==> ms[1..][k] == ms[k + 1];
      AttributesNeverScan(ms[1..]);
    }
  }

  /** `Collect` on a batch whose first mutation asks for no scan */
  lemma CollectQuietHead(ms: seq<Mutation>)
    requires |ms| > 0 && !MutationStep(ms[0]).scan
    ensures Collect(ms) == Step(Collect(ms[1..]).scan, MutationStep(ms[0]).added + Collect(ms[1..]).added)
  {
  }

  /** Mutations after the first one that asks for a scan are never looked at */
  lemma {:induction false} StopsAtFirstScan(ms: seq<Mutation>, more: seq<Mutation>)
    requires Collect(ms).scan
    ensures Collect(ms + more) == Collect(ms)
  {
    var all := ms + more;
    assert all[0] == ms[0];
    if !MutationStep(ms[0]).scan {
      var rest := ms[1..];
      CollectQuietHead(ms);
      CollectQuietHead(all);
      assert all[1..] == rest + more;
      StopsAtFirstScan(rest, more);
    }
  }
}
