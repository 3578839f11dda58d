/**
 The document as the replacement routines see it: a run of sibling nodes, where
 a text node holds characters, an access button stands for the link it
 replaced, and any other element contributes its text content. Splitting a text
 at a link and splicing buttons into a text both keep the text a reader sees.
 */
module Dom {
  import opened Base
  import opened Registry

  datatype Node =
    | Text(value: string)
    | Button(info: LinkInfo)               // a netdisk-container whose button opens `info`
    | Element(tag: string, content: string) // any other element, with its text content

  /** The text a run of nodes shows, reading each button as the link text it replaced */
  function Shown(ns: seq<Node>): string
    decreases |ns|
  {
    if |ns| == 0 then "" else ShownOne(ns[0]) + Shown(ns[1..])
  }

  function ShownOne(n: Node): string {
    match n
    case Text(v) => v
    case Button(info) => info.url
    case Element(_, c) => c
  }

  lemma {:induction false} ShownConcat(a: seq<Node>, b: seq<Node>)
    ensures Shown(a + b) == Shown(a) + Shown(b)
    decreases |a|
  {
    if |a| == 0 {
      assert a + b == b;
    } else {
      assert (a + b)[0] == a[0] && (a + b)[1..] == a[1..] + b;
      ShownConcat(a[1..], b);
    }
  }

  /** The links of the buttons among `ns`, in order */
  function Buttons(ns: seq<Node>): seq<LinkInfo>
    decreases |ns|
  {
    if |ns| == 0 then []
    else (if ns[0].Button? then [ns[0].info] else []) + Buttons(ns[1..])
  }

  lemma {:induction false} ButtonsConcat(a: seq<Node>, b: seq<Node>)
    ensures Buttons(a + b) == Buttons(a) + Buttons(b)
    decreases |a|
  {
    if |a| == 0 {
      assert a + b == b;
    } else {
      assert (a + b)[0] == a[0] && (a + b)[1..] == a[1..] + b;
      ButtonsConcat(a[1..], b);
    }
  }

  /** `s.substring(a, b)` for non-negative offsets: both are clamped to the length and
      swapped when out of order */
  function Substring(s: string, a: nat, b: nat): (r: string)
    ensures a <= b <= |s| ==> r == s[a..b]
    ensures |r| <= |s|
  {
    var x := if a <= |s| then a else |s|;
    var y := if b <= |s| then b else |s|;
    if x <= y then s[x..y] else s[y..x]
  }

  /** The before, link and after parts of replaceTextNodeUrl put the text back together,
      whatever the offsets */
  lemma SplitKeepsText(text: string, start: nat, len: nat)
    ensures Substring(text, 0, start) + Substring(text, start, start + len) + Substring(text, start + len, |text|) == text
  {
    if start + len <= |text| {
      assert text == text[..start] + text[start..start + len] + text[start + len..];
    } else if start <= |text| {
      assert text == text[..start] + text[start..];
    }
  }

  /** A text node for `s`, or nothing when `s` is empty (`if (beforeText)`) */
  function TextOrNothing(s: string): (r: seq<Node>)
    ensures Shown(r) == s && Buttons(r) == []
  {
    if |s| == 0 then [] else [Text(s)]
  }

  /** The nodes replaceTextNodeUrl creates for a text whose characters `start .. start + len`
      are the link: the text before it, the button, the text after it */
  function Pieces(text: string, start: nat, len: nat, info: LinkInfo): (r: seq<Node>)
    ensures Buttons(r) == [info]
    ensures info.url == Substring(text, start, start + len) ==> Shown(r) == text
  {
    var before := TextOrNothing(Substring(text, 0, start));
    var after := TextOrNothing(Substring(text, start + len, |text|));
    ShownThree(before, Button(info), after);
    ButtonsThree(before, Button(info), after);
    SplitKeepsText(text, start, len);
    before + [Button(info)] + after
  }

  /** One link of a text, to be replaced by a button for `info` */
  datatype Cut = Cut(index: nat, length: nat, info: LinkInfo)

  /** The cuts lie in `text` at or after `from`, in order, without overlapping, and each
      button's link is the text it replaces */
  predicate CutsFrom(text: string, from: nat, cuts: seq<Cut>)
    decreases |cuts|
  {
    |cuts| == 0 ||
    (&& from <= cuts[0].index && cuts[0].index + cuts[0].length <= |text|
     && cuts[0].info.url == text[cuts[0].index..cuts[0].index + cuts[0].length]
     && CutsFrom(text, cuts[0].index + cuts[0].length, cuts[1..]))
  }

  /** The links of the cuts, in order */
  function Infos(cuts: seq<Cut>): (r: seq<LinkInfo>)
    ensures |r| == |cuts|
    decreases |cuts|
  {
    if |cuts| == 0 then [] else [cuts[0].info] + Infos(cuts[1..])
  }

  /** The text from `from` on with every cut replaced by its button, leaving out empty text */
  function Splice(text: string, from: nat, cuts: seq<Cut>): seq<Node>
    requires from <= |text| && CutsFrom(text, from, cuts)
    decreases |cuts|
  {
    if |cuts| == 0 then TextOrNothing(text[from..])
    else
      var c := cuts[0];
      TextOrNothing(text[from..c.index]) + [Button(c.info)] + Splice(text, c.index + c.length, cuts[1..])
  }

  /** Splicing keeps the text a reader sees */
  lemma {:induction false} SpliceShows(text: string, from: nat, cuts: seq<Cut>)
    requires from <= |text| && CutsFrom(text, from, cuts)
    ensures Shown(Splice(text, from, cuts)) == text[from..]
    decreases |cuts|
  {
    if |cuts| > 0 {
      var c := cuts[0];
      var end := c.index + c.length;
      var before := TextOrNothing(text[from..c.index]);
      var tail := Splice(text, end, cuts[1..]);
      var spliced := before + [Button(c.info)] + tail;
      assert Splice(text, from, cuts) == spliced;
      calc {
        Shown(spliced);
        { ShownThree(before, Button(c.info), tail); }
        Shown(before) + c.info.url + Shown(tail);
        { SpliceShows(text, end, cuts[1..]); }
        text[from..c.index] + text[c.index..end] + text[end..];
        { SlicesThree(text, from, c.index, end); }
        text[from..];
      }
    }
  }

  /** Splicing yields exactly the cuts' buttons, in order */
  lemma {:induction false} SpliceButtons(text: string, from: nat, cuts: seq<Cut>)
    requires from <= |text| && CutsFrom(text, from, cuts)
    ensures Buttons(Splice(text, from, cuts)) == Infos(cuts)
    decreases |cuts|
  {
    if |cuts| > 0 {
      var c := cuts[0];
      var end := c.index + c.length;
      var before := TextOrNothing(text[from..c.index]);
      var tail := Splice(text, end, cuts[1..]);
      SpliceHead(text, from, cuts);
      ButtonBetween(before, c.info, tail);
      SpliceButtons(text, end, cuts[1..]);
      assert Infos(cuts) == [c.info] + Infos(cuts[1..]);
    }
  }

  /** The first step of `Splice` */
  lemma SpliceHead(text: string, from: nat, cuts: seq<Cut>)
    requires from <= |text| && CutsFrom(text, from, cuts) && |cuts| > 0
    ensures var c := cuts[0];
            && from <= c.index && c.index + c.length <= |text| && CutsFrom(text, c.index + c.length, cuts[1..])
            && Splice(text, from, cuts) == TextOrNothing(text[from..c.index]) + [Button(c.info)] + Splice(text, c.index + c.length, cuts[1..])
  {
  }

  lemma ButtonBetween(a: seq<Node>, info: LinkInfo, b: seq<Node>)
    requires Buttons(a) == []
    ensures Buttons(a + [Button(info)] + b) == [info] + Buttons(b)
  {
    ButtonsThree(a, Button(info), b);
  }

  lemma Assoc(x: string, y: string, z: string)
    ensures x + (y + z) == x + y + z
  {
  }

  lemma SlicesThree(text: string, a: nat, b: nat, c: nat)
    requires a <= b <= c <= |text|
    ensures text[a..] == text[a..b] + text[b..c] + text[c..]
  {
  }

  lemma ShownThree(a: seq<Node>, n: Node, b: seq<Node>)
    ensures Shown(a + [n] + b) == Shown(a) + ShownOne(n) + Shown(b)
  {
    assert Shown([n]) == ShownOne(n) by { assert [n][1..] == []; }
    ShownConcat(a, [n]);
    ShownConcat(a + [n], b);
  }

  lemma ButtonsThree(a: seq<Node>, n: Node, b: seq<Node>)
    ensures Buttons(a + [n] + b) == Buttons(a) + (if n.Button? then [n.info] else []) + Buttons(b)
  {
    assert Buttons([n]) == (if n.Button? then [n.info] else []) by { assert [n][1..] == []; }
    ButtonsConcat(a, [n]);
    ButtonsConcat(a + [n], b);
  }

  /** `children` without the node at `pos` (`removeChild`) */
  function Remove(children: seq<Node>, pos: nat): (r: seq<Node>)
    requires pos < |children|
    ensures |r| == |children| - 1
  {
    children[..pos] + children[pos + 1..]
  }

  /** The node at `pos` replaced by `ns`, the rest in place */
  function ReplaceAt(children: seq<Node>, pos: nat, ns: seq<Node>): (r: seq<Node>)
    requires pos < |children|
    ensures Shown(r) == Shown(children[..pos]) + Shown(ns) + Shown(children[pos + 1..])
    ensures Buttons(r) == Buttons(children[..pos]) + Buttons(ns) + Buttons(children[pos + 1..])
  {
    ShownConcat(children[..pos], ns);
    ShownConcat(children[..pos] + ns, children[pos + 1..]);
    ButtonsConcat(children[..pos], ns);
    ButtonsConcat(children[..pos] + ns, children[pos + 1..]);
    children[..pos] + ns + children[pos + 1..]
  }

  /** What a run of siblings shows is what the part before `pos`, the node at `pos` and the
      part after show */
  lemma ShownAround(children: seq<Node>, pos: nat)
    requires pos < |children|
    ensures Shown(children) == Shown(children[..pos]) + ShownOne(children[pos]) + Shown(children[pos + 1..])
  {
    var a, rest := children[..pos], children[pos..];
    assert a + rest == children;
    ShownConcat(a, rest);
    assert rest[0] == children[pos] && rest[1..] == children[pos + 1..];
    Assoc(Shown(a), ShownOne(children[pos]), Shown(children[pos + 1..]));
  }

  /** A text node split in place at its cuts: the siblings show the same text, and the cuts'
      buttons sit between the buttons before and after the node */
  lemma SplicedInPlace(children: seq<Node>, pos: nat, text: string, cuts: seq<Cut>)
    requires pos < |children| && children[pos] == Text(text) && CutsFrom(text, 0, cuts)
    ensures var r := ReplaceAt(children, pos, Splice(text, 0, cuts));
            && Shown(r) == Shown(children)
            && Buttons(r) == Buttons(children[..pos]) + Infos(cuts) + Buttons(children[pos + 1..])
  {
    SpliceShows(text, 0, cuts);
    SpliceButtons(text, 0, cuts);
    ShownAround(children, pos);
  }
}
