/**
 * The part of the document the content script reads and rewrites: a tree of
 * elements and text nodes under `document.body`, the text nodes a
 * `TreeWalker` with `SHOW_TEXT` visits (in document order), the filter that
 * `scanAndHighlight` gives it, and the replacement of visited text nodes by
 * the nodes built from `processTextNode`'s fragment.
 */
module Page {
  import opened Wrappers
  import opened Text
  import opened Matcher
  import opened Seqs
  import MatcherProperties

  /** The element names the collector's selector tests; every other name is `Other`. */
  datatype Tag = Script | Style | Textarea | Input | SpanTag | Other(name: string)

  /** The two mouse events the script listens to, and any other event type. */
  datatype EventType = MouseEnter | MouseLeave | OtherEvent(name: string)

  /** The two handlers the script registers, and handlers that belong to the page. */
  datatype Callback = ShowTooltip | HideTooltip | PageCallback(id: nat)

  /** One `addEventListener` registration: an event type and a handler (never in the capture phase). */
  datatype Listener = Listener(event: EventType, callback: Callback)

  /**
   * A DOM node. An element records whether it has the class
   * `f1-driver-highlight`, its `data-driver-name` attribute, its registered
   * listeners in registration order, and its children.
   */
  datatype Node =
    | TextNode(content: string)
    | Element(tag: Tag, highlight: bool, driverName: Option<string>, listeners: seq<Listener>, children: seq<Node>)

  /** An element that matches `script, style, textarea, input, .f1-driver-highlight`. */
  predicate Shields(n: Node)
  {
    n.Element? && (n.tag == Script || n.tag == Style || n.tag == Textarea || n.tag == Input || n.highlight)
  }

  /** A visited text node: its text, and whether an ancestor element matches the selector. */
  datatype Leaf = Leaf(content: string, shielded: bool)

  /** The text nodes of `n` in document (pre-)order; `shielded` says whether an ancestor of `n` shields it. */
  function Leaves(n: Node, shielded: bool): seq<Leaf>
    decreases n
  {
    match n
    case TextNode(c) => [Leaf(c, shielded)]
    case Element(_, _, _, _, cs) => LeavesAll(cs, shielded || Shields(n))
  }

  function LeavesAll(ns: seq<Node>, shielded: bool): seq<Leaf>
    decreases ns
  {
    if ns == [] then [] else Leaves(ns[0], shielded) + LeavesAll(ns[1..], shielded)
  }

  /**
   * The `acceptNode` filter: a text node is rejected when `closest` finds a
   * shielding ancestor or when its text trims to the empty string.
   */
  predicate Accepts(leaf: Leaf)
  {
    !leaf.shielded && !IsBlank(leaf.content)
  }

  /** The number of text nodes, however they are shielded. */
  function Count(n: Node): nat
    decreases n
  {
    match n
    case TextNode(_) => 1
    case Element(_, _, _, _, cs) => CountAll(cs)
  }

  function CountAll(ns: seq<Node>): nat
    decreases ns
  {
    if ns == [] then 0 else Count(ns[0]) + CountAll(ns[1..])
  }

  lemma {:induction false} LeavesCount(n: Node, shielded: bool)
    ensures |Leaves(n, shielded)| == Count(n)
    decreases n
  {
    match n
    case TextNode(_) =>
    case Element(_, _, _, _, cs) => LeavesAllCount(cs, shielded || Shields(n));
  }

  lemma {:induction false} LeavesAllCount(ns: seq<Node>, shielded: bool)
    ensures |LeavesAll(ns, shielded)| == CountAll(ns)
    decreases ns
  {
    if ns != [] {
      LeavesCount(ns[0], shielded);
      LeavesAllCount(ns[1..], shielded);
    }
  }

  /** `textContent`: the text of the text nodes, in document order. */
  function TextOf(n: Node): string
    decreases n
  {
    match n
    case TextNode(c) => c
    case Element(_, _, _, _, cs) => TextOfAll(cs)
  }

  function TextOfAll(ns: seq<Node>): string
    decreases ns
  {
    if ns == [] then [] else TextOf(ns[0]) + TextOfAll(ns[1..])
  }

  /** The texts of a list of visited text nodes, joined. */
  function Contents(ls: seq<Leaf>): string
    decreases |ls|
  {
    if ls == [] then [] else ls[0].content + Contents(ls[1..])
  }

  lemma {:induction false} ContentsAppend(a: seq<Leaf>, b: seq<Leaf>)
    ensures Contents(a + b) == Contents(a) + Contents(b)
    decreases |a|
  {
    if a == [] {
      assert a + b == b;
    } else {
      assert (a + b)[1..] == a[1..] + b;
      ContentsAppend(a[1..], b);
      AppendAssoc(a[0].content, Contents(a[1..]), Contents(b));
    }
  }

  /** The text of a node is the text of the nodes the walker visits in it, in order. */
  lemma {:induction false} TextOfLeaves(n: Node, shielded: bool)
    ensures TextOf(n) == Contents(Leaves(n, shielded))
    decreases n
  {
    match n
    case TextNode(c) =>
      assert Contents([Leaf(c, shielded)]) == c + Contents([]);
    case Element(_, _, _, _, cs) => TextOfAllLeaves(cs, shielded || Shields(n));
  }

  lemma {:induction false} TextOfAllLeaves(ns: seq<Node>, shielded: bool)
    ensures TextOfAll(ns) == Contents(LeavesAll(ns, shielded))
    decreases ns
  {
    if ns != [] {
      TextOfLeaves(ns[0], shielded);
      TextOfAllLeaves(ns[1..], shielded);
      ContentsAppend(Leaves(ns[0], shielded), LeavesAll(ns[1..], shielded));
    }
  }

  /**
   * The `while (walker.nextNode())` loop of `scanAndHighlight`: the positions,
   * in document order, of the text nodes the filter accepts. Every accepted
   * text node is collected, none twice, and all of them before any is
   * rewritten.
   */
  method CollectTextNodes(body: seq<Node>) returns (nodesToProcess: seq<nat>)
    ensures forall k :: 0 <= k < |nodesToProcess| ==>
              nodesToProcess[k] < |LeavesAll(body, false)| && Accepts(LeavesAll(body, false)[nodesToProcess[k]])
    ensures forall k, l :: 0 <= k < l < |nodesToProcess| ==> nodesToProcess[k] < nodesToProcess[l]
    ensures forall i :: 0 <= i < |LeavesAll(body, false)| && Accepts(LeavesAll(body, false)[i]) ==>
              i in nodesToProcess
  {
    var walker := LeavesAll(body, false);
    nodesToProcess := [];
    var i := 0;
    while i < |walker|
      invariant i <= |walker|
      invariant forall k :: 0 <= k < |nodesToProcess| ==> nodesToProcess[k] < i && Accepts(walker[nodesToProcess[k]])
      invariant forall k, l :: 0 <= k < l < |nodesToProcess| ==> nodesToProcess[k] < nodesToProcess[l]
      invariant forall j :: 0 <= j < i && Accepts(walker[j]) ==> j in nodesToProcess
    {
      if Accepts(walker[i]) {
        nodesToProcess := nodesToProcess + [i];
      }
      i := i + 1;
    }
  }

  /** The nodes `processTextNode` puts in place of a text node: text nodes and highlight spans. */
  function RunNodes(runs: seq<Run>): (r: seq<Node>)
    ensures |r| == |runs|
    decreases |runs|
  {
    if runs == [] then []
    else
      var n := match runs[0]
        case Plain(s) => TextNode(s)
        case Span(s, key) => Element(SpanTag, true, Some(key), [], [TextNode(s)]);
      [n] + RunNodes(runs[1..])
  }

  /** Replacing a text node by its fragment's nodes keeps the text the fragment spells. */
  lemma {:induction false} RunNodesText(runs: seq<Run>)
    ensures TextOfAll(RunNodes(runs)) == MatcherProperties.Concat(runs)
    decreases |runs|
  {
    if runs != [] {
      RunNodesText(runs[1..]);
      var r := RunNodes(runs);
      assert r[1..] == RunNodes(runs[1..]);
      if runs[0].Span? {
        assert TextOf(r[0]) == TextOfAll([TextNode(runs[0].text)]) == runs[0].text + [];
      }
    }
  }

  /**
   * The tree after the `i`-th text node (in document order) has been
   * replaced by the nodes `repl[i]`, for every `i`.
   */
  function Replace(n: Node, repl: seq<seq<Node>>): seq<Node>
    requires |repl| == Count(n)
    decreases n
  {
    match n
    case TextNode(_) => repl[0]
    case Element(t, h, d, ls, cs) => [Element(t, h, d, ls, ReplaceAll(cs, repl))]
  }

  function ReplaceAll(ns: seq<Node>, repl: seq<seq<Node>>): seq<Node>
    requires |repl| == CountAll(ns)
    decreases ns
  {
    if ns == [] then []
    else
      var c := Count(ns[0]);
      Replace(ns[0], repl[..c]) + ReplaceAll(ns[1..], repl[c..])
  }

  /** Every replacement is the visited text node itself. */
  predicate Keeps(ls: seq<Leaf>, repl: seq<seq<Node>>)
  {
    |ls| == |repl| && forall i :: 0 <= i < |ls| ==> repl[i] == [TextNode(ls[i].content)]
  }

  /** Every replacement spells the text of the text node it replaces. */
  predicate Spells(ls: seq<Leaf>, repl: seq<seq<Node>>)
  {
    |ls| == |repl| && forall i :: 0 <= i < |ls| ==> TextOfAll(repl[i]) == ls[i].content
  }

  lemma KeepsSplit(a: seq<Leaf>, b: seq<Leaf>, repl: seq<seq<Node>>)
    requires Keeps(a + b, repl)
    ensures Keeps(a, repl[..|a|]) && Keeps(b, repl[|a|..])
  {
    forall i | 0 <= i < |b|
      ensures repl[|a|..][i] == [TextNode(b[i].content)]
    {
      assert (a + b)[|a| + i] == b[i];
    }
  }

  lemma SpellsSplit(a: seq<Leaf>, b: seq<Leaf>, repl: seq<seq<Node>>)
    requires Spells(a + b, repl)
    ensures Spells(a, repl[..|a|]) && Spells(b, repl[|a|..])
  {
    forall i | 0 <= i < |b|
      ensures TextOfAll(repl[|a|..][i]) == b[i].content
    {
      assert (a + b)[|a| + i] == b[i];
    }
  }

  /** Replacing every text node by itself leaves the tree as it was. */
  lemma {:induction false} ReplaceKeeps(n: Node, shielded: bool, repl: seq<seq<Node>>)
    requires Keeps(Leaves(n, shielded), repl)
    ensures |repl| == Count(n) && Replace(n, repl) == [n]
    decreases n
  {
    LeavesCount(n, shielded);
    match n
    case TextNode(c) =>
    case Element(_, _, _, _, cs) => ReplaceAllKeeps(cs, shielded || Shields(n), repl);
  }

  lemma {:induction false} ReplaceAllKeeps(ns: seq<Node>, shielded: bool, repl: seq<seq<Node>>)
    requires Keeps(LeavesAll(ns, shielded), repl)
    ensures |repl| == CountAll(ns) && ReplaceAll(ns, repl) == ns
    decreases ns
  {
    LeavesAllCount(ns, shielded);
    if ns != [] {
      var head := Leaves(ns[0], shielded);
      KeepsSplit(head, LeavesAll(ns[1..], shielded), repl);
      LeavesCount(ns[0], shielded);
      ReplaceKeeps(ns[0], shielded, repl[..|head|]);
      ReplaceAllKeeps(ns[1..], shielded, repl[|head|..]);
      assert ns == [ns[0]] + ns[1..];
    }
  }

  /** Replacing every text node by nodes that spell its text keeps the text of the tree. */
  lemma {:induction false} ReplaceSpells(n: Node, shielded: bool, repl: seq<seq<Node>>)
    requires Spells(Leaves(n, shielded), repl)
    ensures |repl| == Count(n) && TextOfAll(Replace(n, repl)) == TextOf(n)
    decreases n
  {
    LeavesCount(n, shielded);
    match n
    case TextNode(c) =>
      assert Leaves(n, shielded)[0].content == c;
    case Element(t, h, d, ls, cs) =>
      ReplaceAllSpells(cs, shielded || Shields(n), repl);
      var e := Element(t, h, d, ls, ReplaceAll(cs, repl));
      assert TextOfAll([e]) == TextOf(e) + TextOfAll([]);
  }

  lemma {:induction false} ReplaceAllSpells(ns: seq<Node>, shielded: bool, repl: seq<seq<Node>>)
    requires Spells(LeavesAll(ns, shielded), repl)
    ensures |repl| == CountAll(ns) && TextOfAll(ReplaceAll(ns, repl)) == TextOfAll(ns)
    decreases ns
  {
    LeavesAllCount(ns, shielded);
    if ns != [] {
      var head := Leaves(ns[0], shielded);
      SpellsSplit(head, LeavesAll(ns[1..], shielded), repl);
      LeavesCount(ns[0], shielded);
      ReplaceSpells(ns[0], shielded, repl[..|head|]);
      ReplaceAllSpells(ns[1..], shielded, repl[|head|..]);
      TextOfAllAppend(Replace(ns[0], repl[..|head|]), ReplaceAll(ns[1..], repl[|head|..]));
    }
  }

  lemma {:induction false} TextOfAllAppend(a: seq<Node>, b: seq<Node>)
    ensures TextOfAll(a + b) == TextOfAll(a) + TextOfAll(b)
    decreases |a|
  {
    if a == [] {
      assert a + b == b;
    } else {
      assert (a + b)[1..] == a[1..] + b;
      TextOfAllAppend(a[1..], b);
      AppendAssoc(TextOf(a[0]), TextOfAll(a[1..]), TextOfAll(b));
    }
  }
}
