/**
 * What one run of `scanAndHighlight` does to the page: every text node the
 * walker accepts is handed to `processTextNode`, and the ones it rewrites are
 * replaced by its fragment. All text nodes are collected from the page as it
 * was before the first replacement, and each replacement touches only its own
 * text node, so the result is one simultaneous replacement.
 */
module Scan {
  import opened Wrappers
  import opened Text
  import opened Matcher
  import opened Page
  import opened FactStore
  import opened Seqs
  import MatcherProperties

  /** The nodes that take the place of a text node `processTextNode` is given. */
  function Rewritten(content: string, keys: seq<string>): seq<Node>
    requires NonEmptyKeys(keys)
  {
    match Process(content, keys)
    case None => [TextNode(content)]
    case Some(runs) => RunNodes(runs)
  }

  /** A text node the walker rejects stays as it is. */
  function Replacement(leaf: Leaf, keys: seq<string>): seq<Node>
    requires NonEmptyKeys(keys)
  {
    if Accepts(leaf) then Rewritten(leaf.content, keys) else [TextNode(leaf.content)]
  }

  function Replacements(ls: seq<Leaf>, keys: seq<string>): (r: seq<seq<Node>>)
    requires NonEmptyKeys(keys)
    ensures |r| == |ls| && forall i :: 0 <= i < |ls| ==> r[i] == Replacement(ls[i], keys)
  {
    seq(|ls|, i requires 0 <= i < |ls| => Replacement(ls[i], keys))
  }

  /** The children of `document.body` after every accepted text node has been processed. */
  function Highlighted(body: seq<Node>, keys: seq<string>): seq<Node>
    requires NonEmptyKeys(keys)
  {
    LeavesAllCount(body, false);
    ReplaceAll(body, Replacements(LeavesAll(body, false), keys))
  }

  /** The text `processTextNode` puts in place of a text node is the text it removed. */
  lemma RewrittenText(content: string, keys: seq<string>)
    requires NonEmptyKeys(keys)
    ensures TextOfAll(Rewritten(content, keys)) == content
  {
    match Process(content, keys)
    case None =>
      assert TextOfAll([TextNode(content)]) == content + [];
    case Some(runs) =>
      MatcherProperties.ProcessReconstructs(content, keys);
      RunNodesText(runs);
  }

  /** Whether the walker accepts a text node or not, what takes its place spells its text. */
  lemma ReplacementText(leaf: Leaf, keys: seq<string>)
    requires NonEmptyKeys(keys)
    ensures TextOfAll(Replacement(leaf, keys)) == leaf.content
  {
    if Accepts(leaf) {
      RewrittenText(leaf.content, keys);
    } else {
      assert TextOfAll([TextNode(leaf.content)]) == leaf.content + [];
    }
  }

  /** Highlighting never changes the page's text: `document.body.textContent` is the same afterwards. */
  lemma HighlightedText(body: seq<Node>, keys: seq<string>)
    requires NonEmptyKeys(keys)
    ensures TextOfAll(Highlighted(body, keys)) == TextOfAll(body)
  {
    var ls := LeavesAll(body, false);
    var repl := Replacements(ls, keys);
    forall i | 0 <= i < |ls|
      ensures TextOfAll(repl[i]) == ls[i].content
    {
      ReplacementText(ls[i], keys);
    }
    ReplaceAllSpells(body, false, repl);
  }

  /**
   * When no accepted text node holds a bounded occurrence of any name, the
   * page is left exactly as it was.
   */
  lemma HighlightedUnchanged(body: seq<Node>, keys: seq<string>)
    requires NonEmptyKeys(keys)
    requires forall i, k, j ::
               0 <= i < |LeavesAll(body, false)| && Accepts(LeavesAll(body, false)[i]) && k in keys
               ==> !BoundedAt(LeavesAll(body, false)[i].content, k, j)
    ensures Highlighted(body, keys) == body
  {
    var ls := LeavesAll(body, false);
    var repl := Replacements(ls, keys);
    forall i | 0 <= i < |ls|
      ensures repl[i] == [TextNode(ls[i].content)]
    {
      if Accepts(ls[i]) {
        MatcherProperties.ProcessUntouched(ls[i].content, keys);
      }
    }
    ReplaceAllKeeps(body, false, repl);
  }

  /**
   * In the nodes that replace a text node, a plain run is a text node outside
   * any highlight, and a span's text lies under the highlight class, so a
   * later scan never matches inside a highlight.
   */
  lemma {:induction false} RunNodesLeaves(runs: seq<Run>, i: nat)
    requires i < |runs|
    ensures Leaves(RunNodes(runs)[i], false) == [Leaf(runs[i].text, runs[i].Span?)]
  {
    if i > 0 {
      assert RunNodes(runs)[i] == RunNodes(runs[1..])[i - 1];
      RunNodesLeaves(runs[1..], i - 1);
    } else if runs[0].Span? {
      var e := RunNodes(runs)[0];
      assert Shields(e);
      assert LeavesAll(e.children, true) == [Leaf(runs[0].text, true)] + LeavesAll([], true);
    }
  }

  /**
   * `nodesToProcess.forEach(node => processTextNode(node))`: given the
   * accepted text nodes in document order, the replacement of every text node
   * of the page. Every rewrite is read off the text collected before the first
   * one.
   */
  method ProcessCollected(walker: seq<Leaf>, nodesToProcess: seq<nat>, store: Option<Store>)
    returns (repl: seq<seq<Node>>)
    requires store.Some? && FactStore.Valid(store.value)
    requires forall k :: 0 <= k < |nodesToProcess| ==> nodesToProcess[k] < |walker| && Accepts(walker[nodesToProcess[k]])
    requires forall k, l :: 0 <= k < l < |nodesToProcess| ==> nodesToProcess[k] < nodesToProcess[l]
    requires forall i :: 0 <= i < |walker| && Accepts(walker[i]) ==> i in nodesToProcess
    ensures repl == Replacements(walker, store.value.names)
  {
    var names := store.value.names;
    repl := seq(|walker|, i requires 0 <= i < |walker| => [TextNode(walker[i].content)]);
    for j := 0 to |nodesToProcess|
      invariant |repl| == |walker|
      invariant forall i :: 0 <= i < |walker| ==>
                  repl[i] == if i in nodesToProcess[..j] then Replacement(walker[i], names) else [TextNode(walker[i].content)]
    {
      var i := nodesToProcess[j];
      var replacement := ProcessTextNode(walker[i].content, store);
      TakeSnoc(nodesToProcess, j);
      assert i !in nodesToProcess[..j];
      if replacement.Some? {
        repl := repl[i := RunNodes(replacement.value)];
      }
    }
    TakeAll(nodesToProcess);
  }
}
