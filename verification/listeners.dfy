/**
 * `attachEventListeners`: for every element with the highlight class, remove
 * the tooltip handlers and add them again. Each element's registrations are a
 * list in registration order; `addEventListener` ignores a registration that
 * is already present (same event type, same handler, same capture flag) and
 * `removeEventListener` drops it.
 */
module Listeners {
  import opened Page

  /** `el.addEventListener('mouseenter', showTooltip)`. */
  const Enter := Listener(MouseEnter, ShowTooltip)

  /** `el.addEventListener('mouseleave', hideTooltip)`. */
  const Leave := Listener(MouseLeave, HideTooltip)

  /** `removeEventListener`: the registration is gone, the others stay in their order. */
  function RemoveListener(ls: seq<Listener>, l: Listener): (r: seq<Listener>)
    ensures forall x :: x in r <==> x in ls && x != l
    decreases |ls|
  {
    if ls == [] then []
    else if ls[0] == l then RemoveListener(ls[1..], l)
    else [ls[0]] + RemoveListener(ls[1..], l)
  }

  /** `addEventListener`: a registration that is already present is not added twice. */
  function AddListener(ls: seq<Listener>, l: Listener): (r: seq<Listener>)
    ensures l in r && forall x :: x in r <==> x in ls || x == l
    ensures l in ls ==> r == ls
    ensures l !in ls ==> r == ls + [l]
  {
    if l in ls then ls else ls + [l]
  }

  /** The registrations of an element that are not the script's own tooltip handlers. */
  function Others(ls: seq<Listener>): seq<Listener>
  {
    RemoveListener(RemoveListener(ls, Enter), Leave)
  }

  /** The four calls `attachEventListeners` makes on one element. */
  function Rebind(ls: seq<Listener>): seq<Listener>
  {
    AddListener(AddListener(RemoveListener(RemoveListener(ls, Enter), Leave), Enter), Leave)
  }

  lemma {:induction false} RemoveAbsent(ls: seq<Listener>, l: Listener)
    requires l !in ls
    ensures RemoveListener(ls, l) == ls
    decreases |ls|
  {
    if ls != [] {
      RemoveAbsent(ls[1..], l);
      assert ls == [ls[0]] + ls[1..];
    }
  }

  lemma {:induction false} RemoveAppend(a: seq<Listener>, b: seq<Listener>, l: Listener)
    ensures RemoveListener(a + b, l) == RemoveListener(a, l) + RemoveListener(b, l)
    decreases |a|
  {
    if a == [] {
      assert a + b == b;
    } else {
      assert (a + b)[1..] == a[1..] + b;
      RemoveAppend(a[1..], b, l);
    }
  }

  /** After the four calls the tooltip handlers come last, once each, after the other registrations. */
  lemma RebindShape(ls: seq<Listener>)
    ensures Rebind(ls) == Others(ls) + [Enter, Leave]
    ensures Enter !in Others(ls) && Leave !in Others(ls)
  {
  }

  /** Exactly one `mouseenter` handler showing the tooltip and one `mouseleave` handler hiding it. */
  lemma RebindOnce(ls: seq<Listener>)
    ensures multiset(Rebind(ls))[Enter] == 1 && multiset(Rebind(ls))[Leave] == 1
  {
    RebindShape(ls);
    var o := Others(ls);
    assert multiset(o)[Enter] == 0 && multiset(o)[Leave] == 0;
    assert multiset(o + [Enter, Leave]) == multiset(o) + multiset([Enter, Leave]);
  }

  /** The page's own registrations are neither dropped nor reordered. */
  lemma RebindKeepsOthers(ls: seq<Listener>)
    ensures Others(Rebind(ls)) == Others(ls)
    ensures forall x :: x != Enter && x != Leave ==> (x in Rebind(ls) <==> x in ls)
  {
    RebindShape(ls);
    var o := Others(ls);
    RemoveAppend(o, [Enter, Leave], Enter);
    RemoveAbsent(o, Enter);
    assert [Enter, Leave][1..] == [Leave] && [Leave][1..] == [];
    assert RemoveListener([Leave], Enter) == [Leave] + RemoveListener([], Enter) == [Leave];
    assert RemoveListener([Enter, Leave], Enter) == [Leave];
    RemoveAppend(o, [Leave], Leave);
    RemoveAbsent(o, Leave);
    assert RemoveListener([Leave], Leave) == [];
  }

  /** Binding twice is binding once, so repeated scans never stack handlers. */
  lemma RebindIdempotent(ls: seq<Listener>)
    ensures Rebind(Rebind(ls)) == Rebind(ls)
  {
    RebindKeepsOthers(ls);
    RebindShape(Rebind(ls));
    RebindShape(ls);
  }

  /** `attachEventListeners` on one node: every element with the highlight class is rebound. */
  function Bind(n: Node): Node
    decreases n
  {
    match n
    case TextNode(_) => n
    case Element(t, h, d, ls, cs) => Element(t, h, d, if h then Rebind(ls) else ls, BindAll(cs))
  }

  function BindAll(ns: seq<Node>): (r: seq<Node>)
    ensures |r| == |ns|
    decreases ns
  {
    if ns == [] then [] else [Bind(ns[0])] + BindAll(ns[1..])
  }

  /** Every highlight element carries each tooltip handler exactly once. */
  predicate Bound(n: Node)
    decreases n
  {
    match n
    case TextNode(_) => true
    case Element(_, h, _, ls, cs) =>
      (h ==> multiset(ls)[Enter] == 1 && multiset(ls)[Leave] == 1) && BoundAll(cs)
  }

  predicate BoundAll(ns: seq<Node>)
    decreases ns
  {
    ns == [] || (Bound(ns[0]) && BoundAll(ns[1..]))
  }

  lemma {:induction false} BindBound(n: Node)
    ensures Bound(Bind(n))
    decreases n
  {
    match n
    case TextNode(_) =>
    case Element(_, h, _, ls, cs) =>
      if h {
        RebindOnce(ls);
      }
      BindAllBound(cs);
  }

  /** After `attachEventListeners`, every highlight element has one handler of each kind. */
  lemma {:induction false} BindAllBound(ns: seq<Node>)
    ensures BoundAll(BindAll(ns))
    decreases ns
  {
    if ns != [] {
      BindBound(ns[0]);
      BindAllBound(ns[1..]);
      assert BindAll(ns)[1..] == BindAll(ns[1..]);
    }
  }

  lemma {:induction false} BindIdempotent(n: Node)
    ensures Bind(Bind(n)) == Bind(n)
    decreases n
  {
    match n
    case TextNode(_) =>
    case Element(_, h, _, ls, cs) =>
      if h {
        RebindIdempotent(ls);
      }
      BindAllIdempotent(cs);
  }

  /** A second `attachEventListeners` changes nothing. */
  lemma {:induction false} BindAllIdempotent(ns: seq<Node>)
    ensures BindAll(BindAll(ns)) == BindAll(ns)
    decreases ns
  {
    if ns != [] {
      BindIdempotent(ns[0]);
      BindAllIdempotent(ns[1..]);
      assert BindAll(ns)[1..] == BindAll(ns[1..]);
    }
  }

  /** `attachEventListeners` called `k` times. */
  function BindTimes(ns: seq<Node>, k: nat): seq<Node>
    decreases k
  {
    if k == 0 then ns else BindAll(BindTimes(ns, k - 1))
  }

  /** After `k >= 1` calls each highlight element has the handlers that one call gives it. */
  lemma {:induction false} BindTimesOnce(ns: seq<Node>, k: nat)
    requires k >= 1
    ensures BindTimes(ns, k) == BindAll(ns)
    decreases k
  {
    if k > 1 {
      BindTimesOnce(ns, k - 1);
      BindAllIdempotent(ns);
    }
  }

  lemma {:induction false} BindLeaves(n: Node, shielded: bool)
    ensures Leaves(Bind(n), shielded) == Leaves(n, shielded) && Count(Bind(n)) == Count(n)
    decreases n
  {
    match n
    case TextNode(_) =>
    case Element(_, _, _, _, cs) =>
      BindAllLeaves(cs, shielded || Shields(n));
  }

  /** Binding changes no text node, no text and no shielding: a later scan sees the same page. */
  lemma {:induction false} BindAllLeaves(ns: seq<Node>, shielded: bool)
    ensures LeavesAll(BindAll(ns), shielded) == LeavesAll(ns, shielded)
    ensures CountAll(BindAll(ns)) == CountAll(ns)
    decreases ns
  {
    if ns != [] {
      BindLeaves(ns[0], shielded);
      BindAllLeaves(ns[1..], shielded);
      assert BindAll(ns)[1..] == BindAll(ns[1..]);
    }
  }
}
