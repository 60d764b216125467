/**
 * The match-and-rewrite engine of `processTextNode`: for each registered name,
 * in registration order, a case-insensitive scan for word-bounded occurrences
 * from a cursor that all names share, producing the plain-text runs and
 * highlight spans that replace the text node.
 */
module Matcher {
  import opened Wrappers
  import opened Text
  import opened FactStore
  import opened Seqs

  /** One child of the fragment that replaces a text node. */
  datatype Run = Plain(text: string) | Span(text: string, key: string)

  /** An accepted occurrence of the registered name `key` at offset `start`. */
  datatype Match = Match(start: nat, key: string)

  function MatchEnd(m: Match): nat
  {
    m.start + |m.key|
  }

  /** Every registered name is non-empty (an empty one would make the scan loop forever). */
  predicate NonEmptyKeys(keys: seq<string>)
  {
    forall k | k in keys :: |k| > 0
  }

  /**
   * `key` occurs case-insensitively at offset `m` of `text`, the character before
   * it is absent or not a word character, and so is the character after it.
   */
  predicate BoundedAt(text: string, key: string, m: int)
  {
    OccursAt(LowerStr(text), LowerStr(key), m)
    && (m == 0 || !IsWordChar(text[m - 1]))
    && (m + |key| == |text| || !IsWordChar(text[m + |key|]))
  }

  /** The leftmost word-bounded occurrence of `key` at or after `from`. */
  function NextBounded(text: string, key: string, from: nat): (r: Option<nat>)
    requires |key| > 0
    decreases |text| - from
    ensures r.Some? ==> from <= r.value && BoundedAt(text, key, r.value)
  {
    if from + |key| > |text| then None
    else if BoundedAt(text, key, from) then Some(from)
    else NextBounded(text, key, from + 1)
  }

  /** The search skips no bounded occurrence: none lies between `from` and the result. */
  lemma {:induction false} NextBoundedLeftmost(text: string, key: string, from: nat, j: int)
    requires |key| > 0 && from <= j
    requires var r := NextBounded(text, key, from); r.None? || j < r.value
    ensures !BoundedAt(text, key, j)
    decreases |text| - from
  {
    if from + |key| <= |text| && !BoundedAt(text, key, from) && from < j {
      NextBoundedLeftmost(text, key, from + 1, j);
    }
  }

  /** No bounded occurrence in `[c, d)`: the search from `c` finds what the search from `d` finds. */
  lemma {:induction false} NextBoundedSkip(text: string, key: string, c: nat, d: nat)
    requires |key| > 0 && c <= d
    requires forall j :: c <= j < d ==> !BoundedAt(text, key, j)
    ensures NextBounded(text, key, c) == NextBounded(text, key, d)
    decreases d - c
  {
    if c < d && c + |key| <= |text| {
      NextBoundedSkip(text, key, c + 1, d);
    } else if c < d {
      assert NextBounded(text, key, c) == None;
      assert forall j :: d <= j ==> !OccursAt(LowerStr(text), LowerStr(key), j);
    }
  }

  /**
   * The matches are in bounds, in increasing order and pairwise disjoint, and
   * the first one starts at or after `cursor`.
   */
  predicate Ordered(text: string, ms: seq<Match>, cursor: nat)
    decreases |ms|
  {
    ms == [] || (cursor <= ms[0].start && MatchEnd(ms[0]) <= |text| && Ordered(text, ms[1..], MatchEnd(ms[0])))
  }

  /** Where the cursor stands after the matches: the end of the last one. */
  function End(ms: seq<Match>, cursor: nat): nat
  {
    if ms == [] then cursor else MatchEnd(ms[|ms| - 1])
  }

  lemma {:induction false} OrderedEnd(text: string, ms: seq<Match>, cursor: nat)
    requires Ordered(text, ms, cursor)
    ensures cursor <= End(ms, cursor)
    ensures ms != [] ==> End(ms, cursor) <= |text|
    decreases |ms|
  {
    if ms != [] {
      OrderedEnd(text, ms[1..], MatchEnd(ms[0]));
      if |ms| > 1 {
        assert End(ms, cursor) == End(ms[1..], MatchEnd(ms[0]));
      }
    }
  }

  lemma {:induction false} OrderedAppend(text: string, a: seq<Match>, b: seq<Match>, cursor: nat)
    requires Ordered(text, a, cursor) && Ordered(text, b, End(a, cursor))
    ensures Ordered(text, a + b, cursor)
    decreases |a|
  {
    if a != [] {
      assert (a + b)[1..] == a[1..] + b;
      if |a| > 1 {
        assert End(a, cursor) == End(a[1..], MatchEnd(a[0]));
      }
      OrderedAppend(text, a[1..], b, MatchEnd(a[0]));
    } else {
      assert a + b == b;
    }
  }

  lemma EndAppend(a: seq<Match>, b: seq<Match>, cursor: nat)
    ensures End(a + b, cursor) == End(b, End(a, cursor))
  {
  }

  /**
   * The matches of one name, found greedily from `cursor`: the leftmost bounded
   * occurrence, then the same search again from the end of that match.
   */
  function KeyMatches(text: string, key: string, cursor: nat): (ms: seq<Match>)
    requires |key| > 0
    decreases |text| - cursor
    ensures Ordered(text, ms, cursor)
  {
    match NextBounded(text, key, cursor)
    case None => []
    case Some(m) => [Match(m, key)] + KeyMatches(text, key, m + |key|)
  }

  /**
   * The matches of all names: each name is scanned in turn, starting where the
   * previous names left the shared cursor.
   */
  function AllMatches(text: string, keys: seq<string>, cursor: nat): (ms: seq<Match>)
    requires NonEmptyKeys(keys)
    decreases |keys|
    ensures Ordered(text, ms, cursor)
  {
    if keys == [] then []
    else
      var first := KeyMatches(text, keys[0], cursor);
      var rest := AllMatches(text, keys[1..], End(first, cursor));
      OrderedAppend(text, first, rest, cursor);
      first + rest
  }

  /** One step of the greedy scan: the leftmost bounded occurrence, then the rest from its end. */
  lemma KeyMatchesStep(text: string, key: string, cursor: nat)
    requires |key| > 0 && NextBounded(text, key, cursor).Some?
    ensures var m := NextBounded(text, key, cursor).value;
      m + |key| <= |text| && KeyMatches(text, key, cursor) == [Match(m, key)] + KeyMatches(text, key, m + |key|)
  {
  }

  /** The cursor after a match followed by more matches is the cursor after the latter. */
  lemma EndCons(m: Match, later: seq<Match>, cursor: nat)
    ensures End([m] + later, cursor) == End(later, MatchEnd(m))
  {
    if later != [] {
      assert ([m] + later)[|later|] == later[|later| - 1];
    }
  }

  /** A plain-text run, left out when the text between two matches is empty. */
  function PlainRun(s: string): seq<Run>
  {
    if s == [] then [] else [Plain(s)]
  }

  /** The runs for the matches, without the text after the last match. */
  function Fragment(text: string, ms: seq<Match>, cursor: nat): seq<Run>
    requires Ordered(text, ms, cursor)
    decreases |ms|
  {
    if ms == [] then []
    else
      PlainRun(text[cursor..ms[0].start])
      + [Span(text[ms[0].start..MatchEnd(ms[0])], ms[0].key)]
      + Fragment(text, ms[1..], MatchEnd(ms[0]))
  }

  /**
   * What `processTextNode` does to a text node: `None` leaves the node as it is,
   * `Some(runs)` replaces it by the runs.
   */
  function Process(text: string, keys: seq<string>): Option<seq<Run>>
    requires NonEmptyKeys(keys)
  {
    var ms := AllMatches(text, keys, 0);
    var last := End(ms, 0);
    OrderedEnd(text, ms, 0);
    if last > 0 then Some(Fragment(text, ms, 0) + PlainRun(text[last..])) else None
  }

  /** Appending one more match to the list appends its plain run and its span to the fragment. */
  lemma {:induction false} FragmentSnoc(text: string, ms: seq<Match>, m: Match, cursor: nat)
    requires Ordered(text, ms, cursor)
    requires End(ms, cursor) <= m.start && MatchEnd(m) <= |text|
    ensures Ordered(text, ms + [m], cursor)
    ensures Fragment(text, ms + [m], cursor)
      == Fragment(text, ms, cursor) + PlainRun(text[End(ms, cursor)..m.start]) + [Span(text[m.start..MatchEnd(m)], m.key)]
    decreases |ms|
  {
    OrderedAppend(text, ms, [m], cursor);
    if ms == [] {
      assert ms + [m] == [m];
    } else {
      assert (ms + [m])[1..] == ms[1..] + [m];
      if |ms| > 1 {
        assert End(ms, cursor) == End(ms[1..], MatchEnd(ms[0]));
      }
      FragmentSnoc(text, ms[1..], m, MatchEnd(ms[0]));
    }
  }

  /** Scanning one more name continues from where the earlier names left the cursor. */
  lemma {:induction false} AllMatchesSnoc(text: string, keys: seq<string>, key: string, cursor: nat)
    requires NonEmptyKeys(keys) && |key| > 0
    ensures AllMatches(text, keys + [key], cursor)
      == AllMatches(text, keys, cursor) + KeyMatches(text, key, End(AllMatches(text, keys, cursor), cursor))
    decreases |keys|
  {
    var longer := keys + [key];
    if keys == [] {
      assert longer == [key] && longer[1..] == [];
      assert AllMatches(text, longer, cursor) == KeyMatches(text, key, cursor) + [];
    } else {
      var first := KeyMatches(text, keys[0], cursor);
      var next := End(first, cursor);
      var middle := AllMatches(text, keys[1..], next);
      var last := KeyMatches(text, key, End(middle, next));
      assert AllMatches(text, longer, cursor) == first + (middle + last) by {
        assert longer[0] == keys[0] && longer[1..] == keys[1..] + [key];
        AllMatchesSnoc(text, keys[1..], key, next);
      }
      assert AllMatches(text, keys, cursor) == first + middle;
      assert End(first + middle, cursor) == End(middle, next) by {
        EndAppend(first, middle, cursor);
      }
      AppendAssoc(first, middle, last);
    }
  }

  /**
   * What one `indexOf` call tells the scan: when it finds nothing there is no
   * bounded occurrence left, and otherwise none is skipped before the candidate.
   */
  lemma CandidateSearch(text: string, key: string, from: nat)
    requires |key| > 0 && from <= |text|
    ensures var r := IndexOf(LowerStr(text), LowerStr(key), from);
      && (r == -1 ==> NextBounded(text, key, from) == None)
      && (r != -1 ==> from <= r && NextBounded(text, key, from) == NextBounded(text, key, r))
  {
    var r := IndexOf(LowerStr(text), LowerStr(key), from);
    forall j | from <= j && (r == -1 || j < r)
      ensures !BoundedAt(text, key, j)
    {
      IndexOfLeftmost(LowerStr(text), LowerStr(key), from, j);
    }
    if r != -1 {
      NextBoundedSkip(text, key, from, r);
    }
  }

  /** An accepted candidate is the next greedy match of the name. */
  lemma AcceptStep(text: string, key: string, cursor: nat, found: seq<Match>, last: nat, m: nat)
    requires |key| > 0 && cursor <= last <= m
    requires KeyMatches(text, key, cursor) == found + KeyMatches(text, key, last)
    requires NextBounded(text, key, last) == NextBounded(text, key, m) && BoundedAt(text, key, m)
    ensures KeyMatches(text, key, cursor) == (found + [Match(m, key)]) + KeyMatches(text, key, m + |key|)
  {
    assert NextBounded(text, key, m) == Some(m);
    assert KeyMatches(text, key, last) == [Match(m, key)] + KeyMatches(text, key, m + |key|);
    AppendAssoc(found, [Match(m, key)], KeyMatches(text, key, m + |key|));
  }

  /** A rejected candidate hides nothing: the search resumes one character later. */
  lemma RejectStep(text: string, key: string, last: nat, m: nat)
    requires |key| > 0 && last <= m
    requires OccursAt(LowerStr(text), LowerStr(key), m) && !BoundedAt(text, key, m)
    requires NextBounded(text, key, last) == NextBounded(text, key, m)
    ensures var r := IndexOf(LowerStr(text), LowerStr(key), m + 1);
      && (r == -1 ==> NextBounded(text, key, last) == None)
      && (r != -1 ==> m < r && OccursAt(LowerStr(text), LowerStr(key), r) && NextBounded(text, key, last) == NextBounded(text, key, r))
  {
    NextBoundedSkip(text, key, m, m + 1);
    CandidateSearch(text, key, m + 1);
  }

  /**
   * The two `appendChild` calls for an accepted candidate: the text between the
   * cursor and the match, when there is any, then the span holding the matched
   * text in its original case and the name as registered.
   */
  method AppendMatch(text: string, fragment: seq<Run>, lastIndex: nat, m: Match, ghost done: seq<Match>)
    returns (extended: seq<Run>)
    requires Ordered(text, done, 0) && lastIndex == End(done, 0) <= m.start && MatchEnd(m) <= |text|
    requires fragment == Fragment(text, done, 0)
    ensures Ordered(text, done + [m], 0) && End(done + [m], 0) == MatchEnd(m)
    ensures extended == Fragment(text, done + [m], 0)
  {
    extended := fragment;
    if m.start > lastIndex {
      extended := extended + [Plain(text[lastIndex..m.start])];
    }
    extended := extended + [Span(text[m.start..m.start + |m.key|], m.key)];
    FragmentSnoc(text, done, m, 0);
  }

  /**
   * An accepted candidate: the text before it and its span are appended, and
   * the shared cursor moves to the end of the match.
   */
  method AcceptCandidate(text: string, name: string, cursor: nat, matchIndex: nat, lastIndex: nat, fragment: seq<Run>,
                         ghost ms: seq<Match>, ghost found: seq<Match>, ghost done: seq<Match>)
    returns (newLast: nat, newFragment: seq<Run>, ghost newFound: seq<Match>, ghost newDone: seq<Match>)
    requires |name| > 0 && cursor <= lastIndex <= matchIndex && BoundedAt(text, name, matchIndex)
    requires KeyMatches(text, name, cursor) == found + KeyMatches(text, name, lastIndex)
    requires NextBounded(text, name, lastIndex) == NextBounded(text, name, matchIndex)
    requires done == ms + found && Ordered(text, done, 0) && lastIndex == End(done, 0)
    requires fragment == Fragment(text, done, 0)
    ensures newLast == matchIndex + |name| <= |text|
    ensures KeyMatches(text, name, cursor) == newFound + KeyMatches(text, name, newLast)
    ensures newDone == ms + newFound && Ordered(text, newDone, 0) && newLast == End(newDone, 0)
    ensures newFragment == Fragment(text, newDone, 0)
  {
    var m := Match(matchIndex, name);
    newFragment := AppendMatch(text, fragment, lastIndex, m, done);
    AppendAssoc(ms, found, [m]);
    newFound := found + [m];
    newDone := done + [m];
    newLast := matchIndex + |name|;
    AcceptStep(text, name, cursor, found, lastIndex, matchIndex);
  }

  /**
   * One turn of the `while` loop of `processTextNode`: the boundary test of
   * the candidate, then either the accept (append, move the cursor, search
   * again from it) or the reject (search again one character later).
   */
  method ScanStep(text: string, content: string, name: string, nameLower: string, cursor: nat, matchIndex: int,
                  lastIndex: nat, fragment: seq<Run>, ghost ms: seq<Match>, ghost found: seq<Match>, ghost done: seq<Match>)
    returns (newMatch: int, newLast: nat, newFragment: seq<Run>, ghost newFound: seq<Match>, ghost newDone: seq<Match>)
    requires content == LowerStr(text) && nameLower == LowerStr(name) && |name| > 0
    requires cursor <= lastIndex <= |text|
    requires KeyMatches(text, name, cursor) == found + KeyMatches(text, name, lastIndex)
    requires done == ms + found && Ordered(text, done, 0) && lastIndex == End(done, 0)
    requires fragment == Fragment(text, done, 0)
    requires lastIndex <= matchIndex && OccursAt(content, nameLower, matchIndex)
    requires NextBounded(text, name, lastIndex) == NextBounded(text, name, matchIndex)
    ensures cursor <= newLast <= |text|
    ensures KeyMatches(text, name, cursor) == newFound + KeyMatches(text, name, newLast)
    ensures newDone == ms + newFound && Ordered(text, newDone, 0) && newLast == End(newDone, 0)
    ensures newFragment == Fragment(text, newDone, 0)
    ensures newMatch == -1 ==> NextBounded(text, name, newLast) == None
    ensures newMatch != -1 ==> matchIndex < newMatch && newLast <= newMatch && OccursAt(content, nameLower, newMatch)
    ensures newMatch != -1 ==> NextBounded(text, name, newLast) == NextBounded(text, name, newMatch)
  {
    var before := matchIndex == 0 || !IsWordChar(text[matchIndex - 1]);
    var after := matchIndex + |name| == |text| || !IsWordChar(text[matchIndex + |name|]);
    if before && after {
      newLast, newFragment, newFound, newDone := AcceptCandidate(text, name, cursor, matchIndex, lastIndex, fragment, ms, found, done);
      CandidateSearch(text, name, newLast);
      newMatch := IndexOf(content, nameLower, newLast);
    } else {
      RejectStep(text, name, lastIndex, matchIndex);
      newMatch := IndexOf(content, nameLower, matchIndex + 1);
      newLast, newFragment, newFound, newDone := lastIndex, fragment, found, done;
    }
  }

  /**
   * The callback `processTextNode` passes to `forEach` for one name: the
   * `indexOf` loop that accepts word-bounded candidates (appending the text
   * before the match and the span, and moving the shared cursor `lastIndex` to
   * the end of the match) and resumes one character after a rejected one.
   * It adds exactly the greedy matches of the name from the cursor.
   */
  method ScanName(text: string, content: string, name: string, cursor: nat, fragment0: seq<Run>, ghost ms: seq<Match>)
    returns (lastIndex: nat, fragment: seq<Run>, ghost found: seq<Match>)
    requires content == LowerStr(text) && |name| > 0
    requires Ordered(text, ms, 0) && cursor == End(ms, 0) <= |text| && fragment0 == Fragment(text, ms, 0)
    ensures found == KeyMatches(text, name, cursor)
    ensures Ordered(text, ms + KeyMatches(text, name, cursor), 0)
    ensures lastIndex == End(ms + KeyMatches(text, name, cursor), 0) <= |text|
    ensures fragment == Fragment(text, ms + KeyMatches(text, name, cursor), 0)
  {
    lastIndex, fragment, found := cursor, fragment0, [];
    ghost var done := ms;
    var nameLower := LowerStr(name);
    var matchIndex := IndexOf(content, nameLower, lastIndex);
    CandidateSearch(text, name, lastIndex);
    AppendEmpty(ms);
    assert KeyMatches(text, name, cursor) == found + KeyMatches(text, name, lastIndex);
    while matchIndex != -1
      invariant cursor <= lastIndex <= |text|
      invariant KeyMatches(text, name, cursor) == found + KeyMatches(text, name, lastIndex)
      invariant done == ms + found
      invariant Ordered(text, done, 0) && lastIndex == End(done, 0)
      invariant fragment == Fragment(text, done, 0)
      invariant matchIndex == -1 ==> NextBounded(text, name, lastIndex) == None
      invariant matchIndex != -1 ==> lastIndex <= matchIndex && OccursAt(content, nameLower, matchIndex)
      invariant matchIndex != -1 ==> NextBounded(text, name, lastIndex) == NextBounded(text, name, matchIndex)
      decreases if matchIndex == -1 then 0 else |text| + 1 - matchIndex
    {
      matchIndex, lastIndex, fragment, found, done := ScanStep(text, content, name, nameLower, cursor, matchIndex, lastIndex, fragment, ms, found, done);
    }
    AppendEmpty(found);
  }

  /**
   * `processTextNode`: the names are scanned in order with one cursor,
   * `lastIndex`, shared by all of them. The node is replaced only when the
   * cursor moved, by the fragment followed by the text after the last match.
   */
  method ProcessTextNode(text: string, store: Option<Store>) returns (replacement: Option<seq<Run>>)
    requires store.Some? ==> Valid(store.value)
    ensures store.None? ==> replacement == None
    ensures store.Some? ==> replacement == Process(text, store.value.names)
  {
    if store.None? {
      return None;
    }
    var names := store.value.names;
    var content := LowerStr(text);
    var lastIndex: nat := 0;
    var fragment: seq<Run> := [];
    ghost var ms: seq<Match> := [];
    for i := 0 to |names|
      invariant ms == AllMatches(text, names[..i], 0)
      invariant lastIndex == End(ms, 0) <= |text|
      invariant fragment == Fragment(text, ms, 0)
    {
      ghost var found;
      lastIndex, fragment, found := ScanName(text, content, names[i], lastIndex, fragment, ms);
      TakeSnoc(names, i);
      AllMatchesSnoc(text, names[..i], names[i], 0);
      ms := ms + found;
    }
    TakeAll(names);
    ghost var rest := PlainRun(text[lastIndex..]);
    if lastIndex > 0 {
      if lastIndex < |text| {
        fragment := fragment + [Plain(text[lastIndex..])];
        assert fragment == Fragment(text, ms, 0) + rest;
      } else {
        assert rest == [] && fragment == Fragment(text, ms, 0) + rest;
      }
      replacement := Some(fragment);
    } else {
      replacement := None;
    }
  }
}
