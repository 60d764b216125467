/**
 * What the runs `processTextNode` builds promise about the text node they
 * replace: they spell the original text exactly, none is empty, every span is a
 * word-bounded, case-insensitive occurrence of a registered name, the spans do
 * not overlap and follow the order of the names, and every bounded occurrence
 * is either highlighted or lies before the cursor an earlier name left behind.
 */
module MatcherProperties {
  import opened Wrappers
  import opened Text
  import opened Seqs
  import opened Matcher

  /** The text a sequence of runs displays: plain text and span text, in order. */
  function Concat(runs: seq<Run>): string
    decreases |runs|
  {
    if runs == [] then [] else runs[0].text + Concat(runs[1..])
  }

  lemma {:induction false} ConcatAppend(a: seq<Run>, b: seq<Run>)
    ensures Concat(a + b) == Concat(a) + Concat(b)
    decreases |a|
  {
    if a == [] {
      assert a + b == b;
    } else {
      assert (a + b)[1..] == a[1..] + b;
      ConcatAppend(a[1..], b);
      AppendAssoc(a[0].text, Concat(a[1..]), Concat(b));
    }
  }

  lemma PlainRunText(s: string)
    ensures Concat(PlainRun(s)) == s
  {
    if s != [] {
      assert Concat([Plain(s)]) == s + Concat([]);
    }
  }

  /** No run of the sequence is empty: no `""` text node and no empty span. */
  predicate NoEmptyRun(runs: seq<Run>)
  {
    forall i | 0 <= i < |runs| :: runs[i].text != []
  }

  /**
   * The shape of a list of accepted matches: each one lies inside the text at or
   * after the cursor and ends at or before the end of the list, and of two
   * matches the earlier one ends before the later one starts.
   */
  predicate Disjoint(text: string, ms: seq<Match>, cursor: nat)
  {
    && (forall i | 0 <= i < |ms| :: cursor <= ms[i].start && MatchEnd(ms[i]) <= |text|)
    && (forall i, j | 0 <= i < j < |ms| :: MatchEnd(ms[i]) <= ms[j].start)
  }

  /** `Ordered` says exactly that the matches are in bounds, in order and pairwise disjoint. */
  lemma {:induction false} OrderedIsDisjoint(text: string, ms: seq<Match>, cursor: nat)
    ensures Ordered(text, ms, cursor) <==> Disjoint(text, ms, cursor)
    decreases |ms|
  {
    if ms != [] {
      OrderedIsDisjoint(text, ms[1..], MatchEnd(ms[0]));
      if Disjoint(text, ms, cursor) {
        assert Disjoint(text, ms[1..], MatchEnd(ms[0])) by {
          forall i | 0 <= i < |ms[1..]|
            ensures MatchEnd(ms[0]) <= ms[1..][i].start
          {
            assert ms[1..][i] == ms[i + 1];
          }
          forall i, j | 0 <= i < j < |ms[1..]|
            ensures MatchEnd(ms[1..][i]) <= ms[1..][j].start
          {
            assert ms[1..][i] == ms[i + 1] && ms[1..][j] == ms[j + 1];
          }
        }
      }
      if Ordered(text, ms, cursor) {
        var tail := ms[1..];
        assert Disjoint(text, tail, MatchEnd(ms[0]));
        forall i | 0 <= i < |ms|
          ensures cursor <= ms[i].start && MatchEnd(ms[i]) <= |text|
        {
          if i > 0 {
            assert ms[i] == tail[i - 1];
          }
        }
        forall i, j | 0 <= i < j < |ms|
          ensures MatchEnd(ms[i]) <= ms[j].start
        {
          assert ms[j] == tail[j - 1];
          if i > 0 {
            assert ms[i] == tail[i - 1];
          }
        }
      }
    }
  }

  /** The cursor after a list of matches is at or after the end of every match in it. */
  lemma EndAfterAll(text: string, ms: seq<Match>, cursor: nat)
    requires Ordered(text, ms, cursor)
    ensures forall i | 0 <= i < |ms| :: MatchEnd(ms[i]) <= End(ms, cursor)
  {
    OrderedIsDisjoint(text, ms, cursor);
    forall i | 0 <= i < |ms|
      ensures MatchEnd(ms[i]) <= End(ms, cursor)
    {
      if i < |ms| - 1 {
        assert MatchEnd(ms[i]) <= ms[|ms| - 1].start;
      }
    }
  }

  /** A plain run and a span display their two texts, then the rest. */
  lemma ConcatPlainThenSpan(plain: string, span: Run, rest: seq<Run>)
    ensures Concat(PlainRun(plain) + [span] + rest) == plain + span.text + Concat(rest)
  {
    ConcatAppend(PlainRun(plain) + [span], rest);
    ConcatAppend(PlainRun(plain), [span]);
    PlainRunText(plain);
    assert Concat([span]) == span.text + Concat([]);
  }

  /** The runs display exactly the text from the cursor to the end of the last match. */
  lemma {:induction false} FragmentText(text: string, ms: seq<Match>, cursor: nat)
    requires Ordered(text, ms, cursor) && cursor <= |text|
    ensures cursor <= End(ms, cursor) <= |text|
    ensures Concat(Fragment(text, ms, cursor)) == text[cursor..End(ms, cursor)]
    decreases |ms|
  {
    OrderedEnd(text, ms, cursor);
    if ms != [] {
      var m := ms[0];
      var e := End(ms, cursor);
      assert e == End(ms[1..], MatchEnd(m));
      FragmentText(text, ms[1..], MatchEnd(m));
      ConcatPlainThenSpan(text[cursor..m.start], Span(text[m.start..MatchEnd(m)], m.key), Fragment(text, ms[1..], MatchEnd(m)));
      SliceJoin(text, cursor, m.start, MatchEnd(m));
      SliceJoin(text, cursor, MatchEnd(m), e);
    }
  }

  /**
   * Exact reconstruction: when `processTextNode` replaces a text node, the
   * replacement displays exactly the text the node held.
   */
  lemma ProcessReconstructs(text: string, keys: seq<string>)
    requires NonEmptyKeys(keys)
    ensures Process(text, keys).Some? ==> Concat(Process(text, keys).value) == text
  {
    var ms := AllMatches(text, keys, 0);
    FragmentText(text, ms, 0);
    var last := End(ms, 0);
    if last > 0 {
      ConcatAppend(Fragment(text, ms, 0), PlainRun(text[last..]));
      PlainRunText(text[last..]);
      assert text[..last] + text[last..] == text;
    }
  }

  /** Every match of a name is a bounded occurrence of that very name. */
  lemma {:induction false} KeyMatchesSound(text: string, key: string, cursor: nat)
    requires |key| > 0
    ensures forall i | 0 <= i < |KeyMatches(text, key, cursor)| ::
      KeyMatches(text, key, cursor)[i].key == key && BoundedAt(text, key, KeyMatches(text, key, cursor)[i].start)
    decreases |text| - cursor
  {
    var r := NextBounded(text, key, cursor);
    if r.Some? {
      var m := r.value;
      var next := m + |key|;
      KeyMatchesSound(text, key, next);
      var later := KeyMatches(text, key, next);
      var ms := KeyMatches(text, key, cursor);
      assert ms == [Match(m, key)] + later;
      forall i | 0 <= i < |ms|
        ensures ms[i].key == key && BoundedAt(text, key, ms[i].start)
      {
        if i > 0 {
          assert ms[i] == later[i - 1];
        }
      }
    }
  }

  /** Each accepted match carries a registered name and sits at a bounded occurrence of it. */
  predicate Sound(text: string, keys: seq<string>, ms: seq<Match>)
  {
    forall i | 0 <= i < |ms| :: ms[i].key in keys && BoundedAt(text, ms[i].key, ms[i].start)
  }

  lemma {:induction false} AllMatchesSound(text: string, keys: seq<string>, cursor: nat)
    requires NonEmptyKeys(keys)
    ensures Sound(text, keys, AllMatches(text, keys, cursor))
    decreases |keys|
  {
    if keys != [] {
      var first := KeyMatches(text, keys[0], cursor);
      KeyMatchesSound(text, keys[0], cursor);
      AllMatchesSound(text, keys[1..], End(first, cursor));
      var rest := AllMatches(text, keys[1..], End(first, cursor));
      var all: seq<Match> := first + rest;
      forall i | 0 <= i < |all|
        ensures all[i].key in keys && BoundedAt(text, all[i].key, all[i].start)
      {
        if i < |first| {
          assert all[i] == first[i] && first[i].key == keys[0];
        } else {
          assert all[i] == rest[i - |first|];
          assert rest[i - |first|].key in keys[1..];
        }
      }
    }
  }

  /** Runs built from matches of non-empty names contain no empty run. */
  lemma {:induction false} FragmentNoEmptyRun(text: string, ms: seq<Match>, cursor: nat)
    requires Ordered(text, ms, cursor)
    requires forall i | 0 <= i < |ms| :: |ms[i].key| > 0
    ensures NoEmptyRun(Fragment(text, ms, cursor))
    decreases |ms|
  {
    if ms != [] {
      var m := ms[0];
      forall i | 0 <= i < |ms[1..]|
        ensures |ms[1..][i].key| > 0
      {
        assert ms[1..][i] == ms[i + 1];
      }
      FragmentNoEmptyRun(text, ms[1..], MatchEnd(m));
      var plain := PlainRun(text[cursor..m.start]);
      var span := [Span(text[m.start..MatchEnd(m)], m.key)];
      assert |text[m.start..MatchEnd(m)]| == |m.key|;
      assert NoEmptyRun(plain + span);
    }
  }

  /** The replacement holds no empty run: no leading `""` when a match starts at offset 0, none between adjacent matches, none at the end. */
  lemma ProcessNoEmptyRun(text: string, keys: seq<string>)
    requires NonEmptyKeys(keys)
    ensures Process(text, keys).Some? ==> NoEmptyRun(Process(text, keys).value)
  {
    var ms := AllMatches(text, keys, 0);
    AllMatchesSound(text, keys, 0);
    FragmentNoEmptyRun(text, ms, 0);
  }

  /** Each span displays the original-case text of a registered name, equal to it up to case. */
  predicate SpansShowKeys(runs: seq<Run>, keys: seq<string>)
  {
    forall i | 0 <= i < |runs| && runs[i].Span? :: runs[i].key in keys && LowerStr(runs[i].text) == LowerStr(runs[i].key)
  }

  lemma {:induction false} FragmentSpansShowKeys(text: string, keys: seq<string>, ms: seq<Match>, cursor: nat)
    requires Ordered(text, ms, cursor) && Sound(text, keys, ms)
    ensures SpansShowKeys(Fragment(text, ms, cursor), keys)
    decreases |ms|
  {
    if ms != [] {
      var m := ms[0];
      assert Sound(text, keys, ms[1..]) by {
        forall i | 0 <= i < |ms[1..]|
          ensures ms[1..][i].key in keys && BoundedAt(text, ms[1..][i].key, ms[1..][i].start)
        {
          assert ms[1..][i] == ms[i + 1];
        }
      }
      FragmentSpansShowKeys(text, keys, ms[1..], MatchEnd(m));
      LowerSlice(text, m.start, MatchEnd(m));
      assert BoundedAt(text, m.key, m.start);
      OccursAtSlice(LowerStr(text), LowerStr(m.key), m.start);
      var plain := PlainRun(text[cursor..m.start]);
      var span := [Span(text[m.start..MatchEnd(m)], m.key)];
      assert SpansShowKeys(plain + span, keys);
    }
  }

  lemma ProcessSpansShowKeys(text: string, keys: seq<string>)
    requires NonEmptyKeys(keys)
    ensures Process(text, keys).Some? ==> SpansShowKeys(Process(text, keys).value, keys)
  {
    var ms := AllMatches(text, keys, 0);
    AllMatchesSound(text, keys, 0);
    FragmentSpansShowKeys(text, keys, ms, 0);
  }

  /** The spans of a sequence of runs, in order. */
  function Spans(runs: seq<Run>): seq<Run>
    decreases |runs|
  {
    if runs == [] then []
    else (if runs[0].Span? then [runs[0]] else []) + Spans(runs[1..])
  }

  lemma {:induction false} SpansAppend(a: seq<Run>, b: seq<Run>)
    ensures Spans(a + b) == Spans(a) + Spans(b)
    decreases |a|
  {
    if a == [] {
      assert a + b == b;
    } else {
      assert (a + b)[1..] == a[1..] + b;
      SpansAppend(a[1..], b);
      AppendAssoc(if a[0].Span? then [a[0]] else [], Spans(a[1..]), Spans(b));
    }
  }

  /** A plain run before a span adds nothing to the spans. */
  lemma SpansPlainThenSpan(plain: string, span: Run, rest: seq<Run>)
    requires span.Span?
    ensures Spans(PlainRun(plain) + [span] + rest) == [span] + Spans(rest)
  {
    SpansAppend(PlainRun(plain) + [span], rest);
    SpansAppend(PlainRun(plain), [span]);
    assert Spans([span]) == [span] + Spans([]);
    if plain != [] {
      assert Spans([Plain(plain)]) == [] + Spans([]);
    }
  }

  /** The spans a list of matches produces: each match's text in its original case, with its name. */
  function MatchSpans(text: string, ms: seq<Match>, cursor: nat): seq<Run>
    requires Ordered(text, ms, cursor)
    decreases |ms|
  {
    if ms == [] then []
    else [Span(text[ms[0].start..MatchEnd(ms[0])], ms[0].key)] + MatchSpans(text, ms[1..], MatchEnd(ms[0]))
  }

  /** The spans of the runs are exactly the spans of the matches, in order. */
  lemma {:induction false} FragmentSpans(text: string, ms: seq<Match>, cursor: nat)
    requires Ordered(text, ms, cursor)
    ensures Spans(Fragment(text, ms, cursor)) == MatchSpans(text, ms, cursor)
    decreases |ms|
  {
    if ms != [] {
      var m := ms[0];
      FragmentSpans(text, ms[1..], MatchEnd(m));
      SpansPlainThenSpan(text[cursor..m.start], Span(text[m.start..MatchEnd(m)], m.key), Fragment(text, ms[1..], MatchEnd(m)));
    }
  }

  /**
   * The spans correspond one to one to the matches: the i-th span holds the
   * text of the i-th match in its original case and the name exactly as
   * registered.
   */
  lemma {:induction false} MatchSpansAt(text: string, ms: seq<Match>, cursor: nat)
    requires Ordered(text, ms, cursor)
    ensures |MatchSpans(text, ms, cursor)| == |ms|
    ensures forall i | 0 <= i < |ms| ::
              MatchEnd(ms[i]) <= |text| && MatchSpans(text, ms, cursor)[i] == Span(text[ms[i].start..MatchEnd(ms[i])], ms[i].key)
    decreases |ms|
  {
    if ms != [] {
      var tail := ms[1..];
      MatchSpansAt(text, tail, MatchEnd(ms[0]));
      var spans := MatchSpans(text, ms, cursor);
      var later := MatchSpans(text, tail, MatchEnd(ms[0]));
      assert spans == [Span(text[ms[0].start..MatchEnd(ms[0])], ms[0].key)] + later;
      forall i | 0 < i < |ms|
        ensures MatchEnd(ms[i]) <= |text| && spans[i] == Span(text[ms[i].start..MatchEnd(ms[i])], ms[i].key)
      {
        assert ms[i] == tail[i - 1] && spans[i] == later[i - 1];
      }
    }
  }

  /**
   * The spans of the replacement are, in order, the accepted matches: the i-th
   * span shows the text of the i-th match and records its name as registered.
   */
  lemma ProcessSpans(text: string, keys: seq<string>)
    requires NonEmptyKeys(keys)
    ensures Process(text, keys).Some? ==>
              var ms := AllMatches(text, keys, 0);
              && |Spans(Process(text, keys).value)| == |ms|
              && forall i | 0 <= i < |ms| ::
                   && MatchEnd(ms[i]) <= |text|
                   && Spans(Process(text, keys).value)[i] == Span(text[ms[i].start..MatchEnd(ms[i])], ms[i].key)
                   && ms[i].key in keys && BoundedAt(text, ms[i].key, ms[i].start)
  {
    var ms := AllMatches(text, keys, 0);
    AllMatchesSound(text, keys, 0);
    OrderedEnd(text, ms, 0);
    FragmentSpans(text, ms, 0);
    MatchSpansAt(text, ms, 0);
    var last := End(ms, 0);
    if last > 0 {
      SpansAppend(Fragment(text, ms, 0), PlainRun(text[last..]));
      if text[last..] != [] {
        assert Spans([Plain(text[last..])]) == [] + Spans([]);
      }
      AppendEmpty(Spans(Fragment(text, ms, 0)));
    }
  }

  /** Every match of a name starts at or after the cursor, and the greedy scan covers every bounded occurrence at or after it. */
  lemma {:induction false} KeyMatchesCover(text: string, key: string, cursor: nat, p: int)
    requires |key| > 0 && cursor <= p && BoundedAt(text, key, p)
    ensures Covered(KeyMatches(text, key, cursor), key, p)
    decreases |text| - cursor
  {
    var r := NextBounded(text, key, cursor);
    if r.None? || p < r.value {
      NextBoundedLeftmost(text, key, cursor, p);
      assert false;
    } else {
      var m := r.value;
      var later := KeyMatches(text, key, m + |key|);
      var ms := KeyMatches(text, key, cursor);
      assert ms == [Match(m, key)] + later;
      if p < m + |key| {
        assert ms[0] == Match(m, key) && m <= p < MatchEnd(ms[0]);
      } else {
        KeyMatchesCover(text, key, m + |key|, p);
        CoveredCons(Match(m, key), later, key, p);
      }
    }
  }

  /** Some match of the list, of name `key`, covers offset `p`. */
  predicate Covered(ms: seq<Match>, key: string, p: int)
  {
    exists i :: 0 <= i < |ms| && ms[i].key == key && ms[i].start <= p < MatchEnd(ms[i])
  }

  lemma CoveredCons(m: Match, ms: seq<Match>, key: string, p: int)
    requires Covered(ms, key, p)
    ensures Covered([m] + ms, key, p)
  {
    var i :| 0 <= i < |ms| && ms[i].key == key && ms[i].start <= p < MatchEnd(ms[i]);
    assert ([m] + ms)[i + 1] == ms[i];
  }

  lemma CoveredMiddle(a: seq<Match>, b: seq<Match>, c: seq<Match>, key: string, p: int)
    requires Covered(b, key, p)
    ensures Covered((a + b) + c, key, p)
  {
    var i :| 0 <= i < |b| && b[i].key == key && b[i].start <= p < MatchEnd(b[i]);
    assert ((a + b) + c)[|a| + i] == b[i];
  }

  /** Where the gap before the `i`-th match begins: the cursor, or the end of the match before it. */
  function GapStart(ms: seq<Match>, cursor: nat, i: nat): nat
    requires i < |ms|
  {
    if i == 0 then cursor else MatchEnd(ms[i - 1])
  }

  /** The greedy scan is leftmost: no bounded occurrence of the name lies in the gap before any of its matches. */
  lemma {:induction false} KeyMatchesLeftmost(text: string, key: string, cursor: nat)
    requires |key| > 0
    ensures forall i, j | 0 <= i < |KeyMatches(text, key, cursor)| && GapStart(KeyMatches(text, key, cursor), cursor, i) <= j < KeyMatches(text, key, cursor)[i].start ::
              !BoundedAt(text, key, j)
    decreases |text| - cursor
  {
    var r := NextBounded(text, key, cursor);
    if r.Some? {
      var m := r.value;
      var next := m + |key|;
      KeyMatchesLeftmost(text, key, next);
      var later := KeyMatches(text, key, next);
      var ms := KeyMatches(text, key, cursor);
      assert ms == [Match(m, key)] + later;
      forall i, j | 0 <= i < |ms| && GapStart(ms, cursor, i) <= j < ms[i].start
        ensures !BoundedAt(text, key, j)
      {
        if i == 0 {
          NextBoundedLeftmost(text, key, cursor, j);
        } else {
          GapShift(ms, later, Match(m, key), cursor, next, i);
        }
      }
    }
  }

  lemma GapShift(ms: seq<Match>, later: seq<Match>, m: Match, cursor: nat, next: nat, i: nat)
    requires ms == [m] + later && next == MatchEnd(m) && 0 < i < |ms|
    ensures ms[i] == later[i - 1] && GapStart(ms, cursor, i) == GapStart(later, next, i - 1)
  {
    if i > 1 {
      assert ms[i - 1] == later[i - 2];
    }
  }

  /** Nor does one lie after the last match: the scan stops only when the name occurs no more. */
  lemma {:induction false} KeyMatchesExhaustive(text: string, key: string, cursor: nat)
    requires |key| > 0
    ensures forall j | End(KeyMatches(text, key, cursor), cursor) <= j :: !BoundedAt(text, key, j)
    decreases |text| - cursor
  {
    var r := NextBounded(text, key, cursor);
    if r.None? {
      NextBoundedNone(text, key, cursor);
    } else {
      var next := r.value + |key|;
      KeyMatchesExhaustive(text, key, next);
      KeyMatchesStep(text, key, cursor);
      EndCons(Match(r.value, key), KeyMatches(text, key, next), cursor);
    }
  }

  /** The names before position `i` leave the shared cursor where the names from `i` on start. */
  lemma {:induction false} AllMatchesSplit(text: string, keys: seq<string>, i: nat, cursor: nat)
    requires NonEmptyKeys(keys) && i <= |keys|
    ensures var earlier := AllMatches(text, keys[..i], cursor);
      AllMatches(text, keys, cursor) == earlier + AllMatches(text, keys[i..], End(earlier, cursor))
    decreases i
  {
    if i == 0 {
      assert keys[..0] == [] && keys[0..] == keys;
    } else {
      var first := KeyMatches(text, keys[0], cursor);
      var next := End(first, cursor);
      var tail := keys[1..];
      AllMatchesSplit(text, tail, i - 1, next);
      var middle := AllMatches(text, tail[..i - 1], next);
      var last := AllMatches(text, tail[i - 1..], End(middle, next));
      assert tail[i - 1..] == keys[i..];
      assert AllMatches(text, keys, cursor) == first + (middle + last);
      var prefix := keys[..i];
      assert prefix[0] == keys[0] && prefix[1..] == tail[..i - 1];
      assert AllMatches(text, prefix, cursor) == first + middle;
      EndAppend(first, middle, cursor);
      AppendAssoc(first, middle, last);
    }
  }

  /**
   * Shared cursor, first-registered-name-wins: every match of the names from
   * position `i` on starts at or after the end of every match of the names
   * before it.
   */
  lemma LaterNamesAfterEarlier(text: string, keys: seq<string>, i: nat)
    requires NonEmptyKeys(keys) && i <= |keys|
    ensures var earlier := AllMatches(text, keys[..i], 0);
      var later := AllMatches(text, keys[i..], End(earlier, 0));
      forall a, b | 0 <= a < |earlier| && 0 <= b < |later| :: MatchEnd(earlier[a]) <= later[b].start
  {
    var earlier := AllMatches(text, keys[..i], 0);
    var cursor := End(earlier, 0);
    var later := AllMatches(text, keys[i..], cursor);
    EndAfterAll(text, earlier, 0);
    OrderedIsDisjoint(text, later, cursor);
  }

  /**
   * Every word-bounded occurrence of a registered name is either highlighted as
   * that name or lies before the cursor the earlier names left behind (they
   * shadow it).
   */
  lemma ShadowOrCover(text: string, keys: seq<string>, i: nat, p: int)
    requires NonEmptyKeys(keys) && i < |keys| && BoundedAt(text, keys[i], p)
    ensures p < End(AllMatches(text, keys[..i], 0), 0) || Covered(AllMatches(text, keys, 0), keys[i], p)
  {
    var earlier := AllMatches(text, keys[..i], 0);
    var cursor := End(earlier, 0);
    if cursor <= p {
      AllMatchesSplit(text, keys, i, 0);
      var mine := KeyMatches(text, keys[i], cursor);
      var rest := AllMatches(text, keys[i + 1..], End(mine, cursor));
      assert keys[i..][0] == keys[i] && keys[i..][1..] == keys[i + 1..];
      assert AllMatches(text, keys[i..], cursor) == mine + rest;
      var ms := AllMatches(text, keys, 0);
      AppendAssoc(earlier, mine, rest);
      assert ms == (earlier + mine) + rest;
      KeyMatchesCover(text, keys[i], cursor, p);
      CoveredMiddle(earlier, mine, rest, keys[i], p);
    }
  }

  /** The search for a name finds nothing exactly when the name has no bounded occurrence from there on. */
  lemma NextBoundedNone(text: string, key: string, from: nat)
    requires |key| > 0
    ensures NextBounded(text, key, from) == None <==> forall j | from <= j :: !BoundedAt(text, key, j)
  {
    if NextBounded(text, key, from) == None {
      forall j | from <= j
        ensures !BoundedAt(text, key, j)
      {
        NextBoundedLeftmost(text, key, from, j);
      }
    }
  }

  lemma {:induction false} AllMatchesEmpty(text: string, keys: seq<string>, cursor: nat)
    requires NonEmptyKeys(keys)
    ensures AllMatches(text, keys, cursor) == [] <==> forall k | k in keys :: NextBounded(text, k, cursor) == None
    decreases |keys|
  {
    if keys != [] {
      var first := KeyMatches(text, keys[0], cursor);
      AllMatchesEmpty(text, keys[1..], End(first, cursor));
      if first == [] {
        assert forall k | k in keys :: k == keys[0] || k in keys[1..];
      }
    }
  }

  /**
   * Untouched when nothing matches: `processTextNode` leaves the text node as it
   * is exactly when no registered name has a word-bounded occurrence in it.
   */
  lemma ProcessUntouched(text: string, keys: seq<string>)
    requires NonEmptyKeys(keys)
    ensures Process(text, keys).None? <==> forall k, j | k in keys :: !BoundedAt(text, k, j)
  {
    var ms := AllMatches(text, keys, 0);
    AllMatchesEmpty(text, keys, 0);
    AllMatchesSound(text, keys, 0);
    forall k | k in keys
      ensures NextBounded(text, k, 0) == None <==> forall j :: !BoundedAt(text, k, j)
    {
      NextBoundedNone(text, k, 0);
    }
    if ms != [] {
      assert ms[|ms| - 1].key in keys;
    }
  }
}
