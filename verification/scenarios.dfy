/**
 * Worked examples of `processTextNode` on concrete text nodes, showing the
 * shared cursor (first-registered-name-wins), the word-boundary test and the
 * restart one character after a rejected candidate.
 */
module Scenarios {
  import opened Wrappers
  import opened Text
  import opened Matcher
  import opened Seqs

  /** A candidate with one character that differs from the name's, up to case, is no occurrence. */
  lemma MismatchAt(text: string, key: string, j: nat, k: nat)
    requires |key| > 0 && k < |key| && j + |key| <= |text| && Lower(text[j + k]) != Lower(key[k])
    ensures NextBounded(text, key, j) == NextBounded(text, key, j + 1)
  {
    OccursAtSlice(LowerStr(text), LowerStr(key), j);
    assert LowerStr(text)[j..j + |key|][k] == LowerStr(text)[j + k];
  }

  /** A candidate followed by a word character is no bounded occurrence. */
  lemma WordCharAfter(text: string, key: string, j: nat)
    requires |key| > 0 && j + |key| < |text| && IsWordChar(text[j + |key|])
    ensures NextBounded(text, key, j) == NextBounded(text, key, j + 1)
  {
  }

  /** The name, in any case and between two non-word characters, is a bounded occurrence. */
  lemma CaselessBoundedAt(text: string, key: string, m: nat)
    requires |key| > 0 && m + |key| <= |text|
    requires forall k :: 0 <= k < |key| ==> Lower(text[m + k]) == Lower(key[k])
    requires m == 0 || !IsWordChar(text[m - 1])
    requires m + |key| == |text| || !IsWordChar(text[m + |key|])
    ensures BoundedAt(text, key, m) && NextBounded(text, key, m) == Some(m)
  {
    var lt := LowerStr(text);
    assert lt[m..m + |key|] == LowerStr(key) by {
      forall k | 0 <= k < |key|
        ensures lt[m..m + |key|][k] == LowerStr(key)[k]
      {
        assert lt[m + k] == Lower(text[m + k]);
      }
    }
    OccursAtSlice(lt, LowerStr(key), m);
  }

  /** The first name matches once, at `m`, and the later names find nothing after it. */
  lemma OnlyFirstMatches(text: string, keys: seq<string>, m: nat)
    requires NonEmptyKeys(keys) && |keys| > 0 && m + |keys[0]| <= |text|
    requires KeyMatches(text, keys[0], 0) == [Match(m, keys[0])]
    requires AllMatches(text, keys[1..], m + |keys[0]|) == []
    ensures AllMatches(text, keys, 0) == [Match(m, keys[0])]
  {
    var first := KeyMatches(text, keys[0], 0);
    assert End(first, 0) == m + |keys[0]|;
    AppendEmpty(first);
  }

  /** The first name finds nothing, so the second scans from the start; it matches once, at `m`. */
  lemma OnlySecondMatches(text: string, keys: seq<string>, m: nat)
    requires NonEmptyKeys(keys) && |keys| == 2 && m + |keys[1]| <= |text|
    requires KeyMatches(text, keys[0], 0) == []
    requires KeyMatches(text, keys[1], 0) == [Match(m, keys[1])]
    ensures AllMatches(text, keys, 0) == [Match(m, keys[1])]
  {
    var rest := keys[1..];
    assert rest[0] == keys[1] && rest[1..] == [];
    assert AllMatches(text, rest, 0) == [Match(m, keys[1])] + AllMatches(text, [], m + |keys[1]|);
    assert AllMatches(text, keys, 0) == [] + AllMatches(text, rest, 0);
  }

  /**
   * When the only match is one of `key` at `m`, the node becomes the text
   * before the match, one span and the text after it.
   */
  lemma OneMatch(text: string, keys: seq<string>, key: string, m: nat)
    requires NonEmptyKeys(keys) && m + |key| <= |text| && |key| > 0
    requires AllMatches(text, keys, 0) == [Match(m, key)]
    ensures Process(text, keys)
      == Some(PlainRun(text[..m]) + [Span(text[m..m + |key|], key)] + PlainRun(text[m + |key|..]))
  {
    var e := m + |key|;
    var ms := AllMatches(text, keys, 0);
    assert End(ms, 0) == e > 0;
    var head := PlainRun(text[..m]) + [Span(text[m..e], key)];
    assert Fragment(text, ms, 0) == head + Fragment(text, ms[1..], e);
    assert ms[1..] == [];
    AppendEmpty(head);
  }

  /** A scan that finds one bounded occurrence, at `m`, and none after it. */
  lemma SingleKeyMatch(text: string, key: string, cursor: nat, m: nat)
    requires |key| > 0 && NextBounded(text, key, cursor) == Some(m) && m + |key| <= |text|
    requires NextBounded(text, key, m + |key|) == None
    ensures KeyMatches(text, key, cursor) == [Match(m, key)]
  {
    KeyMatchesStep(text, key, cursor);
    assert KeyMatches(text, key, m + |key|) == [];
  }

  /** The scan for `"Verstappen"` over `"Max Verstappen won"`. */
  lemma SurnameScan(text: string, key: string)
    requires |text| == 18 && text[..4] == "Max " && text[4..14] == "Verstappen" && text[14..] == " won"
    requires key == "Verstappen"
    ensures KeyMatches(text, key, 0) == [Match(4, key)]
  {
    MismatchAt(text, key, 0, 0);
    MismatchAt(text, key, 1, 0);
    MismatchAt(text, key, 2, 0);
    MismatchAt(text, key, 3, 0);
    CaselessBoundedAt(text, key, 4);
    SingleKeyMatch(text, key, 0, 4);
  }

  /** `"Max Verstappen"` cannot occur in the four characters after the surname. */
  lemma FullNameAfterSurname(text: string, keys: seq<string>)
    requires |text| == 18 && keys == ["Max Verstappen"]
    ensures AllMatches(text, keys, 14) == []
  {
    assert KeyMatches(text, keys[0], 14) == [];
    assert keys[1..] == [];
  }

  /**
   * Keys `["Verstappen", "Max Verstappen"]` on `"Max Verstappen won"`: the
   * first name takes the surname, and the longer name, searched only after it,
   * finds nothing.
   */
  lemma ShorterNameFirst(text: string, keys: seq<string>)
    requires |text| == 18 && text[..4] == "Max " && text[4..14] == "Verstappen" && text[14..] == " won"
    requires keys == ["Verstappen", "Max Verstappen"]
    ensures Process(text, keys) == Some([Plain("Max "), Span("Verstappen", "Verstappen"), Plain(" won")])
  {
    SurnameScan(text, keys[0]);
    FullNameAfterSurname(text, keys[1..]);
    OnlyFirstMatches(text, keys, 4);
    OneMatch(text, keys, keys[0], 4);
    assert PlainRun(text[..4]) == [Plain("Max ")] && PlainRun(text[14..]) == [Plain(" won")];
    assert [Plain("Max ")] + [Span("Verstappen", "Verstappen")] + [Plain(" won")]
      == [Plain("Max "), Span("Verstappen", "Verstappen"), Plain(" won")];
  }

  /** The candidates for `"Max"` in `"Maxi"`: a word character follows the first, the rest differ. */
  lemma MaxRejectsHead(text: string, key: string)
    requires |text| == 11 && text[..7] == "Maximum" && text[7..] == " MAX"
    requires key == "Max"
    ensures NextBounded(text, key, 0) == NextBounded(text, key, 4)
  {
    assert text[3] == 'i';
    WordCharAfter(text, key, 0);
    MismatchAt(text, key, 1, 0);
    MismatchAt(text, key, 2, 0);
    MismatchAt(text, key, 3, 0);
  }

  /** The candidates for `"Max"` in `"Maximum"`, all rejected. */
  lemma MaxRejects(text: string, key: string)
    requires |text| == 11 && text[..7] == "Maximum" && text[7..] == " MAX"
    requires key == "Max"
    ensures NextBounded(text, key, 0) == NextBounded(text, key, 8)
  {
    MaxRejectsHead(text, key);
    assert text[5] == 'u' && text[7] == ' ';
    MismatchAt(text, key, 4, 1);
    MismatchAt(text, key, 5, 0);
    MismatchAt(text, key, 6, 1);
    MismatchAt(text, key, 7, 0);
  }

  /** The scan for `"Max"` over `"Maximum MAX"`. */
  lemma MaxScan(text: string, key: string)
    requires |text| == 11 && text[..7] == "Maximum" && text[7..] == " MAX"
    requires key == "Max"
    ensures KeyMatches(text, key, 0) == [Match(8, key)]
  {
    MaxRejects(text, key);
    assert text[8] == 'M' && text[9] == 'A' && text[10] == 'X';
    CaselessBoundedAt(text, key, 8);
    SingleKeyMatch(text, key, 0, 8);
  }

  /**
   * Key `"Max"` on `"Maximum MAX"`: the occurrence at the start is rejected
   * because a word character follows it, and the scan goes on to the
   * upper-case occurrence at the end, which the span shows as written.
   */
  lemma BoundaryAndCase(text: string, keys: seq<string>)
    requires |text| == 11 && text[..7] == "Maximum" && text[7..] == " MAX"
    requires keys == ["Max"]
    ensures Process(text, keys) == Some([Plain("Maximum "), Span("MAX", "Max")])
  {
    MaxScan(text, keys[0]);
    assert keys[1..] == [];
    OnlyFirstMatches(text, keys, 8);
    OneMatch(text, keys, keys[0], 8);
    assert text[..8] == "Maximum " && text[8..11] == "MAX" && text[11..] == [];
    assert PlainRun(text[..8]) == [Plain("Maximum ")] && PlainRun(text[11..]) == [];
    assert [Plain("Maximum ")] + [Span("MAX", "Max")] + [] == [Plain("Maximum "), Span("MAX", "Max")];
  }

  /** `"Verstappen"` cannot start in `"Hami"`: no character there is a `v`. */
  lemma NoVInHami(text: string, key: string)
    requires |text| >= 13 && text[..8] == "Hamilton" && key == "Verstappen"
    ensures NextBounded(text, key, 0) == NextBounded(text, key, 4)
  {
    assert text[0] == 'H' && text[1] == 'a' && text[2] == 'm' && text[3] == 'i';
    MismatchAt(text, key, 0, 0);
    MismatchAt(text, key, 1, 0);
    MismatchAt(text, key, 2, 0);
    MismatchAt(text, key, 3, 0);
  }

  /** `"Verstappen"` cannot start in `"Hamilton"`. */
  lemma NoVInHamilton(text: string, key: string)
    requires |text| >= 18 && text[..8] == "Hamilton" && key == "Verstappen"
    ensures NextBounded(text, key, 0) == NextBounded(text, key, 8)
  {
    NoVInHami(text, key);
    assert text[4] == 'l' && text[5] == 't' && text[6] == 'o' && text[7] == 'n';
    MismatchAt(text, key, 4, 0);
    MismatchAt(text, key, 5, 0);
    MismatchAt(text, key, 6, 0);
    MismatchAt(text, key, 7, 0);
  }

  /** `"Verstappen"` cannot start in `" an"`. */
  lemma NoVInAn(text: string, key: string)
    requires |text| == 23 && text[8..13] == " and " && key == "Verstappen"
    ensures NextBounded(text, key, 8) == NextBounded(text, key, 11)
  {
    assert text[8] == ' ' && text[9] == 'a' && text[10] == 'n';
    MismatchAt(text, key, 8, 0);
    MismatchAt(text, key, 9, 0);
    MismatchAt(text, key, 10, 0);
  }

  /** `"Verstappen"` cannot start in `" and "`. */
  lemma NoVInAnd(text: string, key: string)
    requires |text| == 23 && text[8..13] == " and " && key == "Verstappen"
    ensures NextBounded(text, key, 8) == NextBounded(text, key, 13)
  {
    NoVInAn(text, key);
    assert text[11] == 'd' && text[12] == ' ';
    MismatchAt(text, key, 11, 0);
    MismatchAt(text, key, 12, 0);
  }

  /** The scan for `"Verstappen"` over `"Hamilton and Verstappen"`. */
  lemma VerstappenAfterHamilton(text: string, key: string)
    requires |text| == 23 && text[..8] == "Hamilton" && text[8..13] == " and " && text[13..] == "Verstappen"
    requires key == "Verstappen"
    ensures KeyMatches(text, key, 0) == [Match(13, key)]
  {
    NoVInHamilton(text, key);
    NoVInAnd(text, key);
    CaselessBoundedAt(text, key, 13);
    SingleKeyMatch(text, key, 0, 13);
  }

  /** Once the cursor stands at the end of the text, `"Hamilton"` finds nothing. */
  lemma NothingAfterEnd(text: string, keys: seq<string>)
    requires |text| == 23 && keys == ["Hamilton"]
    ensures AllMatches(text, keys, 23) == []
  {
    assert KeyMatches(text, keys[0], 23) == [];
    assert keys[1..] == [];
  }

  /** The matches of `["Verstappen", "Hamilton"]` in `"Hamilton and Verstappen"`. */
  lemma EarlierTextLaterNameMatches(text: string, keys: seq<string>)
    requires |text| == 23 && text[..8] == "Hamilton" && text[8..13] == " and " && text[13..] == "Verstappen"
    requires keys == ["Verstappen", "Hamilton"]
    ensures AllMatches(text, keys, 0) == [Match(13, keys[0])]
  {
    VerstappenAfterHamilton(text, keys[0]);
    NothingAfterEnd(text, keys[1..]);
    OnlyFirstMatches(text, keys, 13);
  }

  /** The runs around a match of `"Verstappen"` at the end of `"Hamilton and Verstappen"`. */
  lemma HamiltonAndRuns(text: string)
    requires |text| == 23 && text[..8] == "Hamilton" && text[8..13] == " and " && text[13..] == "Verstappen"
    ensures PlainRun(text[..13]) == [Plain("Hamilton and ")] && text[13..23] == "Verstappen" && PlainRun(text[23..]) == []
  {
    assert text[..13] == text[..8] + text[8..13];
    assert "Hamilton" + " and " == "Hamilton and ";
    assert text[13..23] == text[13..];
  }

  /**
   * Keys `["Verstappen", "Hamilton"]` on `"Hamilton and Verstappen"`: the
   * first name moves the shared cursor to the end of the text, so Hamilton,
   * registered later but written earlier, is not highlighted.
   */
  lemma EarlierTextLaterName(text: string, keys: seq<string>)
    requires |text| == 23 && text[..8] == "Hamilton" && text[8..13] == " and " && text[13..] == "Verstappen"
    requires keys == ["Verstappen", "Hamilton"]
    ensures Process(text, keys) == Some([Plain("Hamilton and "), Span("Verstappen", "Verstappen")])
  {
    EarlierTextLaterNameMatches(text, keys);
    OneMatch(text, keys, keys[0], 13);
    HamiltonAndRuns(text);
    assert [Plain("Hamilton and ")] + [Span("Verstappen", "Verstappen")] + []
      == [Plain("Hamilton and "), Span("Verstappen", "Verstappen")];
  }

  /** The scan for `"Hamilton"` over `"Hamilton and "`. */
  lemma HamiltonScan(text: string, key: string)
    requires |text| == 13 && text[..8] == "Hamilton" && text[8..] == " and "
    requires key == "Hamilton"
    ensures KeyMatches(text, key, 0) == [Match(0, key)]
  {
    assert text[8] == ' ';
    CaselessBoundedAt(text, key, 0);
    SingleKeyMatch(text, key, 0, 0);
  }

  /** `"Verstappen"` does not occur in `"Hamilton and "`. */
  lemma NoVerstappenInShortText(text: string, key: string)
    requires |text| == 13 && text[..8] == "Hamilton" && key == "Verstappen"
    ensures KeyMatches(text, key, 0) == []
  {
    NoVInHami(text, key);
    assert NextBounded(text, key, 4) == None;
  }

  /**
   * Scanning is not idempotent: the plain run `"Hamilton and "` that the
   * first scan leaves behind is rewritten by a second one with the same keys.
   */
  lemma RescanHighlightsMore(text: string, keys: seq<string>)
    requires |text| == 13 && text[..8] == "Hamilton" && text[8..] == " and "
    requires keys == ["Verstappen", "Hamilton"]
    ensures Process(text, keys) == Some([Span("Hamilton", "Hamilton"), Plain(" and ")])
  {
    NoVerstappenInShortText(text, keys[0]);
    HamiltonScan(text, keys[1]);
    OnlySecondMatches(text, keys, 0);
    OneMatch(text, keys, keys[1], 0);
    assert text[..0] == [] && text[0..8] == "Hamilton";
    assert PlainRun(text[..0]) == [] && PlainRun(text[8..]) == [Plain(" and ")];
    assert [] + [Span("Hamilton", "Hamilton")] + [Plain(" and ")] == [Span("Hamilton", "Hamilton"), Plain(" and ")];
  }
}
