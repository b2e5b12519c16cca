/**
 * Highlighting of a menu label against the query words. A flag per character is
 * set for every occurrence of a word that a left-to-right, non-overlapping scan
 * finds in the lower-cased label; the flagged characters are then merged into
 * maximal runs of equal flag.
 */
module MegaMenuHighlight {
  import opened JsString
  import opened MegaMenuWords

  datatype Option<T> = None | Some(value: T)

  /** A piece of a label and whether it is highlighted. The runs built by the merge
      also carry `index`, the position of their first character; the per-character
      entries and the unsplit label have no `index` (None). */
  datatype HighlightTextState = HighlightTextState(text: string, isHighlighted: bool, index: Option<nat>)

  // ---------------------------------------------------------------------------
  // The scan for one word.

  /** `Math.max(to, 1)`: where the scan for a word resumes after a match ending at `to`. */
  function ResumeFrom(to: nat): (r: nat)
    ensures to >= 1 ==> r == to
    ensures to == 0 ==> r == 1
  {
    if to > 1 then to else 1
  }

  /** The match positions the scan for `word` visits when it resumes at `pos`: the first
      occurrence at or after `pos`, then the first at or after the end of that one, and
      so on. The matches are occurrences, in increasing order, and do not overlap. */
  function ScanFrom(hay: string, word: string, pos: nat): (r: seq<nat>)
    requires word != []
    ensures forall j :: 0 <= j < |r| ==> pos <= r[j] && OccursAt(hay, word, r[j])
    ensures forall j :: 0 <= j < |r| - 1 ==> r[j] + |word| <= r[j + 1]
    decreases |hay| - pos
  {
    var from := IndexOf(hay, word, pos);
    if from < 0 then []
    else [from as nat] + ScanFrom(hay, word, ResumeFrom(from + |word|))
  }

  /** The matches of `word` in `hay` that the highlighting loop visits:
      `from = hay.indexOf(word)`, then `hay.indexOf(word, Math.max(to, 1))`. */
  function Scan(hay: string, word: string): (r: seq<nat>)
    requires word != []
    ensures forall j :: 0 <= j < |r| ==> OccursAt(hay, word, r[j])
    ensures forall j :: 0 <= j < |r| - 1 ==> r[j] + |word| <= r[j + 1]
  {
    ScanFrom(hay, word, 0)
  }

  /** Position `i` lies inside one of the spans of length `len` starting at `starts`. */
  predicate InSpans(i: nat, starts: seq<nat>, len: nat) {
    exists j :: 0 <= j < |starts| && starts[j] <= i < starts[j] + len
  }

  /** Character `i` of the lower-cased label lies inside a match of some word. */
  predicate Highlighted(hay: string, words: seq<string>, i: nat)
    requires forall k :: 0 <= k < |words| ==> words[k] != []
  {
    exists k :: 0 <= k < |words| && InSpans(i, Scan(hay, words[k]), |words[k]|)
  }

  /** The scan is greedy from the left: every occurrence of the word at or after `pos`
      starts inside a match the scan found, so only occurrences overlapping an earlier
      match are skipped. */
  lemma {:induction false} ScanFromIsGreedy(hay: string, word: string, pos: nat, k: nat)
    requires word != [] && pos <= k && OccursAt(hay, word, k)
    ensures InSpans(k, ScanFrom(hay, word, pos), |word|)
    decreases |hay| - pos
  {
    var from := IndexOf(hay, word, pos);
    assert from >= 0;
    var next := ResumeFrom(from + |word|);
    assert ScanFrom(hay, word, pos) == [from as nat] + ScanFrom(hay, word, next);
    if k >= from + |word| {
      ScanFromIsGreedy(hay, word, next, k);
      InSpansCons(k, from, ScanFrom(hay, word, next), |word|);
    } else {
      InSpansCons(k, from, ScanFrom(hay, word, next), |word|);
    }
  }

  /** A span put in front of the list of matches adds exactly its own positions. */
  lemma InSpansCons(i: nat, from: nat, starts: seq<nat>, len: nat)
    ensures InSpans(i, [from] + starts, len) <==> from <= i < from + len || InSpans(i, starts, len)
  {
    if InSpans(i, starts, len) {
      var j :| 0 <= j < |starts| && starts[j] <= i < starts[j] + len;
      assert ([from] + starts)[j + 1] == starts[j];
    }
    if InSpans(i, [from] + starts, len) {
      var j :| 0 <= j < |[from] + starts| && ([from] + starts)[j] <= i < ([from] + starts)[j] + len;
      if j > 0 {
        assert starts[j - 1] == ([from] + starts)[j];
      }
    }
    assert ([from] + starts)[0] == from;
  }

  /** The first character of every occurrence of a word is highlighted, and a highlighted
      character lies inside some occurrence of some word. */
  lemma HighlightedMeansInOccurrence(hay: string, words: seq<string>, i: nat)
    requires forall k :: 0 <= k < |words| ==> words[k] != []
    ensures (exists k :: 0 <= k < |words| && OccursAt(hay, words[k], i)) ==> Highlighted(hay, words, i)
    ensures Highlighted(hay, words, i) ==>
      exists k, m: nat :: 0 <= k < |words| && OccursAt(hay, words[k], m) && m <= i < m + |words[k]|
  {
    if k :| 0 <= k < |words| && OccursAt(hay, words[k], i) {
      ScanFromIsGreedy(hay, words[k], 0, i);
    }
    if Highlighted(hay, words, i) {
      var k :| 0 <= k < |words| && InSpans(i, Scan(hay, words[k]), |words[k]|);
      var j :| 0 <= j < |Scan(hay, words[k])| && Scan(hay, words[k])[j] <= i < Scan(hay, words[k])[j] + |words[k]|;
      var m := Scan(hay, words[k])[j];
      assert OccursAt(hay, words[k], m);
    }
  }

  /** A label in which no word occurs has no highlighted character. */
  lemma NoOccurrenceNoHighlight(hay: string, words: seq<string>, i: nat)
    requires forall k :: 0 <= k < |words| ==> words[k] != [] && !IsSubstring(words[k], hay)
    ensures !Highlighted(hay, words, i)
  {
    HighlightedMeansInOccurrence(hay, words, i);
  }

  /** In "banana" the word "an" is found at 1 and at 3. */
  lemma BananaScan()
    ensures Scan("banana", "an") == [1, 3]
  {
    assert "banana"[1..3] == "an" && "banana"[3..5] == "an";
    assert IndexOf("banana", "an", 1) == 1;
    assert "banana"[0..2][0] == 'b' != "an"[0];
    assert IndexOf("banana", "an", 0) == 1;
    assert IndexOf("banana", "an", 3) == 3;
    assert IndexOf("banana", "an", 5) == -1;
    assert ScanFrom("banana", "an", 5) == [];
    assert ScanFrom("banana", "an", 3) == [3];
  }

  /** With a single word, highlighted means inside a match of that word. */
  lemma HighlightedOneWord(hay: string, word: string, i: nat)
    requires word != []
    ensures Highlighted(hay, [word], i) <==> InSpans(i, Scan(hay, word), |word|)
  {
    assert [word][0] == word;
  }

  /** The two matches of "an" in "banana" touch, so the characters 1 to 4 are
      highlighted and the first and last are not. */
  lemma AdjacentMatchesInBanana()
    ensures forall i :: 0 <= i < 6 ==> (Highlighted("banana", ["an"], i) <==> 1 <= i <= 4)
  {
    BananaScan();
    forall i | 0 <= i < 6
      ensures Highlighted("banana", ["an"], i) <==> 1 <= i <= 4
    {
      HighlightedOneWord("banana", "an", i);
      assert [1, 3] == [1] + [3] && [3] == [3] + [];
      InSpansCons(i, 1, [3], 2);
      InSpansCons(i, 3, [], 2);
    }
  }

  /** Why the scan needs a non-empty word: the empty word is found where the search
      starts, so after a match at 1 (or, in an empty label, at 0) the resumed search
      finds the same match again and the loop for that word never ends. */
  lemma EmptyWordScanIsStuck(hay: string)
    ensures |hay| > 0 ==> IndexOf(hay, [], 1) == 1 && ResumeFrom(1 + 0) == 1
    ensures hay == [] ==> IndexOf(hay, [], 0) == 0 && IndexOf(hay, [], ResumeFrom(0)) == 0
  {
  }

  /** The greedy scan does not flag every character of every occurrence: in "aaa" the
      word "aa" is found at 0 only, so the last character stays plain although the
      occurrence at 1 covers it. */
  lemma OverlappingOccurrenceIsSkipped()
    ensures OccursAt("aaa", "aa", 1)
    ensures Scan("aaa", "aa") == [0]
    ensures !Highlighted("aaa", ["aa"], 2)
  {
    assert IndexOf("aaa", "aa", 0) == 0;
    assert IndexOf("aaa", "aa", 2) == -1;
    assert ScanFrom("aaa", "aa", 2) == [];
  }

  // ---------------------------------------------------------------------------
  // What a sequence of entries spells and how it is flagged, character by character.

  /** The entries' texts laid end to end. */
  function TextOf(parts: seq<HighlightTextState>): string {
    if parts == [] then [] else TextOf(parts[..|parts| - 1]) + parts[|parts| - 1].text
  }

  /** `n` copies of `flag`. */
  function Repeat(flag: bool, n: nat): (r: seq<bool>)
    ensures |r| == n && forall i :: 0 <= i < n ==> r[i] == flag
  {
    if n == 0 then [] else Repeat(flag, n - 1) + [flag]
  }

  lemma {:induction false} RepeatAdd(flag: bool, m: nat, n: nat)
    ensures Repeat(flag, m + n) == Repeat(flag, m) + Repeat(flag, n)
  {
    if n > 0 {
      RepeatAdd(flag, m, n - 1);
    }
  }

  /** A non-empty sequence is its front followed by its last element. */
  lemma SplitLast<T>(s: seq<T>)
    requires |s| > 0
    ensures s == s[..|s| - 1] + [s[|s| - 1]]
  {
  }

  /** Growing a sequence at either end keeps its prefixes. */
  lemma TakeAppend<T>(s: seq<T>, x: T, j: nat)
    requires j <= |s|
    ensures (s + [x])[..j] == s[..j]
  {
  }

  /** The prefix of length `i + 1` is the prefix of length `i` followed by element `i`. */
  lemma TakeSnoc<T>(s: seq<T>, i: nat)
    requires i < |s|
    ensures s[..i + 1] == s[..i] + [s[i]]
  {
  }

  /** The flag of every character of `TextOf(parts)`. */
  function FlagsOf(parts: seq<HighlightTextState>): seq<bool> {
    if parts == [] then []
    else FlagsOf(parts[..|parts| - 1]) + Repeat(parts[|parts| - 1].isHighlighted, |parts[|parts| - 1].text|)
  }

  lemma AppendText(parts: seq<HighlightTextState>, x: HighlightTextState)
    ensures TextOf(parts + [x]) == TextOf(parts) + x.text
  {
    assert (parts + [x])[..|parts|] == parts;
  }

  lemma AppendFlags(parts: seq<HighlightTextState>, x: HighlightTextState)
    ensures FlagsOf(parts + [x]) == FlagsOf(parts) + Repeat(x.isHighlighted, |x.text|)
  {
    assert (parts + [x])[..|parts|] == parts;
  }

  /** Entries holding one character of `menuLabel` each spell `menuLabel`, and their flags are
      the characters' flags. */
  lemma {:induction false} CharsSpellLabel(chars: seq<HighlightTextState>, menuLabel: string)
    requires |chars| == |menuLabel|
    requires forall i :: 0 <= i < |chars| ==> chars[i].text == [menuLabel[i]]
    ensures TextOf(chars) == menuLabel
    ensures |FlagsOf(chars)| == |menuLabel|
    ensures forall i :: 0 <= i < |menuLabel| ==> FlagsOf(chars)[i] == chars[i].isHighlighted
  {
    if chars != [] {
      var n := |chars| - 1;
      CharsSpellLabel(chars[..n], menuLabel[..n]);
      assert menuLabel == menuLabel[..n] + [menuLabel[n]];
    }
  }

  /** With non-empty texts, the last character carries the last entry's flag. */
  lemma LastFlag(parts: seq<HighlightTextState>)
    requires |parts| > 0 && parts[|parts| - 1].text != []
    ensures |FlagsOf(parts)| > 0 && FlagsOf(parts)[|FlagsOf(parts)| - 1] == parts[|parts| - 1].isHighlighted
  {
  }

  /** Runs that are non-empty and alternate in flag, over a text of one flag only, are
      at most one run. */
  lemma {:induction false} UniformFlagsOneRun(parts: seq<HighlightTextState>, flag: bool)
    requires forall j :: 0 <= j < |parts| ==> parts[j].text != []
    requires forall j :: 0 < j < |parts| ==> parts[j - 1].isHighlighted != parts[j].isHighlighted
    requires forall i :: 0 <= i < |FlagsOf(parts)| ==> FlagsOf(parts)[i] == flag
    ensures |parts| <= 1
  {
    if |parts| >= 2 {
      var n := |parts| - 1;
      var front := parts[..n];
      LastFlag(parts);
      LastFlag(front);
      assert FlagsOf(parts) == FlagsOf(front) + Repeat(parts[n].isHighlighted, |parts[n].text|);
      assert FlagsOf(parts)[|FlagsOf(front)| - 1] == front[n - 1].isHighlighted;
      assert false;
    }
  }

  // ---------------------------------------------------------------------------
  // Pass one: a flag per character.

  /** A span appended to the list of matches adds exactly its own positions. */
  lemma InSpansAppend(i: nat, starts: seq<nat>, from: nat, len: nat)
    ensures InSpans(i, starts + [from], len) <==> InSpans(i, starts, len) || from <= i < from + len
  {
    if InSpans(i, starts, len) {
      var j :| 0 <= j < |starts| && starts[j] <= i < starts[j] + len;
      assert (starts + [from])[j] == starts[j];
    }
    if from <= i < from + len {
      assert (starts + [from])[|starts|] == from;
    }
  }

  /** Taking one more word adds exactly that word's matches. */
  lemma HighlightedExtend(hay: string, words: seq<string>, t: nat, i: nat)
    requires t < |words| && forall k :: 0 <= k < |words| ==> words[k] != []
    ensures Highlighted(hay, words[..t + 1], i) <==>
      Highlighted(hay, words[..t], i) || InSpans(i, Scan(hay, words[t]), |words[t]|)
  {
    assert words[..t + 1][t] == words[t];
    if Highlighted(hay, words[..t], i) {
      var k :| 0 <= k < t && InSpans(i, Scan(hay, words[..t][k]), |words[..t][k]|);
      assert words[..t + 1][k] == words[..t][k];
    }
  }

  /** One step of the scan: a match found at `pos` is followed by the scan resumed after it. */
  lemma ScanFromStep(hay: string, word: string, pos: nat)
    requires word != []
    ensures IndexOf(hay, word, pos) < 0 ==> ScanFrom(hay, word, pos) == []
    ensures IndexOf(hay, word, pos) >= 0 ==>
      ScanFrom(hay, word, pos) ==
        [IndexOf(hay, word, pos) as nat] + ScanFrom(hay, word, ResumeFrom(IndexOf(hay, word, pos) + |word|))
  {
  }

  /** The inner `for` loop: flags the characters from `from` up to `stop`, and no other. */
  method MarkSpan(highlightStates: array<HighlightTextState>, from: nat, stop: nat)
    requires from <= stop <= highlightStates.Length
    modifies highlightStates
    ensures forall k :: 0 <= k < highlightStates.Length ==>
      highlightStates[k] == old(highlightStates[k]).(isHighlighted := old(highlightStates[k].isHighlighted) || from <= k < stop)
  {
    for i := from to stop
      invariant forall k :: 0 <= k < highlightStates.Length ==>
        highlightStates[k] == old(highlightStates[k]).(isHighlighted := old(highlightStates[k].isHighlighted) || from <= k < i)
    {
      highlightStates[i] := highlightStates[i].(isHighlighted := true);
    }
  }

  /** Flags set for the matches `found`, on top of the flags of `before`. */
  ghost predicate MarkedBy(states: seq<HighlightTextState>, before: seq<HighlightTextState>, found: seq<nat>, len: nat) {
    |states| == |before| &&
    forall k :: 0 <= k < |states| ==>
      states[k] == before[k].(isHighlighted := before[k].isHighlighted || InSpans(k, found, len))
  }

  /** Flagging one more match keeps `MarkedBy` with that match added. */
  lemma MarkedByAppend(states: seq<HighlightTextState>, marked: seq<HighlightTextState>,
                       before: seq<HighlightTextState>, found: seq<nat>, from: nat, len: nat)
    requires MarkedBy(states, before, found, len) && |marked| == |states|
    requires forall k :: 0 <= k < |marked| ==>
      marked[k] == states[k].(isHighlighted := states[k].isHighlighted || from <= k < from + len)
    ensures MarkedBy(marked, before, found + [from], len)
  {
    forall k | 0 <= k < |marked| {
      InSpansAppend(k, found, from, len);
    }
  }

  /** The state of the `while` loop for one word: the scan resumes at `pos`, `from` is the
      next match, and `found` are the matches visited so far. */
  ghost predicate Scanning(hay: string, word: string, pos: nat, from: int, found: seq<nat>) {
    word != [] && pos <= |hay| && from == IndexOf(hay, word, pos) &&
    Scan(hay, word) == found + ScanFrom(hay, word, pos)
  }

  /** A match found: the scan resumes after it, further on, and the match is visited. */
  lemma ScanAdvance(hay: string, word: string, pos: nat, from: int, found: seq<nat>)
    requires Scanning(hay, word, pos, from, found) && from >= 0
    ensures from + |word| <= |hay| && pos < ResumeFrom(from + |word|)
    ensures Scanning(hay, word, ResumeFrom(from + |word|), IndexOf(hay, word, ResumeFrom(from + |word|)), found + [from as nat])
  {
    ScanFromStep(hay, word, pos);
    var next := ResumeFrom(from + |word|);
    assert next == from + |word|;
    var rest := ScanFrom(hay, word, next);
    assert found + ([from as nat] + rest) == (found + [from as nat]) + rest;
  }

  /** No match left: the matches visited are the whole scan. */
  lemma ScanDone(hay: string, word: string, pos: nat, from: int, found: seq<nat>)
    requires Scanning(hay, word, pos, from, found) && from < 0
    ensures found == Scan(hay, word)
  {
    ScanFromStep(hay, word, pos);
    assert found + [] == found;
  }

  /** The body of the `forEach` callback for one word: flags every character inside a
      match the scan for `word` finds, and changes nothing else. */
  method HighlightWord(highlightStates: array<HighlightTextState>, lowerCaseText: string, word: string)
    requires word != [] && highlightStates.Length == |lowerCaseText|
    modifies highlightStates
    ensures MarkedBy(highlightStates[..], old(highlightStates[..]), Scan(lowerCaseText, word), |word|)
  {
    ghost var before := highlightStates[..];
    ghost var pos: nat := 0;
    ghost var found: seq<nat> := [];
    var from := IndexOf(lowerCaseText, word, 0);
    while from >= 0
      invariant Scanning(lowerCaseText, word, pos, from, found)
      invariant MarkedBy(highlightStates[..], before, found, |word|)
      decreases |lowerCaseText| - pos
    {
      var to := from + |word|;
      ScanAdvance(lowerCaseText, word, pos, from, found);
      ghost var states := highlightStates[..];
      MarkSpan(highlightStates, from, to);
      MarkedByAppend(states, highlightStates[..], before, found, from, |word|);
      found := found + [from as nat];
      pos := ResumeFrom(to);
      from := IndexOf(lowerCaseText, word, ResumeFrom(to));
    }
    ScanDone(lowerCaseText, word, pos, from, found);
  }

  /** `_splitTextInHighlightedChars`: one entry per character of `menuLabel`, flagged exactly
      when the character lies inside a match that the scan for some word finds in the
      lower-cased label. */
  method SplitTextInHighlightedChars(menuLabel: string, words: seq<string>) returns (states: seq<HighlightTextState>)
    requires forall k :: 0 <= k < |words| ==> words[k] != []
    ensures |states| == |menuLabel|
    ensures forall i :: 0 <= i < |menuLabel| ==>
      states[i] == HighlightTextState([menuLabel[i]], Highlighted(ToLowerCase(menuLabel), words, i), None)
  {
    var highlightStates := new HighlightTextState[|menuLabel|](i requires 0 <= i < |menuLabel| => HighlightTextState([menuLabel[i]], false, None));
    var lowerCaseText := ToLowerCase(menuLabel);
    for t := 0 to |words|
      invariant forall i :: 0 <= i < |menuLabel| ==>
        highlightStates[i] == HighlightTextState([menuLabel[i]], Highlighted(lowerCaseText, words[..t], i), None)
    {
      HighlightWord(highlightStates, lowerCaseText, words[t]);
      forall i | 0 <= i < |menuLabel|
        ensures highlightStates[i] ==
          HighlightTextState([menuLabel[i]], Highlighted(lowerCaseText, words[..t + 1], i), None)
      {
        HighlightedExtend(lowerCaseText, words, t, i);
      }
    }
    assert words[..|words|] == words;
    states := highlightStates[..];
  }

  // ---------------------------------------------------------------------------
  // Pass two: merging the characters into runs.

  /** Neighbouring entries differ in flag. */
  predicate Alternating(parts: seq<HighlightTextState>) {
    forall j :: 0 < j < |parts| ==> parts[j - 1].isHighlighted != parts[j].isHighlighted
  }

  /** No entry has an empty text. */
  predicate NoEmptyText(parts: seq<HighlightTextState>) {
    forall j :: 0 <= j < |parts| ==> parts[j].text != []
  }

  /** Every run's `index` is a position below `i` in `chars`, and the entries before that
      position spell what the runs before it spell. */
  ghost predicate IndexedBy(runs: seq<HighlightTextState>, chars: seq<HighlightTextState>, i: nat) {
    forall j :: 0 <= j < |runs| ==>
      runs[j].index.Some? && runs[j].index.value < i && runs[j].index.value <= |chars| &&
      TextOf(chars[..runs[j].index.value]) == TextOf(runs[..j])
  }

  /** The merge loop's invariant after `i` entries of `chars`: the runs spell those entries
      with the same flags, alternate, end with the flag of entry `i - 1`, are non-empty
      when the entries are, and are indexed by the entries. */
  ghost predicate MergedUpTo(runs: seq<HighlightTextState>, chars: seq<HighlightTextState>, i: nat) {
    0 < i <= |chars| && |runs| > 0 &&
    TextOf(runs) == TextOf(chars[..i]) && FlagsOf(runs) == FlagsOf(chars[..i]) &&
    runs[|runs| - 1].isHighlighted == chars[i - 1].isHighlighted &&
    Alternating(runs) &&
    (NoEmptyText(chars) ==> NoEmptyText(runs)) &&
    IndexedBy(runs, chars, i)
  }

  /** `lastCharState.text = lastCharState.text.concat(currentChar.text)` on the last run. */
  function ExtendLast(runs: seq<HighlightTextState>, c: HighlightTextState): seq<HighlightTextState>
    requires |runs| > 0
  {
    runs[..|runs| - 1] + [runs[|runs| - 1].(text := runs[|runs| - 1].text + c.text)]
  }

  /** A single entry spells its own text, flagged uniformly. */
  lemma Singleton(x: HighlightTextState)
    ensures TextOf([x]) == x.text && FlagsOf([x]) == Repeat(x.isHighlighted, |x.text|)
  {
    assert [x][..0] == [];
  }

  /** The first entry alone, indexed 0, is the merge of the first entry. */
  lemma MergeStart(chars: seq<HighlightTextState>)
    requires |chars| > 0
    ensures MergedUpTo([HighlightTextState(chars[0].text, chars[0].isHighlighted, Some(0))], chars, 1)
  {
    var first := HighlightTextState(chars[0].text, chars[0].isHighlighted, Some(0));
    assert chars[..1] == [chars[0]];
    Singleton(chars[0]);
    Singleton(first);
    assert IndexedBy([first], chars, 1) by {
      assert [first][..0] == [] && chars[..0] == [];
    }
  }

  /** A run whose text grows by an entry of its own flag adds that entry's text and flags. */
  lemma AppendMerged(front: seq<HighlightTextState>, last: HighlightTextState, c: HighlightTextState)
    requires last.isHighlighted == c.isHighlighted
    ensures TextOf(front + [last.(text := last.text + c.text)]) == TextOf(front + [last]) + c.text
    ensures FlagsOf(front + [last.(text := last.text + c.text)]) ==
      FlagsOf(front + [last]) + Repeat(c.isHighlighted, |c.text|)
  {
    var merged := last.(text := last.text + c.text);
    AppendText(front, last);
    AppendText(front, merged);
    AppendFlags(front, last);
    AppendFlags(front, merged);
    RepeatAdd(c.isHighlighted, |last.text|, |c.text|);
  }

  /** Extending the last run by an entry of its flag extends the text and flags by that entry's. */
  lemma ExtendLastSpells(runs: seq<HighlightTextState>, c: HighlightTextState)
    requires |runs| > 0 && runs[|runs| - 1].isHighlighted == c.isHighlighted
    ensures TextOf(ExtendLast(runs, c)) == TextOf(runs) + c.text
    ensures FlagsOf(ExtendLast(runs, c)) == FlagsOf(runs) + Repeat(c.isHighlighted, |c.text|)
  {
    SplitLast(runs);
    AppendMerged(runs[..|runs| - 1], runs[|runs| - 1], c);
  }

  /** Extending the last run keeps every run's index and what the runs before it spell. */
  lemma ExtendLastIndexed(runs: seq<HighlightTextState>, chars: seq<HighlightTextState>, i: nat, c: HighlightTextState)
    requires |runs| > 0 && IndexedBy(runs, chars, i)
    ensures IndexedBy(ExtendLast(runs, c), chars, i + 1)
  {
    var next := ExtendLast(runs, c);
    forall j | 0 <= j < |next|
      ensures next[j].index == runs[j].index && next[..j] == runs[..j]
    {
      assert next[..j] == runs[..j];
    }
  }

  /** Extending the last run keeps the alternation of the flags and the non-empty texts. */
  lemma ExtendLastShape(runs: seq<HighlightTextState>, c: HighlightTextState)
    requires |runs| > 0
    ensures Alternating(runs) ==> Alternating(ExtendLast(runs, c))
    ensures NoEmptyText(runs) ==> NoEmptyText(ExtendLast(runs, c))
    ensures ExtendLast(runs, c)[|runs| - 1].isHighlighted == runs[|runs| - 1].isHighlighted
  {
    var next := ExtendLast(runs, c);
    assert forall j :: 0 <= j < |runs| - 1 ==> next[j] == runs[j];
  }

  /** Entry `i` has the flag of the last run: it is appended to that run's text. */
  lemma MergeContinue(runs: seq<HighlightTextState>, chars: seq<HighlightTextState>, i: nat)
    requires MergedUpTo(runs, chars, i) && i < |chars|
    requires runs[|runs| - 1].isHighlighted == chars[i].isHighlighted
    ensures MergedUpTo(ExtendLast(runs, chars[i]), chars, i + 1)
  {
    TakeSnoc(chars, i);
    AppendText(chars[..i], chars[i]);
    AppendFlags(chars[..i], chars[i]);
    ExtendLastSpells(runs, chars[i]);
    ExtendLastIndexed(runs, chars, i, chars[i]);
    ExtendLastShape(runs, chars[i]);
  }

  /** A run appended at the end: the runs before it keep their index and what precedes them. */
  lemma AppendIndexed(runs: seq<HighlightTextState>, chars: seq<HighlightTextState>, i: nat, run: HighlightTextState)
    requires IndexedBy(runs, chars, i) && i < |chars|
    requires run.index == Some(i) && TextOf(chars[..i]) == TextOf(runs)
    ensures IndexedBy(runs + [run], chars, i + 1)
  {
    forall j | 0 <= j <= |runs|
      ensures (runs + [run])[..j] == runs[..j]
    {
      TakeAppend(runs, run, j);
    }
    assert runs[..|runs|] == runs;
  }

  /** Entry `i` changes the flag: it starts a new run whose index is `i`. */
  lemma MergeNewRun(runs: seq<HighlightTextState>, chars: seq<HighlightTextState>, i: nat)
    requires MergedUpTo(runs, chars, i) && i < |chars|
    requires runs[|runs| - 1].isHighlighted != chars[i].isHighlighted
    ensures MergedUpTo(runs + [HighlightTextState(chars[i].text, chars[i].isHighlighted, Some(i))], chars, i + 1)
  {
    var run := HighlightTextState(chars[i].text, chars[i].isHighlighted, Some(i));
    TakeSnoc(chars, i);
    AppendText(chars[..i], chars[i]);
    AppendFlags(chars[..i], chars[i]);
    AppendText(runs, run);
    AppendFlags(runs, run);
    AppendIndexed(runs, chars, i, run);
  }

  /** `_joinCharsByHighlightedState`: merges neighbouring entries of equal flag. The runs
      spell the same text with the same flag on every character, neighbouring runs differ
      in flag, no run is empty when no entry is, and each run's `index` is the position in
      `chars` of its first entry: the entries before it spell exactly the runs before it. */
  method JoinCharsByHighlightedState(chars: seq<HighlightTextState>) returns (output: seq<HighlightTextState>)
    requires |chars| > 0
    ensures |output| > 0
    ensures TextOf(output) == TextOf(chars)
    ensures FlagsOf(output) == FlagsOf(chars)
    ensures Alternating(output)
    ensures NoEmptyText(chars) ==> NoEmptyText(output)
    ensures IndexedBy(output, chars, |chars|)
  {
    output := [HighlightTextState(chars[0].text, chars[0].isHighlighted, Some(0))];
    MergeStart(chars);
    for i := 1 to |chars|
      invariant MergedUpTo(output, chars, i)
    {
      var lastCharState := output[|output| - 1];
      var currentChar := chars[i];
      var highlightTextContinues := lastCharState.isHighlighted == currentChar.isHighlighted;
      if highlightTextContinues {
        MergeContinue(output, chars, i);
        output := ExtendLast(output, currentChar);
      } else {
        MergeNewRun(output, chars, i);
        output := output + [HighlightTextState(currentChar.text, currentChar.isHighlighted, Some(i))];
      }
    }
    assert chars[..|chars|] == chars;
  }

  // ---------------------------------------------------------------------------
  // The whole segmentation.

  /** The runs made from the characters of a label: what the merge promises, restated in
      terms of the label's characters. */
  lemma RunsOfLabel(menuLabel: string, chars: seq<HighlightTextState>, runs: seq<HighlightTextState>)
    requires |chars| == |menuLabel| > 0
    requires forall i :: 0 <= i < |chars| ==> chars[i].text == [menuLabel[i]]
    requires TextOf(runs) == TextOf(chars) && FlagsOf(runs) == FlagsOf(chars)
    requires NoEmptyText(chars) ==> NoEmptyText(runs)
    requires IndexedBy(runs, chars, |chars|)
    ensures TextOf(runs) == menuLabel && NoEmptyText(runs)
    ensures |FlagsOf(runs)| == |menuLabel|
    ensures forall i :: 0 <= i < |menuLabel| ==> FlagsOf(runs)[i] == chars[i].isHighlighted
    ensures forall j :: 0 <= j < |runs| ==> runs[j].index == Some(|TextOf(runs[..j])|)
  {
    CharsSpellLabel(chars, menuLabel);
    forall j | 0 <= j < |runs|
      ensures runs[j].index == Some(|TextOf(runs[..j])|)
    {
      var s := runs[j].index.value;
      CharsSpellLabel(chars[..s], menuLabel[..s]);
    }
  }

  /** Alternating non-empty runs over a label with no highlighted character are the
      whole label as one plain run. */
  lemma PlainLabelOneRun(menuLabel: string, runs: seq<HighlightTextState>)
    requires |runs| > 0 && TextOf(runs) == menuLabel && Alternating(runs) && NoEmptyText(runs)
    requires |FlagsOf(runs)| == |menuLabel| && forall i :: 0 <= i < |menuLabel| ==> !FlagsOf(runs)[i]
    requires forall j :: 0 <= j < |runs| ==> runs[j].index == Some(|TextOf(runs[..j])|)
    ensures runs == [HighlightTextState(menuLabel, false, Some(0))]
  {
    UniformFlagsOneRun(runs, false);
    var run := runs[0];
    assert runs == [] + [run];
    AppendText([], run);
    AppendFlags([], run);
    assert run.text == menuLabel;
    LastFlag(runs);
    assert !run.isHighlighted;
    assert runs[..0] == [];
    assert run.index == Some(0);
  }

  /** The runs the merge makes of the flagged characters of a non-blank label, stated in
      terms of the label and the query words. */
  lemma HighlightedRuns(menuLabel: string, words: seq<string>, chars: seq<HighlightTextState>, runs: seq<HighlightTextState>)
    requires |menuLabel| > 0 && forall k :: 0 <= k < |words| ==> words[k] != []
    requires |chars| == |menuLabel|
    requires forall i :: 0 <= i < |menuLabel| ==>
      chars[i] == HighlightTextState([menuLabel[i]], Highlighted(ToLowerCase(menuLabel), words, i), None)
    requires |runs| > 0 && TextOf(runs) == TextOf(chars) && FlagsOf(runs) == FlagsOf(chars)
    requires Alternating(runs) && (NoEmptyText(chars) ==> NoEmptyText(runs))
    requires IndexedBy(runs, chars, |chars|)
    ensures TextOf(runs) == menuLabel && NoEmptyText(runs)
    ensures forall j :: 0 <= j < |runs| ==> runs[j].index == Some(|TextOf(runs[..j])|)
    ensures |FlagsOf(runs)| == |menuLabel|
    ensures forall i :: 0 <= i < |menuLabel| ==> FlagsOf(runs)[i] == Highlighted(ToLowerCase(menuLabel), words, i)
    ensures (forall k :: 0 <= k < |words| ==> !IsSubstring(words[k], ToLowerCase(menuLabel))) ==>
      runs == [HighlightTextState(menuLabel, false, Some(0))]
  {
    RunsOfLabel(menuLabel, chars, runs);
    if forall k :: 0 <= k < |words| ==> !IsSubstring(words[k], ToLowerCase(menuLabel)) {
      forall i | 0 <= i < |menuLabel| {
        NoOccurrenceNoHighlight(ToLowerCase(menuLabel), words, i);
      }
      PlainLabelOneRun(menuLabel, runs);
    }
  }

  /** `_splitTextInHighlightParts`, with the filter input's value passed in. A blank query
      or blank label gives the label as one plain entry. Otherwise the runs spell the
      label, neighbouring runs differ in flag, no run is empty, each run's `index` is the
      position of its first character in the label, and a character is highlighted
      exactly when it lies inside a match of some query word; when no word occurs in the
      label at all, the result is the whole label as one plain run. */
  method SplitTextInHighlightParts(menuLabel: string, input: string) returns (parts: seq<HighlightTextState>)
    ensures |parts| > 0 && TextOf(parts) == menuLabel
    ensures IsFilterTextEmpty(input) || Trim(menuLabel) == [] ==> parts == [HighlightTextState(menuLabel, false, None)]
    ensures !IsFilterTextEmpty(input) && Trim(menuLabel) != [] ==>
      Alternating(parts) && NoEmptyText(parts) &&
      (forall j :: 0 <= j < |parts| ==> parts[j].index == Some(|TextOf(parts[..j])|)) &&
      |FlagsOf(parts)| == |menuLabel| &&
      (forall i :: 0 <= i < |menuLabel| ==>
        FlagsOf(parts)[i] == Highlighted(ToLowerCase(menuLabel), WordsOnTheFilter(input), i))
    ensures (!IsFilterTextEmpty(input) && Trim(menuLabel) != [] &&
      forall k :: 0 <= k < |WordsOnTheFilter(input)| ==> !IsSubstring(WordsOnTheFilter(input)[k], ToLowerCase(menuLabel))) ==>
      parts == [HighlightTextState(menuLabel, false, Some(0))]
  {
    var isTextEmpty := Trim(menuLabel) == [];
    if IsFilterTextEmpty(input) || isTextEmpty {
      parts := [HighlightTextState(menuLabel, false, None)];
      assert parts == [] + [parts[0]];
      AppendText([], parts[0]);
      AppendFlags([], parts[0]);
      return;
    }
    var words := WordsOnTheFilter(input);
    var charIsHighlightArray := SplitTextInHighlightedChars(menuLabel, words);
    parts := JoinCharsByHighlightedState(charIsHighlightArray);
    HighlightedRuns(menuLabel, words, charIsHighlightArray, parts);
  }
}
