/**
 * Query tokenisation of the mega-menu dropdown: the text typed into the filter
 * input becomes the list of words that both the content filter and the
 * highlighter search for.
 */
module MegaMenuWords {
  import opened JsString
  import opened Seqs

  /** The `_textOnTheFilter` getter: the filter input's value, trimmed. The text
      neither starts nor ends with whitespace, and it is empty exactly when only
      whitespace was typed. It is the infix left when whitespace is cut off both ends. */
  function TextOnTheFilter(input: string): (r: string)
    ensures exists i: nat :: InfixBetweenWhitespace(input, r, i)
    ensures r != [] ==> !IsWhitespace(r[0]) && !IsWhitespace(r[|r| - 1])
    ensures r == [] <==> forall k :: 0 <= k < |input| ==> IsWhitespace(input[k])
  {
    TrimEmptyIff(input);
    Trim(input)
  }

  /** `_isFilterTextEmpty`: nothing but whitespace has been typed. */
  function IsFilterTextEmpty(input: string): (r: bool)
    ensures r <==> forall k :: 0 <= k < |input| ==> IsWhitespace(input[k])
  {
    TextOnTheFilter(input) == []
  }

  /** The pieces of the split query that are kept as words. */
  predicate IsWord(w: string) {
    w != []
  }

  /** `_wordsOnTheFilter`: the trimmed, lower-cased query split on single spaces,
      with the empty pieces dropped. Every word is non-empty, lower case and free
      of spaces; there are no words exactly when the filter text is empty. */
  function WordsOnTheFilter(input: string): (words: seq<string>)
    ensures forall k :: 0 <= k < |words| ==> words[k] != [] && ' ' !in words[k]
    ensures forall k, c :: 0 <= k < |words| && c in words[k] ==> IsLowerCase(c)
    ensures words == [] <==> IsFilterTextEmpty(input)
  {
    var lower := ToLowerCase(Trim(TextOnTheFilter(input)));
    TrimIdempotent(input);
    SplitIntoWords(lower);
    Filter(Split(lower, ' '), IsWord)
  }

  /** The words of a lower-cased text are non-empty, lower case and free of spaces,
      and a text that does not start with a space has at least one. */
  lemma SplitIntoWords(lower: string)
    requires forall i :: 0 <= i < |lower| ==> IsLowerCase(lower[i])
    ensures forall k :: 0 <= k < |Filter(Split(lower, ' '), IsWord)| ==>
      Filter(Split(lower, ' '), IsWord)[k] != [] && ' ' !in Filter(Split(lower, ' '), IsWord)[k]
    ensures forall k, c :: 0 <= k < |Filter(Split(lower, ' '), IsWord)| && c in Filter(Split(lower, ' '), IsWord)[k] ==> IsLowerCase(c)
    ensures lower == [] ==> Filter(Split(lower, ' '), IsWord) == []
    ensures lower != [] && lower[0] != ' ' ==> Filter(Split(lower, ' '), IsWord) != []
  {
    var parts := Split(lower, ' ');
    var words := Filter(parts, IsWord);
    SplitCharsFromSource(lower, ' ');
    forall k | 0 <= k < |words|
      ensures words[k] != [] && ' ' !in words[k]
      ensures forall c :: c in words[k] ==> IsLowerCase(c)
    {
      assert words[k] in parts;
      var j :| 0 <= j < |parts| && parts[j] == words[k];
      forall c | c in words[k]
        ensures IsLowerCase(c)
      {
        assert c in lower;
        var i :| 0 <= i < |lower| && lower[i] == c;
      }
    }
    if lower != [] && lower[0] != ' ' {
      assert parts[0] in words;
    }
  }

  /** Dropping empty pieces does not change what the pieces spell. */
  lemma {:induction false} ConcatWords(parts: seq<string>)
    ensures Concat(Filter(parts, IsWord)) == Concat(parts)
  {
    if parts != [] {
      ConcatWords(parts[1..]);
      assert parts == [parts[0]] + parts[1..];
      FilterCons(parts[0], parts[1..], IsWord);
      if !IsWord(parts[0]) {
        assert parts[0] == [];
        assert Concat(parts) == parts[0] + Concat(parts[1..]);
        assert Filter(parts, IsWord) == Filter(parts[1..], IsWord);
      } else {
        var r := Filter(parts, IsWord);
        assert r[0] == parts[0] && r[1..] == Filter(parts[1..], IsWord);
      }
    }
  }

  /** The words keep their left-to-right order: laid end to end they spell the
      lower-cased filter text with its spaces removed. */
  lemma WordsInOrder(input: string)
    ensures Concat(WordsOnTheFilter(input)) == Without(ToLowerCase(TextOnTheFilter(input)), ' ')
  {
    TrimIdempotent(input);
    var lower := ToLowerCase(TextOnTheFilter(input));
    ConcatWords(Split(lower, ' '));
    ConcatSplit(lower, ' ');
  }

  /** The words are exactly the non-empty pieces of the lower-cased filter text split on
      single spaces: in the order of the pieces, each as often as it occurs among them. */
  lemma WordsArePieces(input: string)
    ensures IsSubsequence(WordsOnTheFilter(input), Split(ToLowerCase(TextOnTheFilter(input)), ' '))
    ensures forall p :: multiset(WordsOnTheFilter(input))[p] ==
              (if p != [] then multiset(Split(ToLowerCase(TextOnTheFilter(input)), ' '))[p] else 0)
  {
    var text := TextOnTheFilter(input);
    TrimIdempotent(input);
    assert Trim(text) == text;
    var pieces := Split(ToLowerCase(text), ' ');
    assert WordsOnTheFilter(input) == Filter(pieces, IsWord);
    FilterExact(pieces, IsWord);
  }

  /** A query made only of whitespace has no words. */
  lemma BlankQueryHasNoWords(input: string)
    requires forall k :: 0 <= k < |input| ==> IsWhitespace(input[k])
    ensures IsFilterTextEmpty(input) && WordsOnTheFilter(input) == []
  {
    TrimEmptyIff(input);
  }
}
