/**
 * The JavaScript string built-ins the mega-menu search relies on:
 * `trim`, `toLowerCase`, `split(' ')`, `indexOf` and `includes`.
 * A JavaScript string is modelled as a sequence of characters; every
 * position used by the component is a position in that one sequence.
 */
module JsString {

  /** The code points `String.prototype.trim` strips: ECMAScript WhiteSpace
      (TAB, VT, FF, ZWNBSP and the Unicode space separators) and LineTerminator. */
  predicate IsWhitespace(c: char) {
    c == '\t' || c == '\n' || c == '\U{000B}' || c == '\U{000C}' || c == '\r' ||
    c == ' ' || c == '\U{00A0}' || c == '\U{1680}' ||
    ('\U{2000}' <= c <= '\U{200A}') ||
    c == '\U{2028}' || c == '\U{2029}' || c == '\U{202F}' || c == '\U{205F}' ||
    c == '\U{3000}' || c == '\U{FEFF}'
  }

  /** Strips leading whitespace: the result is the suffix that starts at the
      first non-whitespace character. */
  function TrimStart(s: string): (r: string)
    ensures |r| <= |s| && r == s[|s| - |r|..]
    ensures forall i :: 0 <= i < |s| - |r| ==> IsWhitespace(s[i])
    ensures r != [] ==> !IsWhitespace(r[0])
  {
    if s != [] && IsWhitespace(s[0]) then TrimStart(s[1..]) else s
  }

  /** Strips trailing whitespace: the result is the prefix that ends at the
      last non-whitespace character. */
  function TrimEnd(s: string): (r: string)
    ensures |r| <= |s| && r == s[..|r|]
    ensures forall i :: |r| <= i < |s| ==> IsWhitespace(s[i])
    ensures r != [] ==> !IsWhitespace(r[|r| - 1])
  {
    if s != [] && IsWhitespace(s[|s| - 1]) then TrimEnd(s[..|s| - 1]) else s
  }

  /** `r` is the infix of `s` at position `i`, and only whitespace lies either side of it. */
  ghost predicate InfixBetweenWhitespace(s: string, r: string, i: nat) {
    i + |r| <= |s| && r == s[i..i + |r|] &&
    (forall k :: 0 <= k < i ==> IsWhitespace(s[k])) &&
    (forall k :: i + |r| <= k < |s| ==> IsWhitespace(s[k]))
  }

  /** `s.trim()`: the infix of `s` that neither starts nor ends with whitespace,
      with only whitespace cut off either side. */
  function Trim(s: string): (r: string)
    ensures exists i: nat :: InfixBetweenWhitespace(s, r, i)
    ensures r != [] ==> !IsWhitespace(r[0]) && !IsWhitespace(r[|r| - 1])
  {
    var t := TrimStart(s);
    var r := TrimEnd(t);
    TrimmedEnds(s, t, r);
    r
  }

  /** Cutting whitespace off the front of `s`, giving `t`, and then off the back of `t`,
      giving `r`, leaves `r` as an infix of `s` between whitespace. */
  lemma TrimmedEnds(s: string, t: string, r: string)
    requires |t| <= |s| && t == s[|s| - |t|..]
    requires forall i :: 0 <= i < |s| - |t| ==> IsWhitespace(s[i])
    requires t != [] ==> !IsWhitespace(t[0])
    requires |r| <= |t| && r == t[..|r|]
    requires forall i :: |r| <= i < |t| ==> IsWhitespace(t[i])
    ensures InfixBetweenWhitespace(s, r, |s| - |t|)
    ensures r != [] ==> !IsWhitespace(r[0])
  {
    var i := |s| - |t|;
    forall k | i + |r| <= k < |s|
      ensures IsWhitespace(s[k])
    {
      assert s[k] == t[k - i];
    }
  }

  /** Trimming removes nothing but whitespace, so the trimmed text is empty exactly
      when every character is whitespace. */
  lemma TrimEmptyIff(s: string)
    ensures Trim(s) == [] <==> forall k :: 0 <= k < |s| ==> IsWhitespace(s[k])
  {
    if Trim(s) != [] {
      var r := Trim(s);
      var i: nat :| InfixBetweenWhitespace(s, r, i);
      assert s[i] == r[0];
    }
  }

  /** Trimming an already trimmed string changes nothing. */
  lemma TrimIdempotent(s: string)
    ensures Trim(Trim(s)) == Trim(s)
  {
    var r := Trim(s);
    if r != [] {
      assert TrimStart(r) == r;
      assert TrimEnd(r) == r;
    }
  }

  /** Lower-casing of one character; the model maps the ASCII capitals and leaves every
      other character as it is. */
  function LowerChar(c: char): char {
    if 'A' <= c <= 'Z' then (c as int + 32) as char else c
  }

  /** A character that lower-casing leaves unchanged. */
  predicate IsLowerCase(c: char) {
    LowerChar(c) == c
  }

  /** `s.toLowerCase()`, character by character: the length is kept, a capital becomes
      its small letter, every other character stays as it is, and so spaces and
      whitespace stay exactly where they were. */
  function ToLowerCase(s: string): (r: string)
    ensures |r| == |s|
    ensures forall i :: 0 <= i < |s| && 'A' <= s[i] <= 'Z' ==> r[i] as int == s[i] as int + 32
    ensures forall i :: 0 <= i < |s| && IsLowerCase(s[i]) ==> r[i] == s[i]
    ensures forall i :: 0 <= i < |r| ==> IsLowerCase(r[i])
    ensures forall i :: 0 <= i < |r| ==> (r[i] == ' ' <==> s[i] == ' ')
    ensures forall i :: 0 <= i < |r| ==> (IsWhitespace(r[i]) <==> IsWhitespace(s[i]))
  {
    seq(|s|, i requires 0 <= i < |s| => LowerChar(s[i]))
  }

  /** Lower-casing works character by character, so it distributes over concatenation. */
  lemma ToLowerCaseConcat(a: string, b: string)
    ensures ToLowerCase(a + b) == ToLowerCase(a) + ToLowerCase(b)
  {
    assert forall i :: 0 <= i < |a + b| ==> ToLowerCase(a + b)[i] == (ToLowerCase(a) + ToLowerCase(b))[i];
  }

  /** Lower-casing a lower-cased text changes nothing. */
  lemma ToLowerCaseIdempotent(s: string)
    ensures ToLowerCase(ToLowerCase(s)) == ToLowerCase(s)
  {
  }

  /** `s.split(sep)` for a one-character separator: the pieces between separators,
      empty pieces included, and always at least one piece. */
  function Split(s: string, sep: char): (parts: seq<string>)
    ensures |parts| >= 1
    ensures forall k :: 0 <= k < |parts| ==> sep !in parts[k]
    ensures s != [] && s[0] != sep ==> parts[0] != [] && parts[0][0] == s[0]
  {
    if s == [] then [[]]
    else
      var rest := Split(s[1..], sep);
      if s[0] == sep then [[]] + rest
      else [[s[0]] + rest[0]] + rest[1..]
  }

  /** Every character of a piece comes from the string that was split. */
  lemma {:induction false} SplitCharsFromSource(s: string, sep: char)
    ensures forall k, c :: 0 <= k < |Split(s, sep)| && c in Split(s, sep)[k] ==> c in s
  {
    if s != [] {
      SplitCharsFromSource(s[1..], sep);
      var parts := Split(s, sep);
      var rest := Split(s[1..], sep);
      assert s == [s[0]] + s[1..];
      forall k, c | 0 <= k < |parts| && c in parts[k]
        ensures c in s
      {
        if s[0] == sep {
          assert parts[k] == rest[k - 1];
          assert c in s[1..];
        } else if k == 0 {
          assert c == s[0] || c in rest[0];
          assert c == s[0] || c in s[1..];
        } else {
          assert parts[k] == rest[k];
          assert c in s[1..];
        }
      }
    }
  }

  /** Pieces glued back together with the separator between them. */
  function Join(parts: seq<string>, sep: char): string
    requires |parts| >= 1
  {
    if |parts| == 1 then parts[0] else parts[0] + [sep] + Join(parts[1..], sep)
  }

  /** The pieces of `split` laid end to end, without separators. */
  function Concat(parts: seq<string>): string {
    if parts == [] then [] else parts[0] + Concat(parts[1..])
  }

  /** The characters of `s` other than `c`, in order. */
  function Without(s: string, c: char): (r: string)
    ensures |r| <= |s|
    ensures forall i :: 0 <= i < |r| ==> r[i] != c
  {
    if s == [] then [] else (if s[0] == c then [] else [s[0]]) + Without(s[1..], c)
  }

  /** Splitting and joining with the same separator gives the string back. */
  lemma {:induction false} JoinSplit(s: string, sep: char)
    ensures Join(Split(s, sep), sep) == s
  {
    if s != [] {
      JoinSplit(s[1..], sep);
      var rest := Split(s[1..], sep);
      if s[0] != sep {
        var parts := Split(s, sep);
        assert parts[1..] == rest[1..];
        if |rest| > 1 {
          assert rest == [rest[0]] + rest[1..];
          assert Join(rest, sep) == rest[0] + [sep] + Join(rest[1..], sep);
        }
      }
    }
  }

  /** The pieces of `split` hold every non-separator character, in order. */
  lemma {:induction false} ConcatSplit(s: string, sep: char)
    ensures Concat(Split(s, sep)) == Without(s, sep)
  {
    if s != [] {
      ConcatSplit(s[1..], sep);
      var rest := Split(s[1..], sep);
      if s[0] != sep {
        assert rest == [rest[0]] + rest[1..];
        assert Concat(rest) == rest[0] + Concat(rest[1..]);
        assert Split(s, sep)[1..] == rest[1..];
      }
    }
  }

  /** `needle` occurs in `hay` starting at position `k`. */
  predicate OccursAt(hay: string, needle: string, k: nat) {
    k + |needle| <= |hay| && hay[k..k + |needle|] == needle
  }

  /** `needle` occurs somewhere in `hay`. */
  ghost predicate IsSubstring(needle: string, hay: string) {
    exists k: nat :: OccursAt(hay, needle, k)
  }

  /** `hay.indexOf(needle, pos)`: the search starts at `pos` clamped to the length, and
      the result is the first occurrence at or after it, or -1 when there is none. */
  function IndexOf(hay: string, needle: string, pos: nat): (r: int)
    ensures r >= 0 ==> (if pos <= |hay| then pos else |hay|) <= r && OccursAt(hay, needle, r)
    ensures r >= 0 ==> forall k: nat :: (if pos <= |hay| then pos else |hay|) <= k < r ==> !OccursAt(hay, needle, k)
    ensures r < 0 ==> r == -1 && forall k: nat :: (if pos <= |hay| then pos else |hay|) <= k ==> !OccursAt(hay, needle, k)
    decreases if pos <= |hay| then |hay| - pos else |hay| + 1
  {
    if pos > |hay| then IndexOf(hay, needle, |hay|)
    else if pos + |needle| > |hay| then -1
    else if hay[pos..pos + |needle|] == needle then pos
    else IndexOf(hay, needle, pos + 1)
  }

  /** `hay.includes(needle)`: true exactly when `needle` occurs somewhere in `hay`. */
  function Includes(hay: string, needle: string): (r: bool)
    ensures r <==> IsSubstring(needle, hay)
  {
    var k := IndexOf(hay, needle, 0);
    assert k >= 0 ==> OccursAt(hay, needle, k as nat);
    k >= 0
  }
}
