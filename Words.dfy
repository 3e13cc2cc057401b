/**
 * Python's `str.split()` (no separator: split on runs of whitespace, drop
 * leading and trailing whitespace) and `" ".join(...)`, over `string`.
 */
module Words {

  /** The characters for which Python's `str.isspace()` holds. */
  predicate IsSpace(c: char) {
    var n := c as int;
    (0x09 <= n <= 0x0D) || (0x1C <= n <= 0x20) || n == 0x85 || n == 0xA0 ||
    n == 0x1680 || (0x2000 <= n <= 0x200A) || n == 0x2028 || n == 0x2029 ||
    n == 0x202F || n == 0x205F || n == 0x3000
  }

  /** A word as `str.split()` produces it: non-empty, no whitespace inside. */
  predicate IsWord(w: string) {
    |w| > 0 && forall i :: 0 <= i < |w| ==> !IsSpace(w[i])
  }

  /**
   * Length of the longest prefix of `s` whose characters are all whitespace
   * (`space`) or all non-whitespace (`!space`).
   */
  function SpanLength(s: string, space: bool): (r: nat)
    ensures r <= |s|
    ensures forall i :: 0 <= i < r ==> IsSpace(s[i]) == space
    ensures r < |s| ==> IsSpace(s[r]) != space
  {
    if s == [] || IsSpace(s[0]) != space then 0 else 1 + SpanLength(s[1..], space)
  }

  /** `s.split()`: skip leading whitespace, take the next word, repeat. */
  function Split(s: string): seq<string>
    decreases |s|
  {
    var t := s[SpanLength(s, true)..];
    if t == [] then []
    else
      var n := SpanLength(t, false);
      [t[..n]] + Split(t[n..])
  }

  /** Every piece `str.split()` returns is a word. */
  lemma {:induction false} SplitWords(s: string)
    ensures forall i :: 0 <= i < |Split(s)| ==> IsWord(Split(s)[i])
    decreases |s|
  {
    var t := s[SpanLength(s, true)..];
    if t != [] {
      var n := SpanLength(t, false);
      LeadingWord(t);
      SplitWords(t[n..]);
      ConsWords(t[..n], Split(t[n..]));
      assert Split(s) == [t[..n]] + Split(t[n..]);
    }
  }

  lemma ConsWords(w: string, rest: seq<string>)
    requires IsWord(w)
    requires forall i :: 0 <= i < |rest| ==> IsWord(rest[i])
    ensures forall i :: 0 <= i < |[w] + rest| ==> IsWord(([w] + rest)[i])
  {
    forall i | 0 <= i < |[w] + rest| ensures IsWord(([w] + rest)[i]) {
      if i > 0 {
        assert ([w] + rest)[i] == rest[i - 1];
      }
    }
  }

  /** The non-whitespace run at the head of a text that starts with one is a word. */
  lemma LeadingWord(t: string)
    requires t != [] && !IsSpace(t[0])
    ensures IsWord(t[..SpanLength(t, false)])
  {
    var w := t[..SpanLength(t, false)];
    forall i | 0 <= i < |w| ensures !IsSpace(w[i]) {
      assert w[i] == t[i];
    }
  }

  /** `str.split()` gives no words exactly when the text is all whitespace. */
  lemma SplitEmptyIff(s: string)
    ensures Split(s) == [] <==> forall i :: 0 <= i < |s| ==> IsSpace(s[i])
  {
  }

  /** `" ".join(words)`. */
  function Join(words: seq<string>): string {
    if |words| == 0 then ""
    else if |words| == 1 then words[0]
    else words[0] + " " + Join(words[1..])
  }

  /** Concatenation of a sequence of sequences. */
  function Flatten<T>(ss: seq<seq<T>>): seq<T> {
    if ss == [] then [] else ss[0] + Flatten(ss[1..])
  }

  /** The characters of `s` that are not whitespace, in order. */
  function NonSpace(s: string): string {
    if s == [] then []
    else if IsSpace(s[0]) then NonSpace(s[1..])
    else [s[0]] + NonSpace(s[1..])
  }

  lemma {:induction false} NonSpaceAppend(a: string, b: string)
    ensures NonSpace(a + b) == NonSpace(a) + NonSpace(b)
    decreases |a|
  {
    if a == [] {
      assert a + b == b;
    } else {
      assert (a + b)[1..] == a[1..] + b;
      NonSpaceAppend(a[1..], b);
    }
  }

  lemma {:induction false} NonSpaceOfSpaces(s: string)
    requires forall i :: 0 <= i < |s| ==> IsSpace(s[i])
    ensures NonSpace(s) == []
    decreases |s|
  {
    if s != [] {
      NonSpaceOfSpaces(s[1..]);
    }
  }

  lemma {:induction false} NonSpaceOfWord(w: string)
    requires forall i :: 0 <= i < |w| ==> !IsSpace(w[i])
    ensures NonSpace(w) == w
    decreases |w|
  {
    if w != [] {
      NonSpaceOfWord(w[1..]);
    }
  }

  /**
   * Splitting loses exactly the whitespace: the words, concatenated, are the
   * non-whitespace characters of the text in their original order.
   */
  lemma {:induction false} SplitKeepsNonSpace(s: string)
    ensures Flatten(Split(s)) == NonSpace(s)
    decreases |s|
  {
    var t := s[SpanLength(s, true)..];
    NonSpaceSkipsLead(s);
    if t != [] {
      var n := SpanLength(t, false);
      NonSpaceKeepsHead(t);
      SplitKeepsNonSpace(t[n..]);
      assert Split(s) == [t[..n]] + Split(t[n..]);
    }
  }

  lemma NonSpaceSkipsLead(s: string)
    ensures NonSpace(s) == NonSpace(s[SpanLength(s, true)..])
  {
    var lead := SpanLength(s, true);
    assert s == s[..lead] + s[lead..];
    NonSpaceOfSpaces(s[..lead]);
    NonSpaceAppend(s[..lead], s[lead..]);
  }

  lemma NonSpaceKeepsHead(t: string)
    ensures NonSpace(t) == t[..SpanLength(t, false)] + NonSpace(t[SpanLength(t, false)..])
  {
    var n := SpanLength(t, false);
    assert t == t[..n] + t[n..];
    NonSpaceOfWord(t[..n]);
    NonSpaceAppend(t[..n], t[n..]);
  }

  /** A word followed by whitespace (or by nothing) is split off as one word. */
  lemma SplitWordThen(w: string, rest: string)
    requires IsWord(w)
    requires rest == [] || IsSpace(rest[0])
    ensures Split(w + rest) == [w] + Split(rest)
  {
    var s := w + rest;
    assert s[0] == w[0];
    assert SpanLength(s, true) == 0;
    var n := SpanLength(s, false);
    assert forall i :: 0 <= i < |w| ==> s[i] == w[i];
    assert |w| < |s| ==> s[|w|] == rest[0];
    assert n == |w|;
    assert s[..n] == w && s[n..] == rest;
  }

  /** Leading whitespace does not change the split. */
  lemma SplitSkipsSpace(c: char, rest: string)
    requires IsSpace(c)
    ensures Split([c] + rest) == Split(rest)
  {
    var s := [c] + rest;
    assert s[1..] == rest;
    assert SpanLength(s, true) == 1 + SpanLength(rest, true);
    assert s[SpanLength(s, true)..] == rest[SpanLength(rest, true)..];
  }

  /** Round trip: splitting the space-joined words gives the words back. */
  lemma {:induction false} SplitJoin(words: seq<string>)
    requires forall i :: 0 <= i < |words| ==> IsWord(words[i])
    ensures Split(Join(words)) == words
    decreases |words|
  {
    if |words| == 0 {
    } else if |words| == 1 {
      SplitWordThen(words[0], "");
      assert words[0] + "" == words[0];
    } else {
      var rest := Join(words[1..]);
      assert words[0] + " " + rest == words[0] + ([' '] + rest);
      SplitWordThen(words[0], [' '] + rest);
      SplitSkipsSpace(' ', rest);
      SplitJoin(words[1..]);
    }
  }
}
