/**
 * The string operations of Rust's standard library that the log aggregation
 * relies on: `split_ascii_whitespace`, `trim` and `trim_end`, `find` and `rfind`.
 */
module Text {

  import opened Wrappers

  /** `u8::is_ascii_whitespace`: space, tab, line feed, form feed and carriage return (not vertical tab). */
  predicate IsAsciiWhitespace(c: char) {
    c == ' ' || c == '\t' || c == '\n' || c == '\U{000C}' || c == '\r'
  }

  /** `char::is_whitespace`, the Unicode White_Space property, which `trim` and `trim_end` strip. */
  predicate IsWhitespace(c: char) {
    ('\t' <= c <= '\r') || c == ' ' || c == '\U{0085}' || c == '\U{00A0}' || c == '\U{1680}'
    || ('\U{2000}' <= c <= '\U{200A}') || c == '\U{2028}' || c == '\U{2029}'
    || c == '\U{202F}' || c == '\U{205F}' || c == '\U{3000}'
  }

  /** A token of `split_ascii_whitespace`: non-empty and free of ASCII whitespace. */
  predicate IsWord(w: string) {
    |w| > 0 && forall i :: 0 <= i < |w| ==> !IsAsciiWhitespace(w[i])
  }

  predicate AllWords(ws: seq<string>) {
    forall i :: 0 <= i < |ws| ==> IsWord(ws[i])
  }

  predicate AllAsciiWhitespace(s: string) {
    forall i :: 0 <= i < |s| ==> IsAsciiWhitespace(s[i])
  }

  /** Length of the run of non-whitespace characters at the start of `s`. */
  function WordLength(s: string): (n: nat)
    ensures n <= |s|
    ensures forall i :: 0 <= i < n ==> !IsAsciiWhitespace(s[i])
    ensures n < |s| ==> IsAsciiWhitespace(s[n])
  {
    if s == [] || IsAsciiWhitespace(s[0]) then 0 else 1 + WordLength(s[1..])
  }

  /** `s.split_ascii_whitespace()`: the maximal runs of non-whitespace characters, in order. */
  function Words(s: string): (ws: seq<string>)
    ensures AllWords(ws)
    decreases |s|
  {
    if s == [] then []
    else if IsAsciiWhitespace(s[0]) then Words(s[1..])
    else
      var n := WordLength(s);
      [s[..n]] + Words(s[n..])
  }

  /** The words re-emitted as `map(|w| w.to_string() + " ")` and collected: each followed by one space. */
  function Spaced(ws: seq<string>): (r: string)
    ensures r == [] <==> ws == []
    ensures r != [] ==> r[|r| - 1] == ' '
  {
    if ws == [] then "" else ws[0] + " " + Spaced(ws[1..])
  }

  lemma {:induction false} WordLengthAppend(a: string, t: string)
    ensures WordLength(a + t) == if WordLength(a) < |a| then WordLength(a) else |a| + WordLength(t)
    decreases |a|
  {
    if a != [] {
      assert (a + t)[0] == a[0];
      if !IsAsciiWhitespace(a[0]) {
        assert (a + t)[1..] == a[1..] + t;
        WordLengthAppend(a[1..], t);
      }
    } else {
      assert a + t == t;
    }
  }

  /** A string has no tokens exactly when it is all ASCII whitespace. */
  lemma {:induction false} NoWords(s: string)
    ensures Words(s) == [] <==> AllAsciiWhitespace(s)
    decreases |s|
  {
    if s != [] && IsAsciiWhitespace(s[0]) {
      NoWords(s[1..]);
      assert AllAsciiWhitespace(s) <==> AllAsciiWhitespace(s[1..]) by {
        assert forall i :: 0 < i < |s| ==> s[i] == s[1..][i - 1];
      }
    }
  }

  /** A string that is one word splits into exactly that word. */
  lemma WordsOfWord(w: string)
    requires IsWord(w)
    ensures Words(w) == [w]
  {
    assert WordLength(w) == |w|;
    assert w[..|w|] == w;
    assert w[|w|..] == "";
  }

  /** Splitting treats any ASCII whitespace character as a separator between two pieces. */
  lemma {:induction false} WordsSeparated(a: string, c: char, b: string)
    requires IsAsciiWhitespace(c)
    ensures Words(a + [c] + b) == Words(a) + Words(b)
    decreases |a|, 1
  {
    var s := a + [c] + b;
    if a == [] {
      assert s[1..] == b;
    } else if IsAsciiWhitespace(a[0]) {
      assert s[1..] == a[1..] + [c] + b;
      WordsSeparated(a[1..], c, b);
    } else {
      WordsSeparatedAfterWord(a, c, b);
    }
  }

  /** The case of `WordsSeparated` where `a` starts with a word. */
  lemma {:induction false} WordsSeparatedAfterWord(a: string, c: char, b: string)
    requires IsAsciiWhitespace(c) && a != [] && !IsAsciiWhitespace(a[0])
    ensures Words(a + [c] + b) == Words(a) + Words(b)
    decreases |a|, 0
  {
    var s := a + [c] + b;
    var m := WordLength(a);
    WordLengthAppend(a, [c] + b);
    assert s == a + ([c] + b);
    if m < |a| {
      assert s[..m] == a[..m];
      assert s[m..] == a[m..] + [c] + b;
      WordsSeparated(a[m..], c, b);
    } else {
      assert WordLength([c] + b) == 0;
      assert s[..m] == a && a[..m] == a;
      assert s[m..] == [c] + b;
      assert ([c] + b)[1..] == b;
      assert a[m..] == "";
    }
  }

  /** Leading ASCII whitespace does not change the words. */
  lemma {:induction false} WordsSkipWhitespace(ws: string, b: string)
    requires AllAsciiWhitespace(ws)
    ensures Words(ws + b) == Words(b)
    decreases |ws|
  {
    if ws != [] {
      assert (ws + b)[1..] == ws[1..] + b;
      WordsSkipWhitespace(ws[1..], b);
    } else {
      assert ws + b == b;
    }
  }

  /** Runs of ASCII whitespace between two pieces collapse: the words are those of the pieces. */
  lemma WordsCollapseRun(a: string, ws: string, b: string)
    requires |ws| > 0 && AllAsciiWhitespace(ws)
    ensures Words(a + ws + b) == Words(a) + Words(b)
  {
    assert a + ws + b == a + [ws[0]] + (ws[1..] + b);
    WordsSeparated(a, ws[0], ws[1..] + b);
    WordsSkipWhitespace(ws[1..], b);
  }

  /** Re-splitting the space-joined words gives the words back. */
  lemma {:induction false} WordsOfSpaced(ws: seq<string>)
    requires AllWords(ws)
    ensures Words(Spaced(ws)) == ws
  {
    if ws != [] {
      assert AllWords(ws[1..]) by {
        forall i | 0 <= i < |ws[1..]| ensures IsWord(ws[1..][i]) { assert ws[1..][i] == ws[i + 1]; }
      }
      WordsSeparated(ws[0], ' ', Spaced(ws[1..]));
      WordsOfWord(ws[0]);
      WordsOfSpaced(ws[1..]);
    }
  }

  /** The number of Unicode whitespace characters at the start of `s`. */
  function LeadingWhitespace(s: string): (k: nat)
    ensures k <= |s|
    ensures forall i :: 0 <= i < k ==> IsWhitespace(s[i])
    ensures k == |s| || !IsWhitespace(s[k])
  {
    if s != [] && IsWhitespace(s[0]) then 1 + LeadingWhitespace(s[1..]) else 0
  }

  /** The length of `s` without the Unicode whitespace at its end. */
  function KeptByTrimEnd(s: string): (n: nat)
    ensures n <= |s|
    ensures forall i :: n <= i < |s| ==> IsWhitespace(s[i])
    ensures n == 0 || !IsWhitespace(s[n - 1])
  {
    if s != [] && IsWhitespace(s[|s| - 1]) then KeptByTrimEnd(s[..|s| - 1]) else |s|
  }

  /** `s.trim_end()`: the prefix left after dropping trailing Unicode whitespace. */
  function TrimEnd(s: string): (r: string)
    ensures |r| <= |s| && r == s[..|r|]
    ensures forall i :: |r| <= i < |s| ==> IsWhitespace(s[i])
    ensures r == [] || !IsWhitespace(r[|r| - 1])
  {
    s[..KeptByTrimEnd(s)]
  }

  /** `s.trim()`: the infix left after dropping Unicode whitespace at both ends. */
  function Trim(s: string): (r: string)
    ensures var k := LeadingWhitespace(s);
      k + |r| <= |s| && r == s[k..k + |r|]
      && (forall i :: 0 <= i < k ==> IsWhitespace(s[i]))
      && (forall i :: k + |r| <= i < |s| ==> IsWhitespace(s[i]))
    ensures r == [] || (!IsWhitespace(r[0]) && !IsWhitespace(r[|r| - 1]))
  {
    var k := LeadingWhitespace(s);
    if k == |s| then "" else s[k..KeptByTrimEnd(s)]
  }

  /** A string that neither starts nor ends with whitespace is its own trimming. */
  lemma TrimUntouched(s: string)
    requires s == [] || (!IsWhitespace(s[0]) && !IsWhitespace(s[|s| - 1]))
    ensures Trim(s) == s
  {
  }

  lemma TrimIdempotent(s: string)
    ensures Trim(Trim(s)) == Trim(s)
  {
    TrimUntouched(Trim(s));
  }

  /** An extra trailing space never survives `trim_end`. */
  lemma TrimEndSpace(s: string)
    ensures TrimEnd(s + " ") == TrimEnd(s)
  {
    assert (s + " ")[..|s|] == s;
  }

  lemma TrimEndUntouched(s: string)
    requires s == [] || !IsWhitespace(s[|s| - 1])
    ensures TrimEnd(s) == s
  {
  }

  /** `needle` starts at position `p` of `s`. */
  predicate OccursAt(s: string, needle: string, p: nat) {
    p + |needle| <= |s| && s[p..p + |needle|] == needle
  }

  /** `s.find(needle).is_some()`. */
  predicate Contains(s: string, needle: string): (b: bool)
    ensures b ==> |needle| <= |s|
    ensures needle == [] ==> b
  {
    assert needle == [] ==> OccursAt(s, needle, 0);
    exists p: nat :: p <= |s| && OccursAt(s, needle, p)
  }

  /** The last occurrence of `needle` starting at or before `k`. */
  function LastAtOrBefore(s: string, needle: string, k: nat): (r: Option<nat>)
    requires k + |needle| <= |s|
    ensures r.Some? ==> r.value <= k && OccursAt(s, needle, r.value)
    ensures r.Some? ==> forall q: nat :: r.value < q <= k ==> !OccursAt(s, needle, q)
    ensures r.None? ==> forall q: nat :: q <= k ==> !OccursAt(s, needle, q)
  {
    if OccursAt(s, needle, k) then Some(k)
    else if k == 0 then None
    else LastAtOrBefore(s, needle, k - 1)
  }

  /** `s.rfind(needle)`: the start of the last occurrence of `needle`, if there is one. */
  function LastIndexOf(s: string, needle: string): (r: Option<nat>)
    ensures r.Some? ==> OccursAt(s, needle, r.value)
    ensures r.Some? ==> forall q: nat :: OccursAt(s, needle, q) ==> q <= r.value
    ensures r.None? <==> !Contains(s, needle)
  {
    if |needle| > |s| then None else LastAtOrBefore(s, needle, |s| - |needle|)
  }
}
