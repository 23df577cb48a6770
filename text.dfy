/** The semantics of the Python string operations the scraper uses:
    `str.find`, slicing with a possibly negative bound, `str.split()`,
    `str.strip()`/`str.rstrip()` and `str.replace(c, "")`. */
module Text {

  /** `str.isspace()` for one character: the separators recognised by
      `str.split()` and `str.strip()` when called without arguments. */
  predicate IsSpace(c: char) {
    var n := c as int;
    (9 <= n <= 13) || (28 <= n <= 32) || n == 0x85 || n == 0xA0 || n == 0x1680
    || (0x2000 <= n <= 0x200A) || n == 0x2028 || n == 0x2029 || n == 0x202F
    || n == 0x205F || n == 0x3000
  }

  /** A maximal run produced by `str.split()`: non-empty, no whitespace. */
  predicate IsWord(w: string) {
    w != [] && forall k :: 0 <= k < |w| ==> !IsSpace(w[k])
  }

  predicate AllWords(words: seq<string>) {
    forall k :: 0 <= k < |words| ==> IsWord(words[k])
  }

  predicate OccursAt(s: string, p: string, i: int) {
    0 <= i && i + |p| <= |s| && s[i..i + |p|] == p
  }

  function FindFrom(s: string, p: string, i: nat): (r: int)
    decreases |s| - i
    ensures r == -1 || (i <= r && OccursAt(s, p, r))
    ensures r == -1 ==> forall j :: i <= j ==> !OccursAt(s, p, j)
    ensures r != -1 ==> forall j :: i <= j < r ==> !OccursAt(s, p, j)
  {
    if i + |p| > |s| then -1
    else if s[i..i + |p|] == p then i
    else FindFrom(s, p, i + 1)
  }

  /** `s.find(p)`: the first index where `p` occurs as a substring, or -1. */
  function Find(s: string, p: string): (r: int)
    ensures r == -1 <==> forall j :: !OccursAt(s, p, j)
    ensures r != -1 ==> OccursAt(s, p, r) && forall j :: 0 <= j < r ==> !OccursAt(s, p, j)
  {
    FindFrom(s, p, 0)
  }

  /** `s[:j]`, where a negative `j` counts from the end. */
  function SliceTo(s: string, j: int): (r: string)
    ensures |r| <= |s| && r == s[..|r|]
    ensures 0 <= j ==> |r| == if j < |s| then j else |s|
    ensures j < 0 ==> |r| == if |s| + j < 0 then 0 else |s| + j
  {
    if 0 <= j then s[..if j < |s| then j else |s|]
    else s[..if |s| + j < 0 then 0 else |s| + j]
  }

  /** The number of leading whitespace characters. */
  function LeadingSpace(s: string): (n: nat)
    decreases |s|
    ensures n <= |s|
    ensures n == |s| || !IsSpace(s[n])
  {
    if s != [] && IsSpace(s[0]) then 1 + LeadingSpace(s[1..]) else 0
  }

  /** The number of trailing whitespace characters. */
  function TrailingSpace(s: string): (n: nat)
    decreases |s|
    ensures n <= |s|
    ensures n == |s| || !IsSpace(s[|s| - 1 - n])
  {
    if s != [] && IsSpace(s[|s| - 1]) then 1 + TrailingSpace(s[..|s| - 1]) else 0
  }

  /** `s.lstrip()`. */
  function LStrip(s: string): string {
    s[LeadingSpace(s)..]
  }

  /** `s.rstrip()`: a prefix of `s` that ends in a character other than
      whitespace, and everything after it is whitespace. */
  function RStrip(s: string): (r: string)
    ensures |r| <= |s| && r == s[..|r|]
    ensures forall k :: |r| <= k < |s| ==> IsSpace(s[k])
    ensures r == [] || !IsSpace(r[|r| - 1])
  {
    TrailingSpaceIsSpace(s);
    s[..|s| - TrailingSpace(s)]
  }

  /** `lstrip` removes whitespace only, and all of the leading whitespace. */
  lemma {:induction false} LeadingSpaceIsSpace(s: string)
    ensures forall k :: 0 <= k < LeadingSpace(s) ==> IsSpace(s[k])
    ensures LStrip(s) == [] || !IsSpace(LStrip(s)[0])
    decreases |s|
  {
    if s != [] && IsSpace(s[0]) {
      LeadingSpaceIsSpace(s[1..]);
      forall k | 1 <= k < LeadingSpace(s) ensures IsSpace(s[k]) {
        assert s[k] == s[1..][k - 1];
      }
    }
  }

  /** The trailing run counted by TrailingSpace is all whitespace. */
  lemma {:induction false} TrailingSpaceIsSpace(s: string)
    ensures forall k :: |s| - TrailingSpace(s) <= k < |s| ==> IsSpace(s[k])
    decreases |s|
  {
    if s != [] && IsSpace(s[|s| - 1]) {
      TrailingSpaceIsSpace(s[..|s| - 1]);
      forall k | |s| - TrailingSpace(s) <= k < |s| - 1 ensures IsSpace(s[k]) {
        assert s[k] == s[..|s| - 1][k];
      }
    }
  }

  /** The length of the non-whitespace prefix of `s`. */
  function WordLength(s: string): (n: nat)
    decreases |s|
    ensures n <= |s|
    ensures n == |s| || IsSpace(s[n])
  {
    if s == [] || IsSpace(s[0]) then 0 else 1 + WordLength(s[1..])
  }

  /** The prefix measured by WordLength holds no whitespace. */
  lemma {:induction false} WordLengthPrefix(s: string)
    ensures forall k :: 0 <= k < WordLength(s) ==> !IsSpace(s[k])
    decreases |s|
  {
    if s != [] && !IsSpace(s[0]) {
      WordLengthPrefix(s[1..]);
      forall k | 1 <= k < WordLength(s) ensures !IsSpace(s[k]) {
        assert s[k] == s[1..][k - 1];
      }
    }
  }

  /** `s.split()`: the maximal runs of non-whitespace, in order. */
  function Split(s: string): (words: seq<string>)
    decreases |s|
  {
    var t := LStrip(s);
    if t == [] then []
    else
      var n := WordLength(t);
      [t[..n]] + Split(t[n..])
  }

  /** Every element `split()` returns is a word. */
  lemma {:induction false} SplitGivesWords(s: string)
    ensures AllWords(Split(s))
    decreases |s|
  {
    var t := LStrip(s);
    LeadingSpaceIsSpace(s);
    if t != [] {
      var n := WordLength(t);
      WordLengthPrefix(t);
      SplitGivesWords(t[n..]);
      var words := Split(s);
      assert words == [t[..n]] + Split(t[n..]);
      forall k | 0 <= k < |words| ensures IsWord(words[k]) {
        if k > 0 {
          assert words[k] == Split(t[n..])[k - 1];
        }
      }
    }
  }

  /** Whitespace alone splits to no words, and only whitespace does. */
  lemma SplitEmptyIffBlank(s: string)
    ensures Split(s) == [] <==> forall k :: 0 <= k < |s| ==> IsSpace(s[k])
  {
    LeadingSpaceIsSpace(s);
  }

  /** The words, each preceded by one space: `"".join(" " + w for w in words)`. */
  function Spaced(words: seq<string>): string {
    if words == [] then "" else " " + words[0] + Spaced(words[1..])
  }

  /** `s.replace(c, "")` for a single character `c`. */
  function Without(s: string, c: char): (r: string)
    decreases |s|
    ensures |r| <= |s|
  {
    if s == [] then []
    else if s[0] == c then Without(s[1..], c)
    else [s[0]] + Without(s[1..], c)
  }

  /** `replace(c, "")` leaves no `c`, keeps every other character in order,
      and changes nothing in text without `c`. */
  lemma {:induction false} WithoutSpec(s: string, c: char)
    ensures c !in Without(s, c)
    ensures forall x :: x in Without(s, c) ==> x in s
    ensures c !in s ==> Without(s, c) == s
    decreases |s|
  {
    if s != [] {
      WithoutSpec(s[1..], c);
    }
  }

  lemma {:induction false} WithoutAppend(a: string, b: string, c: char)
    ensures Without(a + b, c) == Without(a, c) + Without(b, c)
    decreases |a|
  {
    if a == [] {
      assert a + b == b;
    } else {
      assert (a + b)[1..] == a[1..] + b;
      WithoutAppend(a[1..], b, c);
    }
  }

  /** A leading space never changes the words. */
  lemma SplitLeadingSpace(s: string)
    ensures Split(" " + s) == Split(s)
  {
    assert (" " + s)[1..] == s;
    assert LStrip(" " + s) == LStrip(s);
  }

  lemma {:induction false} WordLengthOfWord(w: string, rest: string)
    requires IsWord(w) || w == []
    requires rest == [] || IsSpace(rest[0])
    ensures WordLength(w + rest) == |w|
    decreases |w|
  {
    if w == [] {
      assert w + rest == rest;
    } else {
      assert (w + rest)[1..] == w[1..] + rest;
      WordLengthOfWord(w[1..], rest);
    }
  }

  /** A word followed by nothing or by whitespace splits off as the first word. */
  lemma SplitWordThenRest(w: string, rest: string)
    requires IsWord(w)
    requires rest == [] || IsSpace(rest[0])
    ensures Split(w + rest) == [w] + Split(rest)
  {
    var j := w + rest;
    assert j[0] == w[0];
    assert LeadingSpace(j) == 0;
    WordLengthOfWord(w, rest);
    assert j[..|w|] == w;
    assert j[|w|..] == rest;
  }

  lemma SpacedStart(words: seq<string>)
    ensures words == [] ==> Spaced(words) == []
    ensures words != [] ==> Spaced(words) == [' '] + (words[0] + Spaced(words[1..]))
  {
    if words != [] {
      assert " " + words[0] + Spaced(words[1..]) == [' '] + (words[0] + Spaced(words[1..]));
    }
  }

  /** Splitting words that are each preceded by one space gives back
      exactly those words. */
  lemma {:induction false} SplitSpaced(words: seq<string>)
    requires AllWords(words)
    ensures Split(Spaced(words)) == words
    decreases |words|
  {
    if words != [] {
      var w, tail := words[0], words[1..];
      var rest := Spaced(tail);
      calc {
        Split(Spaced(words));
        { SpacedStart(words); }
        Split(" " + (w + rest));
        { SplitLeadingSpace(w + rest); }
        Split(w + rest);
        { assert IsWord(w); SpacedStart(tail); SplitWordThenRest(w, rest); }
        [w] + Split(rest);
        { AllWordsTail(words); SplitSpaced(tail); }
        [w] + tail;
        words;
      }
    }
  }

  lemma AllWordsTail(words: seq<string>)
    requires AllWords(words) && words != []
    ensures AllWords(words[1..])
  {
    forall k | 0 <= k < |words| - 1 ensures IsWord(words[1..][k]) {
      assert words[1..][k] == words[k + 1];
    }
  }
}
