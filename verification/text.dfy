/** ASCII approximations of the Python string primitives the name search
    relies on: `str.lower`, `str.strip`, `str.split()` with no separator,
    `a in b` on strings and `str.startswith`. */
module Text {

  /** The ASCII characters Python's `str.isspace` accepts: space, tab,
      line feed, vertical tab, form feed, carriage return and the four
      information separators U+001C..U+001F. */
  predicate IsSpace(c: char)
  {
    c == ' ' || ('\t' <= c <= '\r') || ('\U{1C}' <= c <= '\U{1F}')
  }

  predicate AllSpace(s: string)
  {
    forall i :: 0 <= i < |s| ==> IsSpace(s[i])
  }

  function LowerChar(c: char): (r: char)
    ensures IsSpace(r) <==> IsSpace(c)
    ensures !('A' <= r <= 'Z')
  {
    if 'A' <= c <= 'Z' then (c as int + 32) as char else c
  }

  /** `s.lower()` restricted to ASCII letters. */
  function Lower(s: string): (r: string)
    ensures |r| == |s|
    ensures forall i :: 0 <= i < |s| ==> r[i] == LowerChar(s[i])
  {
    if s == [] then [] else [LowerChar(s[0])] + Lower(s[1..])
  }

  /** Number of whitespace characters at the front of `s`. */
  function LeadingSpaces(s: string): (n: nat)
    ensures n <= |s|
    ensures forall i :: 0 <= i < n ==> IsSpace(s[i])
    ensures n < |s| ==> !IsSpace(s[n])
  {
    if s == [] || !IsSpace(s[0]) then 0 else 1 + LeadingSpaces(s[1..])
  }

  /** Number of whitespace characters at the back of `s`. */
  function TrailingSpaces(s: string): (n: nat)
    ensures n <= |s|
    ensures forall i :: |s| - n <= i < |s| ==> IsSpace(s[i])
    ensures n < |s| ==> !IsSpace(s[|s| - n - 1])
  {
    if s == [] || !IsSpace(s[|s| - 1]) then 0 else 1 + TrailingSpaces(s[..|s| - 1])
  }

  /** Number of non-whitespace characters at the front of `s`. */
  function WordLength(s: string): (n: nat)
    ensures n <= |s|
    ensures forall i :: 0 <= i < n ==> !IsSpace(s[i])
    ensures n < |s| ==> IsSpace(s[n])
  {
    if s == [] || IsSpace(s[0]) then 0 else 1 + WordLength(s[1..])
  }

  /** `s.strip()`: `s` without its leading and trailing whitespace. */
  function Strip(s: string): (r: string)
    ensures r == [] <==> AllSpace(s)
    ensures r != [] ==> !IsSpace(r[0]) && !IsSpace(r[|r| - 1])
    ensures LeadingSpaces(s) + |r| <= |s|
    ensures r == s[LeadingSpaces(s)..LeadingSpaces(s) + |r|]
    ensures AllSpace(s[LeadingSpaces(s) + |r|..])
  {
    var front := s[LeadingSpaces(s)..];
    var r := front[..|front| - TrailingSpaces(front)];
    StripTail(s, LeadingSpaces(s), front, r, TrailingSpaces(front));
    r
  }

  /** What the strip leaves off at the back of `s` is whitespace. */
  lemma {:induction false} StripTail(s: string, lead: nat, front: string, r: string, tail: nat)
    requires lead <= |s| && front == s[lead..] && tail <= |front|
    requires r == front[..|front| - tail]
    requires forall i :: |front| - tail <= i < |front| ==> IsSpace(front[i])
    ensures lead + |r| <= |s| && AllSpace(s[lead + |r|..])
  {
    var back := s[lead + |r|..];
    forall i | 0 <= i < |back| ensures IsSpace(back[i]) {
      assert back[i] == front[|r| + i];
    }
  }

  /** `s.split()`: the maximal runs of non-whitespace characters, in order. */
  function Split(s: string): seq<string>
    decreases |s|
  {
    if s == [] then []
    else if IsSpace(s[0]) then Split(s[1..])
    else
      var n := WordLength(s);
      [s[..n]] + Split(s[n..])
  }

  /** The words are non-empty runs without whitespace, and there are none
      exactly when `s` is all whitespace. */
  lemma {:induction false} SplitWords(s: string)
    ensures forall k :: 0 <= k < |Split(s)| ==> Split(s)[k] != []
    ensures forall k, i :: 0 <= k < |Split(s)| && 0 <= i < |Split(s)[k]| ==> !IsSpace(Split(s)[k][i])
    ensures Split(s) == [] <==> AllSpace(s)
    decreases |s|
  {
    if s != [] {
      if IsSpace(s[0]) {
        SplitSkipsBlank(s);
        SplitWords(s[1..]);
      } else {
        var n := WordLength(s);
        SplitFirstWord(s);
        SplitWords(s[n..]);
      }
    }
  }

  /** A leading whitespace character is skipped. */
  lemma {:induction false} SplitSkipsBlank(s: string)
    requires s != [] && IsSpace(s[0])
    ensures Split(s) == Split(s[1..])
    ensures AllSpace(s) <==> AllSpace(s[1..])
  {
    assert forall i :: 0 < i < |s| ==> s[1..][i - 1] == s[i];
  }

  /** The three equations below fix `split()` on every string: the empty
      string has no words, a leading whitespace character is dropped, and a
      maximal run of non-whitespace characters is the first word. */
  lemma {:induction false} SplitEmpty()
    ensures Split("") == []
  {
  }

  lemma {:induction false} SplitBlankThenRest(c: char, s: string)
    requires IsSpace(c)
    ensures Split([c] + s) == Split(s)
  {
    var t := [c] + s;
    assert t[1..] == s;
  }

  /** A word followed by nothing or by whitespace splits off as the first word. */
  lemma {:induction false} SplitWordThenRest(w: string, s: string)
    requires w != [] && forall i :: 0 <= i < |w| ==> !IsSpace(w[i])
    requires s == [] || IsSpace(s[0])
    ensures Split(w + s) == [w] + Split(s)
  {
    var t := w + s;
    assert !IsSpace(t[0]);
    WordLengthOfWord(w, s);
    assert t[..|w|] == w;
    assert t[|w|..] == s;
  }

  lemma {:induction false} WordLengthOfWord(w: string, s: string)
    requires forall i :: 0 <= i < |w| ==> !IsSpace(w[i])
    requires s == [] || IsSpace(s[0])
    ensures WordLength(w + s) == |w|
    decreases |w|
  {
    if w != [] {
      assert (w + s)[1..] == w[1..] + s;
      WordLengthOfWord(w[1..], s);
    } else {
      assert w + s == s;
    }
  }

  /** A leading non-whitespace run is the first word; the rest are the words
      of what follows it. */
  lemma {:induction false} SplitFirstWord(s: string)
    requires s != [] && !IsSpace(s[0])
    ensures var n := WordLength(s);
            && 1 <= n
            && |Split(s)| == 1 + |Split(s[n..])|
            && Split(s)[0] == s[..n]
            && (forall k :: 1 <= k < |Split(s)| ==> Split(s)[k] == Split(s[n..])[k - 1])
            && !AllSpace(s)
  {
  }

  /** `s.startswith(p)`. */
  predicate StartsWith(s: string, p: string)
  {
    |p| <= |s| && s[..|p|] == p
  }

  /** `p in s` on strings: `p` occurs in `s` as a contiguous block. */
  predicate Contains(s: string, p: string)
    decreases |s|
  {
    StartsWith(s, p) || (s != [] && Contains(s[1..], p))
  }

  /** `p` occurs in `s` starting at offset `i`. */
  predicate OccursAt(s: string, p: string, i: int)
  {
    0 <= i <= |s| - |p| && s[i..i + |p|] == p
  }

  /** `Contains` agrees with "occurs at some offset". */
  lemma {:induction false} ContainsAt(s: string, p: string)
    ensures Contains(s, p) <==> exists i :: OccursAt(s, p, i)
    decreases |s|
  {
    if StartsWith(s, p) {
      assert OccursAt(s, p, 0);
    }
    if s != [] {
      ContainsAt(s[1..], p);
      if Contains(s[1..], p) {
        var i :| OccursAt(s[1..], p, i);
        assert OccursAt(s, p, i + 1);
      }
      if exists i :: OccursAt(s, p, i) {
        var i :| OccursAt(s, p, i);
        if i > 0 {
          assert OccursAt(s[1..], p, i - 1);
        }
      }
    } else {
      if exists i :: OccursAt(s, p, i) {
        var i :| OccursAt(s, p, i);
        assert i == 0 && p == [];
      }
    }
  }

  /** A block of a prefix of `s` is a block of `s`. */
  lemma {:induction false} ContainsInPrefix(s: string, b: string, p: string)
    requires StartsWith(s, b) && Contains(b, p)
    ensures Contains(s, p)
    decreases |b|
  {
    if !StartsWith(b, p) {
      assert StartsWith(s[1..], b[1..]);
      ContainsInPrefix(s[1..], b[1..], p);
    }
  }

  /** Substring containment is transitive. */
  lemma {:induction false} ContainsTrans(s: string, b: string, p: string)
    requires Contains(s, b) && Contains(b, p)
    ensures Contains(s, p)
    decreases |s|
  {
    if StartsWith(s, b) {
      ContainsInPrefix(s, b, p);
    } else {
      ContainsTrans(s[1..], b, p);
    }
  }

  /** A block of a suffix of `s` is a block of `s`. */
  lemma {:induction false} ContainsInSuffix(s: string, k: nat, p: string)
    requires k <= |s| && Contains(s[k..], p)
    ensures Contains(s, p)
    decreases k
  {
    if k > 0 {
      assert s[1..][k - 1..] == s[k..];
      ContainsInSuffix(s[1..], k - 1, p);
    }
  }

  /** Every word `s.split()` returns is a substring of `s`. */
  lemma {:induction false} SplitWordsOccur(s: string)
    ensures forall k :: 0 <= k < |Split(s)| ==> Contains(s, Split(s)[k])
    decreases |s|
  {
    if s != [] {
      if IsSpace(s[0]) {
        SplitSkipsBlank(s);
        SplitWordsOccur(s[1..]);
        forall k | 0 <= k < |Split(s)| ensures Contains(s, Split(s)[k]) {
          ContainsInSuffix(s, 1, Split(s)[k]);
        }
      } else {
        var n := WordLength(s);
        SplitFirstWord(s);
        SplitWordsOccur(s[n..]);
        forall k | 0 <= k < |Split(s)| ensures Contains(s, Split(s)[k]) {
          if k == 0 {
            assert StartsWith(s, s[..n]);
          } else {
            ContainsInSuffix(s, n, Split(s)[k]);
          }
        }
      }
    }
  }

  /** Lower-casing changes no character's whitespace status, so it does not
      change whether stripping leaves anything. */
  lemma {:induction false} LowerKeepsBlankness(s: string)
    ensures Strip(Lower(s)) == [] <==> Strip(s) == []
  {
  }

  /** Lower-casing leaves a string without upper-case letters unchanged. */
  lemma {:induction false} LowerWithoutUpper(s: string)
    requires forall i :: 0 <= i < |s| ==> !('A' <= s[i] <= 'Z')
    ensures Lower(s) == s
  {
  }

  /** `Lower(s)` is `t` when `t` is `s` lower-cased character by character. */
  lemma {:induction false} LowerIs(s: string, t: string)
    requires |s| == |t| && forall i :: 0 <= i < |s| ==> LowerChar(s[i]) == t[i]
    ensures Lower(s) == t
  {
  }

  /** Stripping leaves a string that neither starts nor ends with
      whitespace unchanged. */
  lemma {:induction false} StripWithoutEdges(s: string)
    requires s != [] && !IsSpace(s[0]) && !IsSpace(s[|s| - 1])
    ensures Strip(s) == s
  {
    assert LeadingSpaces(s) == 0;
    assert s[0..] == s;
  }
}
