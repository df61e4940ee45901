/** Consequences of the rule chain as written: the partial-overlap score has
    no upper bound, so an exact match (100) can be ranked below another record. */
module ScoreExamples {
  import opened Envelope
  import opened Seqs
  import opened Text
  import opened Employees
  import opened NameSearch
  import opened StableSort

  /** "xa xa ... xa" with `k` words. */
  function Repeated(k: nat): string
    requires k >= 1
  {
    "xa" + Spaced(k - 1)
  }

  /** " xa xa ... xa" with `n` words, each after a space. */
  function Spaced(n: nat): string
  {
    if n == 0 then "" else " " + ("xa" + Spaced(n - 1))
  }

  /** `k` copies of the word "xa". */
  function Copies(k: nat): seq<string>
  {
    if k == 0 then [] else ["xa"] + Copies(k - 1)
  }

  lemma {:induction false} SpacedShape(n: nat)
    ensures |Spaced(n)| == 3 * n
    ensures n > 0 ==> Spaced(n)[0] == ' ' && Spaced(n)[|Spaced(n)| - 1] == 'a'
    ensures forall i :: 0 <= i < |Spaced(n)| ==> Spaced(n)[i] in {'x', 'a', ' '}
    decreases n
  {
    if n > 0 {
      SpacedShape(n - 1);
      var r := Spaced(n);
      forall i | 0 <= i < |r| ensures r[i] in {'x', 'a', ' '} {
        if i >= 3 {
          assert r[i] == Spaced(n - 1)[i - 3];
        }
      }
    }
  }

  lemma {:induction false} RepeatedShape(k: nat)
    requires k >= 1
    ensures |Repeated(k)| == 3 * k - 1
    ensures Repeated(k)[0] == 'x' && Repeated(k)[|Repeated(k)| - 1] == 'a'
    ensures forall i :: 0 <= i < |Repeated(k)| ==> Repeated(k)[i] in {'x', 'a', ' '}
  {
    SpacedShape(k - 1);
    var r := Repeated(k);
    assert forall i :: 2 <= i < |r| ==> r[i] == Spaced(k - 1)[i - 2];
  }

  /** Splitting the repeated query gives back its `k` words. */
  lemma {:induction false} SplitRepeated(k: nat)
    requires k >= 1
    ensures Split(Repeated(k)) == Copies(k)
    decreases k, 1
  {
    var n: nat := k - 1;
    assert Repeated(k) == "xa" + Spaced(n);
    FirstWordSplitsOff(n);
    SplitSpaced(n);
    CopiesStep(n + 1);
  }

  lemma {:induction false} SplitSpaced(n: nat)
    ensures Split(Spaced(n)) == Copies(n)
    decreases n, 2
  {
    if n == 0 {
      SplitNoWords(n);
    } else {
      SpaceSkipped(n);
      SplitRepeated(n);
    }
  }

  lemma {:induction false} CopiesStep(k: nat)
    requires k >= 1
    ensures Copies(k) == ["xa"] + Copies(k - 1)
  {
  }

  lemma {:induction false} SplitNoWords(n: nat)
    requires n == 0
    ensures Split(Spaced(n)) == Copies(n)
  {
    assert Spaced(n) == "";
    assert Split("") == [];
  }

  /** The leading space of `Spaced(n)` is skipped. */
  lemma {:induction false} SpaceSkipped(n: nat)
    requires n >= 1
    ensures Split(Spaced(n)) == Split(Repeated(n))
  {
    SplitBlankThenRest(' ', Repeated(n));
  }

  /** "xa" in front of `Spaced(n)` splits off as a word of its own. */
  lemma {:induction false} FirstWordSplitsOff(n: nat)
    ensures Split("xa" + Spaced(n)) == ["xa"] + Split(Spaced(n))
  {
    assert !IsSpace('x') && !IsSpace('a');
    assert "xa"[0] == 'x' && "xa"[1] == 'a';
    assert Spaced(n) == [] || Spaced(n)[0] == ' ';
    SplitWordThenRest("xa", Spaced(n));
  }

  lemma {:induction false} ShortTextContainsNoLongerWord(s: string, p: string)
    requires |p| > |s|
    ensures !Contains(s, p)
    decreases |s|
  {
    if s != [] {
      ShortTextContainsNoLongerWord(s[1..], p);
    }
  }

  lemma {:induction false} NoCopyInX(k: nat)
    ensures !AnyIn(Copies(k), "x")
    decreases k
  {
    if k > 0 {
      ShortTextContainsNoLongerWord("x", "xa");
      assert Copies(k)[1..] == Copies(k - 1);
      NoCopyInX(k - 1);
    }
  }

  lemma {:induction false} EveryCopyOverlaps(k: nat)
    ensures PartialMatches(Copies(k), ["x"]) == k
    decreases k
  {
    if k > 0 {
      assert StartsWith("xa", "x");
      assert Overlaps("xa", ["x"]);
      assert Copies(k)[0] == "xa" && Copies(k)[1..] == Copies(k - 1);
      EveryCopyOverlaps(k - 1);
    }
  }

  /** The score is not capped at 100: against the name "x", a query of `k`
      words "xa" falls through to the partial rule with all `k` words
      matching, and scores 20 + 10k. */
  lemma {:induction false} PartialScoreUnbounded(k: nat)
    requires k >= 1
    ensures Classify(Repeated(k), "x") == Partial(k)
    ensures Score(Repeated(k), "x") == 20 + 10 * k
  {
    var q := Repeated(k);
    RepeatedShape(k);
    SplitRepeated(k);
    assert Split("x") == ["x"] by {
      assert "x" + "" == "x";
      assert Split("") == [];
      SplitWordThenRest("x", "");
    }
    ShortTextContainsNoLongerWord("x", q);
    assert q != "x";
    NoCopyInX(k);
    assert !AllIn(Copies(k), "x") by {
      ShortTextContainsNoLongerWord("x", "xa");
    }
    EveryCopyOverlaps(k);
  }

  /** A record with the given name and otherwise empty fields. */
  function Named(name: string): Record
  {
    Record(name, "", "", 0, "", None)
  }

  /** Two records: one named exactly like the query "xa xa ... xa" with `k`
      words, one named "x". */
  function Rivals(k: nat): (dir: Directory)
    requires k >= 1
  {
    assert "EMP001"[5] != "EMP002"[5];
    [Entry("EMP001", Named(Repeated(k))), Entry("EMP002", Named("x"))]
  }

  /** An exact match is not always ranked first: from nine query words on,
      the record named "x" outscores the record named exactly like the
      query and is listed before it. */
  lemma {:induction false} ExactMatchOutranked(k: nat)
    requires k >= 9
    ensures Ranked(Rivals(k), Normalize(Repeated(k))) == [Match("EMP002", 20 + 10 * k), Match("EMP001", 100)]
  {
    NormalizeRepeated(k);
    RivalScores(k);
    RankedPair(Rivals(k), Repeated(k), Match("EMP001", 100), Match("EMP002", 20 + 10 * k));
  }

  /** The query is already lower-case and stripped. */
  lemma {:induction false} NormalizeRepeated(k: nat)
    requires k >= 1
    ensures Normalize(Repeated(k)) == Repeated(k)
  {
    var r := Repeated(k);
    assert !IsSpace('x') && !IsSpace('a');
    RepeatedShape(k);
    StripWithoutEdges(r);
    LowerWithoutUpper(r);
  }

  /** The exact name scores 100 and "x" scores 20 + 10k. */
  lemma {:induction false} RivalScores(k: nat)
    requires k >= 1
    ensures ScoreOf(Rivals(k)[0], Repeated(k)) == Match("EMP001", 100)
    ensures ScoreOf(Rivals(k)[1], Repeated(k)) == Match("EMP002", 20 + 10 * k)
  {
    RivalExactScore(k);
    RivalPartialScore(k);
  }

  lemma {:induction false} RivalExactScore(k: nat)
    requires k >= 1
    ensures ScoreOf(Rivals(k)[0], Repeated(k)) == Match("EMP001", 100)
  {
    RepeatedShape(k);
    LowerWithoutUpper(Repeated(k));
  }

  lemma {:induction false} RivalPartialScore(k: nat)
    requires k >= 1
    ensures ScoreOf(Rivals(k)[1], Repeated(k)) == Match("EMP002", 20 + 10 * k)
  {
    LowerWithoutUpper("x");
    PartialScoreUnbounded(k);
  }

  /** Two records whose scores are positive and differ are ranked higher
      score first. */
  lemma {:induction false} RankedPair(dir: seq<Entry>, q: string, first: Match, second: Match)
    requires |dir| == 2 && ScoreOf(dir[0], q) == first && ScoreOf(dir[1], q) == second
    requires 0 < first.score < second.score
    ensures Ranked(dir, q) == [second, first]
  {
    assert Candidates(dir, q) == [first, second];
    SortHitPair(first, second);
  }

  /** Keeping the hits of two positive matches and sorting them puts the
      higher score first. */
  lemma {:induction false} SortHitPair(first: Match, second: Match)
    requires 0 < first.score < second.score
    ensures SortDesc(Filter([first, second], IsHit), MatchScore) == [second, first]
  {
    assert [first, second][1..] == [second];
    assert [second][1..] == [];
    assert Filter([first, second], IsHit) == [first, second];
    assert SortDesc([second], MatchScore) == [second];
    assert Insert(first, [second], MatchScore) == [second, first] by {
      assert Insert(first, [], MatchScore) == [first];
    }
  }
}
