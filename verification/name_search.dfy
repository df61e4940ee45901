/** `search_employee_by_name`: validate the query, normalise it, score every
    record with a first-match-wins rule chain, keep the positive scores, sort
    them stably by descending score and optionally cap the list. */
module NameSearch {
  import opened Envelope
  import opened Seqs
  import opened StableSort
  import opened Text
  import opened Employees

  /** Which branch of the if/elif chain fired, in the order the chain tests them. */
  datatype Rule =
    | Exact           // query == name
    | Substring       // query in name
    | AllWords        // every query word in name
    | AnyWord         // some query word in name
    | Prefix          // name.startswith(query)
    | Partial(k: nat) // k query words overlap some name word
    | NoMatch

  /** The score each branch assigns. */
  function Points(r: Rule): nat
  {
    match r
    case Exact => 100
    case Substring => 80
    case AllWords => 60
    case AnyWord => 40
    case Prefix => 70
    case Partial(k) => 20 + 10 * k
    case NoMatch => 0
  }

  /** `all(word in name for word in words)`. */
  predicate AllIn(words: seq<string>, name: string)
  {
    words == [] || (Contains(name, words[0]) && AllIn(words[1..], name))
  }

  /** `any(word in name for word in words)`. */
  predicate AnyIn(words: seq<string>, name: string)
  {
    words != [] && (Contains(name, words[0]) || AnyIn(words[1..], name))
  }

  /** The inner loop over name words: `q in n or n in q` for some `n`. */
  predicate Overlaps(q: string, nameWords: seq<string>)
  {
    nameWords != []
    && (Contains(nameWords[0], q) || Contains(q, nameWords[0]) || Overlaps(q, nameWords[1..]))
  }

  /** The outer loop: how many query words overlap some name word (the inner
      `break` stops at the first overlap, so each query word adds at most one). */
  function PartialMatches(queryWords: seq<string>, nameWords: seq<string>): (k: nat)
    ensures k <= |queryWords|
    ensures k > 0 <==> exists i :: 0 <= i < |queryWords| && Overlaps(queryWords[i], nameWords)
  {
    if queryWords == [] then 0
    else
      var rest := PartialMatches(queryWords[1..], nameWords);
      assert forall i :: 0 < i < |queryWords| ==> queryWords[i] == queryWords[1..][i - 1];
      (if Overlaps(queryWords[0], nameWords) then 1 else 0) + rest
  }

  /** The rule chain for one normalised query and one lower-cased name,
      tested in the order the source writes it. */
  function Classify(query: string, name: string): (r: Rule)
    ensures r.Partial? ==> 1 <= r.k <= |Split(query)|
  {
    if query == name then Exact
    else if Contains(name, query) then Substring
    else if AllIn(Split(query), name) then AllWords
    else if AnyIn(Split(query), name) then AnyWord
    else if StartsWith(name, query) then Prefix
    else
      var k := PartialMatches(Split(query), Split(name));
      if k > 0 then Partial(k) else NoMatch
  }

  function Score(query: string, name: string): nat
  {
    Points(Classify(query, name))
  }

  /** `name_query.lower().strip()`. */
  function Normalize(raw: string): string
  {
    Strip(Lower(raw))
  }

  /** One `{"id": ..., "score": ...}` entry of the match list. */
  datatype Match = Match(id: string, score: nat)

  function MatchId(m: Match): string { m.id }

  function MatchScore(m: Match): int { m.score }

  function ScoreOf(e: Entry, query: string): Match
  {
    Match(e.id, Score(query, Lower(e.record.name)))
  }

  /** Every record paired with its score, in directory order. */
  function Candidates(dir: seq<Entry>, query: string): (cs: seq<Match>)
    ensures |cs| == |dir|
    ensures forall i :: 0 <= i < |dir| ==> cs[i] == ScoreOf(dir[i], query)
  {
    Map(dir, (e: Entry) => ScoreOf(e, query))
  }

  predicate IsHit(m: Match) { m.score > 0 }

  /** The scoring loop: the records with a positive score, in directory order. */
  function Scored(dir: seq<Entry>, query: string): seq<Match>
  {
    Filter(Candidates(dir, query), IsHit)
  }

  /** `matches.sort(key=lambda x: x["score"], reverse=True)`. */
  function Ranked(dir: seq<Entry>, query: string): seq<Match>
  {
    SortDesc(Scored(dir, query), MatchScore)
  }

  /** `if max_results: matches = matches[:max_results]`: both `None` and `0`
      leave the list whole. */
  function Cap(ms: seq<Match>, maxResults: Option<nat>): (r: seq<Match>)
    ensures maxResults == None || maxResults == Some(0) ==> r == ms
    ensures maxResults.Some? && maxResults.value > 0 ==>
              |r| == Min(maxResults.value, |ms|)
    ensures IsPrefix(r, ms)
  {
    if maxResults.Some? && maxResults.value != 0 && maxResults.value < |ms|
    then ms[..maxResults.value]
    else ms
  }

  /** The ids of every matching record, best first, before any cap. */
  function RankedIds(dir: seq<Entry>, nameQuery: string): seq<string>
  {
    Map(Ranked(dir, Normalize(nameQuery)), MatchId)
  }

  function Min(a: int, b: int): int { if a < b then a else b }

  /** The score of the record with `id` against `query`; 0 for an unknown id. */
  function IdScore(dir: Directory, query: string, id: string): int
  {
    match Find(dir, id)
    case Some(e) => ScoreOf(e, query).score
    case None => 0
  }

  /** The success payload: the query as given, the count, the ranked ids. */
  datatype NameMatches = NameMatches(query: string, count: nat, employeeIds: seq<string>)

  const EmptyQueryMessage: string := "Name query cannot be empty"

  /** The default of `max_results` when the caller leaves it out. */
  const DefaultMaxResults: Option<nat> := Some(10)

  function SearchByName(dir: Directory, nameQuery: string, maxResults: Option<nat>): (r: Result<NameMatches>)
    ensures r.Failure? <==> AllSpace(nameQuery)
    ensures r.Failure? ==> r.error == EmptyQueryMessage
    ensures r.Success? ==> r.value.query == nameQuery && r.value.count == |r.value.employeeIds|
    ensures r.Success? ==> IsPrefix(r.value.employeeIds, RankedIds(dir, nameQuery))
    ensures r.Success? && (maxResults == None || maxResults == Some(0)) ==>
              r.value.employeeIds == RankedIds(dir, nameQuery)
    ensures r.Success? && maxResults.Some? && maxResults.value > 0 ==>
              |r.value.employeeIds| == Min(maxResults.value, |RankedIds(dir, nameQuery)|)
  {
    if Strip(nameQuery) == [] then Failure(EmptyQueryMessage)
    else
      var ranked := Ranked(dir, Normalize(nameQuery));
      var capped := Cap(ranked, maxResults);
      var ids := Map(capped, MatchId);
      MapPrefix(ranked, |capped|, MatchId);
      Success(NameMatches(nameQuery, |ids|, ids))
  }

  /** A call that leaves out `max_results` lists the ten best matches, or
      all of them when there are fewer. */
  lemma {:induction false} DefaultCapsAtTen(dir: Directory, nameQuery: string)
    requires !AllSpace(nameQuery)
    ensures SearchByName(dir, nameQuery, DefaultMaxResults).Success?
    ensures var ids := SearchByName(dir, nameQuery, DefaultMaxResults).value.employeeIds;
            |ids| == Min(10, |RankedIds(dir, nameQuery)|) && ids == RankedIds(dir, nameQuery)[..|ids|]
  {
  }

  // ---------------------------------------------------------------------
  // Which rule wins

  /** `any(...)` holds exactly when some word is contained in the name. */
  lemma {:induction false} AnyInAt(words: seq<string>, name: string)
    ensures AnyIn(words, name) <==> exists i :: 0 <= i < |words| && Contains(name, words[i])
    decreases |words|
  {
    if words != [] {
      AnyInAt(words[1..], name);
      assert forall i :: 0 < i < |words| ==> words[i] == words[1..][i - 1];
    }
  }

  /** The starts-with test comes after the substring test, and a prefix is a
      substring, so the starts-with branch never fires. */
  lemma {:induction false} PrefixRuleNeverFires(query: string, name: string)
    ensures Classify(query, name) != Prefix
  {
  }

  /** A name that starts with the query scores as an exact or substring
      match (100 or 80), never the 70 of the starts-with branch. */
  lemma {:induction false} PrefixScoresAsSubstring(query: string, name: string)
    requires StartsWith(name, query)
    ensures Classify(query, name) == (if query == name then Exact else Substring)
    ensures Score(query, name) == (if query == name then 100 else 80)
  {
  }

  /** A query word "covers" a name word when the name word occurs in it. */
  predicate CoversNameWord(q: string, nameWords: seq<string>)
  {
    nameWords != [] && (Contains(q, nameWords[0]) || CoversNameWord(q, nameWords[1..]))
  }

  /** How many query words cover some name word. */
  function CoveringWords(queryWords: seq<string>, nameWords: seq<string>): nat
  {
    if queryWords == [] then 0
    else (if CoversNameWord(queryWords[0], nameWords) then 1 else 0)
         + CoveringWords(queryWords[1..], nameWords)
  }

  lemma {:induction false} OverlapsOneWay(q: string, nameWords: seq<string>)
    requires forall j :: 0 <= j < |nameWords| ==> !Contains(nameWords[j], q)
    ensures Overlaps(q, nameWords) == CoversNameWord(q, nameWords)
    decreases |nameWords|
  {
    if nameWords != [] {
      assert forall j :: 0 < j < |nameWords| ==> nameWords[1..][j - 1] == nameWords[j];
      OverlapsOneWay(q, nameWords[1..]);
    }
  }

  lemma {:induction false} PartialMatchesOneWay(queryWords: seq<string>, nameWords: seq<string>)
    requires forall i, j :: 0 <= i < |queryWords| && 0 <= j < |nameWords| ==> !Contains(nameWords[j], queryWords[i])
    ensures PartialMatches(queryWords, nameWords) == CoveringWords(queryWords, nameWords)
    decreases |queryWords|
  {
    if queryWords != [] {
      OverlapsOneWay(queryWords[0], nameWords);
      assert forall i :: 0 < i < |queryWords| ==> queryWords[1..][i - 1] == queryWords[i];
      PartialMatchesOneWay(queryWords[1..], nameWords);
    }
  }

  /** In the final `else`, no query word lies inside a name word (it would
      then lie inside the name and the any-word branch would have fired), so
      every partial match comes from a name word lying inside a query word. */
  lemma {:induction false} FallbackOnlyNameWordsInQueryWords(query: string, name: string)
    requires Classify(query, name).Partial? || Classify(query, name) == NoMatch
    ensures forall i, j :: 0 <= i < |Split(query)| && 0 <= j < |Split(name)| ==>
              !Contains(Split(name)[j], Split(query)[i])
    ensures PartialMatches(Split(query), Split(name)) == CoveringWords(Split(query), Split(name))
  {
    var qs, ns := Split(query), Split(name);
    assert !AnyIn(qs, name);
    AnyInAt(qs, name);
    SplitWordsOccur(name);
    forall i, j | 0 <= i < |qs| && 0 <= j < |ns|
      ensures !Contains(ns[j], qs[i])
    {
      if Contains(ns[j], qs[i]) {
        ContainsTrans(name, ns[j], qs[i]);
      }
    }
    PartialMatchesOneWay(qs, ns);
  }

  /** The scores the chain can produce: one of the fixed rule scores, or
      20 + 10k for 1 <= k <= (number of query words), with no cap at 100. */
  lemma {:induction false} ScoreValues(query: string, name: string)
    ensures var s := Score(query, name);
            s == 0 || s == 40 || s == 60 || s == 80 || s == 100
            || (exists k :: 1 <= k <= |Split(query)| && s == 20 + 10 * k)
    ensures Score(query, name) == 0 <==> Classify(query, name) == NoMatch
  {
    var r := Classify(query, name);
    PrefixRuleNeverFires(query, name);
    if r.Partial? {
      assert Score(query, name) == 20 + 10 * r.k;
    }
  }

  /** A valid query always has at least one word, so the all-words test is
      never satisfied vacuously. */
  lemma {:induction false} NormalizedQueryHasWords(nameQuery: string)
    requires !AllSpace(nameQuery)
    ensures Normalize(nameQuery) != []
    ensures Split(Normalize(nameQuery)) != []
  {
    LowerKeepsBlankness(nameQuery);
    var q := Normalize(nameQuery);
    assert !IsSpace(q[0]);
  }

  // ---------------------------------------------------------------------
  // The ranked list

  /** The ranked list holds exactly the records with a positive score, each
      with that score. */
  lemma {:induction false} RankedMembers(dir: seq<Entry>, query: string)
    ensures forall k :: 0 <= k < |Ranked(dir, query)| ==>
              Ranked(dir, query)[k].score > 0
              && exists i :: 0 <= i < |dir| && Ranked(dir, query)[k] == ScoreOf(dir[i], query)
    ensures forall i :: 0 <= i < |dir| && ScoreOf(dir[i], query).score > 0 ==>
              ScoreOf(dir[i], query) in Ranked(dir, query)
  {
    var cs := Candidates(dir, query);
    var ms := Scored(dir, query);
    var rs := Ranked(dir, query);
    forall k | 0 <= k < |rs|
      ensures rs[k].score > 0 && exists i :: 0 <= i < |dir| && rs[k] == ScoreOf(dir[i], query)
    {
      assert rs[k] in ms;
      var j :| 0 <= j < |ms| && ms[j] == rs[k];
      assert ms[j] in cs;
      var i :| 0 <= i < |cs| && cs[i] == ms[j];
      assert rs[k] == ScoreOf(dir[i], query);
    }
    forall i | 0 <= i < |dir| && ScoreOf(dir[i], query).score > 0
      ensures ScoreOf(dir[i], query) in rs
    {
      assert IsHit(cs[i]);
      assert cs[i] in ms;
      var j :| 0 <= j < |ms| && ms[j] == cs[i];
    }
  }

  /** Sorting keeps the ids the scoring loop produced in directory order. */
  lemma {:induction false} ScoredIdsInDirectoryOrder(dir: seq<Entry>, query: string)
    ensures Subseq(Map(Scored(dir, query), MatchId), Map(dir, EntryId))
  {
    var cs := Candidates(dir, query);
    SubseqMap(Scored(dir, query), cs, MatchId);
    assert Map(cs, MatchId) == Map(dir, EntryId);
  }

  /** Every directory id appears at most once in the ranked list. */
  lemma {:induction false} RankedIdsDistinct(dir: Directory, query: string)
    ensures Distinct(Map(Ranked(dir, query), MatchId))
  {
    ScoredIdsInDirectoryOrder(dir, query);
    SubseqDistinct(Map(Scored(dir, query), MatchId), Map(dir, EntryId));
    assert DistinctBy(Scored(dir, query), MatchId);
    SortDescDistinctBy(Scored(dir, query), MatchScore, MatchId);
  }

  /** Ties keep directory order: for every score, the ids ranked with it
      occur in the directory in the same relative order. */
  lemma {:induction false} RankedTiesInDirectoryOrder(dir: seq<Entry>, query: string)
    ensures forall v :: Subseq(Map(WithKey(Ranked(dir, query), MatchScore, v), MatchId), Map(dir, EntryId))
  {
    var ms := Scored(dir, query);
    SortDescStable(ms, MatchScore);
    ScoredIdsInDirectoryOrder(dir, query);
    forall v ensures Subseq(Map(WithKey(Ranked(dir, query), MatchScore, v), MatchId), Map(dir, EntryId)) {
      var w := WithKey(ms, MatchScore, v);
      SubseqMap(w, ms, MatchId);
      SubseqTrans(Map(w, MatchId), Map(ms, MatchId), Map(dir, EntryId));
    }
  }

  /** The uncapped id list: distinct ids of records whose name scores
      positively. */
  lemma {:induction false} RankedIdsMembers(dir: Directory, nameQuery: string)
    ensures var all := RankedIds(dir, nameQuery);
            && Distinct(all)
            && forall k :: 0 <= k < |all| ==>
                 exists i :: 0 <= i < |dir| && dir[i].id == all[k]
                             && ScoreOf(dir[i], Normalize(nameQuery)).score > 0
  {
    var q := Normalize(nameQuery);
    var rs := Ranked(dir, q);
    var all := RankedIds(dir, nameQuery);
    RankedIdsDistinct(dir, q);
    RankedMembers(dir, q);
    forall k | 0 <= k < |all|
      ensures exists i :: 0 <= i < |dir| && dir[i].id == all[k] && ScoreOf(dir[i], q).score > 0
    {
      assert all[k] == rs[k].id;
      var i :| 0 <= i < |dir| && rs[k] == ScoreOf(dir[i], q);
    }
  }

  /** What a successful search returns: distinct ids of records whose
      normalised name scores positively, best score first. */
  lemma {:induction false} SearchByNameIds(dir: Directory, nameQuery: string, maxResults: Option<nat>)
    requires SearchByName(dir, nameQuery, maxResults).Success?
    ensures var ids := SearchByName(dir, nameQuery, maxResults).value.employeeIds;
            && Distinct(ids)
            && forall k :: 0 <= k < |ids| ==>
                 exists i :: 0 <= i < |dir| && dir[i].id == ids[k]
                             && ScoreOf(dir[i], Normalize(nameQuery)).score > 0
  {
    RankedIdsMembers(dir, nameQuery);
    PrefixKeepsMembers(dir, Normalize(nameQuery), SearchByName(dir, nameQuery, maxResults).value.employeeIds,
                       RankedIds(dir, nameQuery));
  }

  lemma {:induction false} PrefixKeepsMembers(dir: Directory, q: string, ids: seq<string>, all: seq<string>)
    requires IsPrefix(ids, all)
    requires Distinct(all)
    requires forall k :: 0 <= k < |all| ==>
               exists i :: 0 <= i < |dir| && dir[i].id == all[k] && ScoreOf(dir[i], q).score > 0
    ensures Distinct(ids)
    ensures forall k :: 0 <= k < |ids| ==>
              exists i :: 0 <= i < |dir| && dir[i].id == ids[k] && ScoreOf(dir[i], q).score > 0
  {
    forall k | 0 <= k < |ids|
      ensures exists i :: 0 <= i < |dir| && dir[i].id == ids[k] && ScoreOf(dir[i], q).score > 0
    {
      assert ids[k] == all[k];
    }
    forall i, j | 0 <= i < j < |ids| ensures ids[i] != ids[j] {
      assert ids[i] == all[i] && ids[j] == all[j];
    }
    assert forall k :: 0 <= k < |ids| ==>
             exists i :: 0 <= i < |dir| && dir[i].id == ids[k] && ScoreOf(dir[i], q).score > 0;
  }

  // ---------------------------------------------------------------------
  // Order of the returned ids

  /** Each ranked match carries the score of the record with its id. */
  lemma {:induction false} RankedScoresById(dir: Directory, query: string, rs: seq<Match>)
    requires forall k :: 0 <= k < |rs| ==>
               rs[k].score > 0 && exists i :: 0 <= i < |dir| && rs[k] == ScoreOf(dir[i], query)
    ensures forall k :: 0 <= k < |rs| ==> IdScore(dir, query, rs[k].id) == rs[k].score
  {
    forall k | 0 <= k < |rs| ensures IdScore(dir, query, rs[k].id) == rs[k].score {
      assert rs[k] in rs && rs[k].score > 0;
      var i :| 0 <= i < |dir| && rs[k] == ScoreOf(dir[i], query);
      assert Find(dir, dir[i].id) == Some(dir[i]);
    }
  }

  /** Two ranked matches with the same score come from records in that
      order in the directory. */
  lemma {:induction false} RankedTieOrder(dir: Directory, query: string, rs: seq<Match>, k: nat, l: nat)
    requires rs == Ranked(dir, query)
    requires k < l < |rs| && rs[k].score == rs[l].score
    ensures exists i, j :: 0 <= i < j < |dir| && dir[i].id == rs[k].id && dir[j].id == rs[l].id
  {
    var v := rs[k].score;
    RankedTiesInDirectoryOrder(dir, query);
    WithKeyOrder(rs, MatchScore, v, k, l);
    TieFromSubseq(dir, WithKey(rs, MatchScore, v), rs[k], rs[l]);
  }

  lemma {:induction false} TieFromSubseq(dir: Directory, w: seq<Match>, a: Match, b: Match)
    requires Subseq(Map(w, MatchId), Map(dir, EntryId))
    requires exists x, y :: 0 <= x < y < |w| && w[x] == a && w[y] == b
    ensures exists i, j :: 0 <= i < j < |dir| && dir[i].id == a.id && dir[j].id == b.id
  {
    var x, y :| 0 <= x < y < |w| && w[x] == a && w[y] == b;
    var ws, ds := Map(w, MatchId), Map(dir, EntryId);
    assert ws[x] == a.id && ws[y] == b.id;
    SubseqOrder(ws, ds, x, y);
    var i, j :| 0 <= i < j < |ds| && ds[i] == ws[x] && ds[j] == ws[y];
    assert dir[i].id == ds[i] && dir[j].id == ds[j];
  }

  /** Every tie in the ranking is in directory order. */
  lemma {:induction false} RankedTiesOrdered(dir: Directory, query: string)
    ensures var rs := Ranked(dir, query);
            forall k, l :: 0 <= k < l < |rs| && rs[k].score == rs[l].score ==>
              exists i, j :: 0 <= i < j < |dir| && dir[i].id == rs[k].id && dir[j].id == rs[l].id
  {
    var rs := Ranked(dir, query);
    forall k: nat, l: nat | k < l < |rs| && rs[k].score == rs[l].score
      ensures exists i, j :: 0 <= i < j < |dir| && dir[i].id == rs[k].id && dir[j].id == rs[l].id
    {
      RankedTieOrder(dir, query, rs, k, l);
    }
  }

  /** The uncapped id list is in non-increasing score order, and ids with
      equal scores are in directory order. */
  lemma {:induction false} RankedIdsOrder(dir: Directory, nameQuery: string)
    ensures var q, all := Normalize(nameQuery), RankedIds(dir, nameQuery);
            forall k, l :: 0 <= k < l < |all| ==> IdScore(dir, q, all[k]) >= IdScore(dir, q, all[l])
    ensures var q, all := Normalize(nameQuery), RankedIds(dir, nameQuery);
            forall k, l :: 0 <= k < l < |all| && IdScore(dir, q, all[k]) == IdScore(dir, q, all[l]) ==>
              exists i, j :: 0 <= i < j < |dir| && dir[i].id == all[k] && dir[j].id == all[l]
  {
    var q := Normalize(nameQuery);
    RankedMembers(dir, q);
    RankedScoresById(dir, q, Ranked(dir, q));
    RankedTiesOrdered(dir, q);
    IdsOrderFromMatches(dir, q, Ranked(dir, q), RankedIds(dir, nameQuery));
  }

  lemma {:induction false} IdsOrderFromMatches(dir: Directory, q: string, rs: seq<Match>, all: seq<string>)
    requires all == Map(rs, MatchId)
    requires SortedDesc(rs, MatchScore)
    requires forall k :: 0 <= k < |rs| ==> IdScore(dir, q, rs[k].id) == rs[k].score
    requires forall k, l :: 0 <= k < l < |rs| && rs[k].score == rs[l].score ==>
               exists i, j :: 0 <= i < j < |dir| && dir[i].id == rs[k].id && dir[j].id == rs[l].id
    ensures forall k, l :: 0 <= k < l < |all| ==> IdScore(dir, q, all[k]) >= IdScore(dir, q, all[l])
    ensures forall k, l :: 0 <= k < l < |all| && IdScore(dir, q, all[k]) == IdScore(dir, q, all[l]) ==>
              exists i, j :: 0 <= i < j < |dir| && dir[i].id == all[k] && dir[j].id == all[l]
  {
    forall k, l | 0 <= k < l < |all| ensures IdScore(dir, q, all[k]) >= IdScore(dir, q, all[l]) {
      assert all[k] == rs[k].id && all[l] == rs[l].id;
      assert MatchScore(rs[k]) >= MatchScore(rs[l]);
    }
    forall k, l | 0 <= k < l < |all| && IdScore(dir, q, all[k]) == IdScore(dir, q, all[l])
      ensures exists i, j :: 0 <= i < j < |dir| && dir[i].id == all[k] && dir[j].id == all[l]
    {
      assert all[k] == rs[k].id && all[l] == rs[l].id;
    }
  }

  /** The returned ids, capped or not, are in non-increasing score order,
      and ids with equal scores are in directory order. */
  lemma {:induction false} SearchByNameOrder(dir: Directory, nameQuery: string, maxResults: Option<nat>)
    requires SearchByName(dir, nameQuery, maxResults).Success?
    ensures var q, ids := Normalize(nameQuery), SearchByName(dir, nameQuery, maxResults).value.employeeIds;
            forall k, l :: 0 <= k < l < |ids| ==> IdScore(dir, q, ids[k]) >= IdScore(dir, q, ids[l])
    ensures var q, ids := Normalize(nameQuery), SearchByName(dir, nameQuery, maxResults).value.employeeIds;
            forall k, l :: 0 <= k < l < |ids| && IdScore(dir, q, ids[k]) == IdScore(dir, q, ids[l]) ==>
              exists i, j :: 0 <= i < j < |dir| && dir[i].id == ids[k] && dir[j].id == ids[l]
  {
    RankedIdsOrder(dir, nameQuery);
    PrefixKeepsOrder(dir, Normalize(nameQuery), SearchByName(dir, nameQuery, maxResults).value.employeeIds,
                     RankedIds(dir, nameQuery));
  }

  lemma {:induction false} PrefixKeepsOrder(dir: Directory, q: string, ids: seq<string>, all: seq<string>)
    requires IsPrefix(ids, all)
    requires forall k, l :: 0 <= k < l < |all| ==> IdScore(dir, q, all[k]) >= IdScore(dir, q, all[l])
    requires forall k, l :: 0 <= k < l < |all| && IdScore(dir, q, all[k]) == IdScore(dir, q, all[l]) ==>
               exists i, j :: 0 <= i < j < |dir| && dir[i].id == all[k] && dir[j].id == all[l]
    ensures forall k, l :: 0 <= k < l < |ids| ==> IdScore(dir, q, ids[k]) >= IdScore(dir, q, ids[l])
    ensures forall k, l :: 0 <= k < l < |ids| && IdScore(dir, q, ids[k]) == IdScore(dir, q, ids[l]) ==>
              exists i, j :: 0 <= i < j < |dir| && dir[i].id == ids[k] && dir[j].id == ids[l]
  {
    assert forall k :: 0 <= k < |ids| ==> ids[k] == all[k];
  }
}
