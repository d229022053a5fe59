/**
  * `searchByKeywords`: the case-insensitive substring search over one topic
  * or over all topics. A question whose text contains the query is an exact
  * hit (score 1.0); otherwise it is a keyword hit (score 0.8) when one of its
  * keywords contains the query or is contained in it.
  */
module KeywordMatcher {
  import opened Wrappers
  import opened Text
  import opened KnowledgeBase
  import opened Ranking

  const ExactScore: real := 1.0
  const KeywordScore: real := 0.8

  /** `toLowerCase`, the library's case mapping, taken as given. */
  type CaseMap = string -> string

  /** `keyword.toLowerCase().includes(queryLower) || queryLower.includes(keyword.toLowerCase())` */
  predicate KeywordOverlaps(keyword: string, queryLower: string, lower: CaseMap) {
    Includes(lower(keyword), queryLower) || Includes(queryLower, lower(keyword))
  }

  /** `keywords.some(...)` */
  predicate AnyKeywordOverlaps(keywords: seq<string>, queryLower: string, lower: CaseMap) {
    exists k :: 0 <= k < |keywords| && KeywordOverlaps(keywords[k], queryLower, lower)
  }

  function ExactResult(e: CorpusEntry): MatchResult {
    MatchResult(e.question, e.answer, e.topic, ExactScore, Exact)
  }

  function KeywordResult(e: CorpusEntry): MatchResult {
    MatchResult(e.question, e.answer, e.topic, KeywordScore, Keyword)
  }

  /** The tests applied to one question, in order: the exact test, then the keywords. */
  function Classify(e: CorpusEntry, query: string, lower: CaseMap): (r: Option<MatchResult>)
    ensures r.Some? ==> r.value.question == e.question && r.value.answer == e.answer && r.value.topic == e.topic
  {
    var queryLower := lower(query);
    if Includes(lower(e.question), queryLower) then Some(ExactResult(e))
    else if AnyKeywordOverlaps(e.keywords, queryLower, lower) then Some(KeywordResult(e))
    else None
  }

  /** The present values, in order. */
  function Somes(os: seq<Option<MatchResult>>): (rs: seq<MatchResult>)
    ensures |rs| <= |os|
  {
    if os == [] then []
    else
      var last := match os[|os| - 1] case Some(r) => [r] case None => [];
      Somes(os[..|os| - 1]) + last
  }

  lemma {:induction false} SomesAppend(a: seq<Option<MatchResult>>, b: seq<Option<MatchResult>>)
    ensures Somes(a + b) == Somes(a) + Somes(b)
    decreases |b|
  {
    if b == [] {
      assert a + b == a;
    } else {
      var n := |b| - 1;
      SomesAppend(a, b[..n]);
      var last := match b[n] case Some(r) => [r] case None => [];
      assert (a + b)[..|a + b| - 1] == a + b[..n];
      assert (a + b)[|a + b| - 1] == b[n];
      calc {
        Somes(a + b);
        Somes(a + b[..n]) + last;
        Somes(a) + Somes(b[..n]) + last;
        Somes(a) + (Somes(b[..n]) + last);
      }
    }
  }

  lemma {:induction false} SomesMembership(os: seq<Option<MatchResult>>, r: MatchResult)
    ensures r in Somes(os) <==> Some(r) in os
  {
    if os != [] {
      var n := |os| - 1;
      SomesMembership(os[..n], r);
      assert os == os[..n] + [os[n]];
    }
  }

  /** Each entry's classification, position by position. */
  function Classified(es: seq<CorpusEntry>, query: string, lower: CaseMap): (os: seq<Option<MatchResult>>)
    ensures |os| == |es|
  {
    seq(|es|, i requires 0 <= i < |es| => Classify(es[i], query, lower))
  }

  /** The hits of a run of entries, in entry order, before sorting: at most one per entry. */
  function Hits(es: seq<CorpusEntry>, query: string, lower: CaseMap): seq<MatchResult> {
    Somes(Classified(es, query, lower))
  }

  /** A result is among the hits exactly when some entry classifies to it. */
  lemma HitsMembership(es: seq<CorpusEntry>, query: string, lower: CaseMap, r: MatchResult)
    ensures r in Hits(es, query, lower) <==> exists e :: e in es && Classify(e, query, lower) == Some(r)
  {
    var os := Classified(es, query, lower);
    SomesMembership(os, r);
    if Some(r) in os {
      var i :| 0 <= i < |os| && os[i] == Some(r);
      assert es[i] in es;
    }
    if exists e :: e in es && Classify(e, query, lower) == Some(r) {
      var e :| e in es && Classify(e, query, lower) == Some(r);
      var i :| 0 <= i < |es| && es[i] == e;
      assert os[i] == Some(r);
    }
  }

  lemma HitsAppend(a: seq<CorpusEntry>, b: seq<CorpusEntry>, query: string, lower: CaseMap)
    ensures Hits(a + b, query, lower) == Hits(a, query, lower) + Hits(b, query, lower)
  {
    assert Classified(a + b, query, lower) == Classified(a, query, lower) + Classified(b, query, lower);
    SomesAppend(Classified(a, query, lower), Classified(b, query, lower));
  }

  /** No two entries carry the same question text. */
  predicate DistinctTexts(es: seq<CorpusEntry>) {
    forall i, j :: 0 <= i < j < |es| ==> es[i].question != es[j].question
  }

  /** A hit carries the question text of one of the entries. */
  lemma HitQuestion(es: seq<CorpusEntry>, query: string, lower: CaseMap, r: MatchResult)
    requires r in Hits(es, query, lower)
    ensures exists m :: 0 <= m < |es| && es[m].question == r.question
  {
    HitsMembership(es, query, lower, r);
    var e :| e in es && Classify(e, query, lower) == Some(r);
    var m :| 0 <= m < |es| && es[m] == e;
  }

  /** Two runs with distinct question texts and no text in common join into one. */
  lemma DistinctJoin(a: seq<MatchResult>, b: seq<MatchResult>)
    requires DistinctQuestions(a) && DistinctQuestions(b)
    requires forall i, j :: 0 <= i < |a| && 0 <= j < |b| ==> a[i].question != b[j].question
    ensures DistinctQuestions(a + b)
  {
    var ab := a + b;
    forall i, j | 0 <= i < j < |ab| ensures ab[i].question != ab[j].question {
      if j < |a| {
        assert ab[i] == a[i] && ab[j] == a[j];
      } else if i >= |a| {
        assert ab[i] == b[i - |a|] && ab[j] == b[j - |a|];
      } else {
        assert ab[i] == a[i] && ab[j] == b[j - |a|];
      }
    }
  }

  /** Distinct question texts among the entries give distinct question texts among the hits. */
  lemma {:induction false} HitsDistinct(es: seq<CorpusEntry>, query: string, lower: CaseMap)
    requires DistinctTexts(es)
    ensures DistinctQuestions(Hits(es, query, lower))
  {
    if es != [] {
      var n := |es| - 1;
      var init := Hits(es[..n], query, lower);
      var last := Hits([es[n]], query, lower);
      HitsDistinct(es[..n], query, lower);
      HitsAppend(es[..n], [es[n]], query, lower);
      assert es[..n] + [es[n]] == es;
      assert |last| <= 1;
      forall i, j | 0 <= i < |init| && 0 <= j < |last| ensures init[i].question != last[j].question {
        HitQuestion(es[..n], query, lower, init[i]);
        HitQuestion([es[n]], query, lower, last[j]);
      }
      DistinctJoin(init, last);
    }
  }

  /** `topic ? [topic] : Object.keys(knowledgeBase)`: an empty topic id means no scope. */
  function SearchIds(kb: Knowledge, scope: Option<TopicId>): seq<TopicId> {
    if scope.Some? && scope.value != "" then [scope.value] else Ids(kb)
  }

  /** The ids that name a topic, each paired with its topic (`if (knowledgeBase[topicKey] ...)`). */
  function Resolve(kb: Knowledge, ids: seq<TopicId>): seq<(TopicId, Topic)> {
    if ids == [] then []
    else
      var id := ids[|ids| - 1];
      Resolve(kb, ids[..|ids| - 1]) +
        match Lookup(kb, id)
        case Some(t) => [(id, t)]
        case None => []
  }

  /** The topics a search covers. */
  function Scoped(kb: Knowledge, scope: Option<TopicId>): seq<(TopicId, Topic)> {
    Resolve(kb, SearchIds(kb, scope))
  }

  /** What `searchByKeywords(query, scope)` returns: the hits of the covered topics, sorted. */
  function KeywordMatches(kb: Knowledge, query: string, scope: Option<TopicId>, lower: CaseMap): seq<MatchResult> {
    SortByScore(Hits(Corpus(Scoped(kb, scope)), query, lower))
  }

  lemma ResolveStep(kb: Knowledge, ids: seq<TopicId>, i: nat)
    requires i < |ids|
    ensures Corpus(Resolve(kb, ids[..i + 1])) == Corpus(Resolve(kb, ids[..i])) +
      match Lookup(kb, ids[i])
      case Some(t) => TopicEntries(ids[i], QuestionsOf(t))
      case None => []
  {
    assert ids[..i + 1][..i] == ids[..i];
    var before := Resolve(kb, ids[..i]);
    match Lookup(kb, ids[i])
    case Some(t) =>
      CorpusAppend(before, [(ids[i], t)]);
      assert [(ids[i], t)][..0] == [];
    case None =>
      assert Resolve(kb, ids[..i + 1]) == before;
  }

  lemma HitStep(id: TopicId, qs: seq<QuestionRecord>, j: nat, query: string, lower: CaseMap)
    requires j < |qs|
    ensures Hits(TopicEntries(id, qs[..j + 1]), query, lower) ==
      Hits(TopicEntries(id, qs[..j]), query, lower) +
      match Classify(Entry(id, qs[j]), query, lower) case Some(r) => [r] case None => []
  {
    var before := Classified(TopicEntries(id, qs[..j]), query, lower);
    var os := Classified(TopicEntries(id, qs[..j + 1]), query, lower);
    assert os == before + [Classify(Entry(id, qs[j]), query, lower)];
    assert os[..|os| - 1] == before;
  }

  /** One turn of the loop over topic ids: the hits of the named topic's questions, if it has any, are appended. */
  lemma SearchStep(kb: Knowledge, ids: seq<TopicId>, i: nat, query: string, lower: CaseMap)
    requires i < |ids|
    ensures Hits(Corpus(Resolve(kb, ids[..i + 1])), query, lower) ==
      Hits(Corpus(Resolve(kb, ids[..i])), query, lower) +
      if Lookup(kb, ids[i]).Some? && Lookup(kb, ids[i]).value.questions.Some? then
        Hits(TopicEntries(ids[i], Lookup(kb, ids[i]).value.questions.value), query, lower)
      else []
  {
    ResolveStep(kb, ids, i);
    var before := Corpus(Resolve(kb, ids[..i]));
    match Lookup(kb, ids[i])
    case Some(t) =>
      HitsAppend(before, TopicEntries(ids[i], QuestionsOf(t)), query, lower);
      if t.questions.None? {
        assert TopicEntries(ids[i], QuestionsOf(t)) == [];
        assert before + [] == before;
      }
    case None =>
      assert before + [] == before;
  }

  /** The inner `questions.forEach` of one topic: each question gives at most one hit. */
  method TopicHits(id: TopicId, qs: seq<QuestionRecord>, query: string, lower: CaseMap)
    returns (hits: seq<MatchResult>)
    ensures hits == Hits(TopicEntries(id, qs), query, lower)
  {
    hits := [];
    var j := 0;
    while j < |qs|
      invariant 0 <= j <= |qs|
      invariant hits == Hits(TopicEntries(id, qs[..j]), query, lower)
    {
      HitStep(id, qs, j, query, lower);
      var q := qs[j];
      var keywords := q.keywords.GetOr([]);
      var questionText := lower(q.question);
      var queryLower := lower(query);
      if Includes(questionText, queryLower) {
        hits := hits + [MatchResult(q.question, q.answer, id, ExactScore, Exact)];
      } else if exists k :: 0 <= k < |keywords| && KeywordOverlaps(keywords[k], queryLower, lower) {
        hits := hits + [MatchResult(q.question, q.answer, id, KeywordScore, Keyword)];
      }
      j := j + 1;
    }
    assert qs[..j] == qs;
  }

  /** `searchByKeywords`: the loop over the covered topics, then the sort by score. */
  method SearchByKeywords(kb: Knowledge, query: string, scope: Option<TopicId>, lower: CaseMap)
    returns (results: seq<MatchResult>)
    ensures results == KeywordMatches(kb, query, scope, lower)
  {
    var hits: seq<MatchResult> := [];
    var searchIds := if scope.Some? && scope.value != "" then [scope.value] else Ids(kb);
    var i := 0;
    while i < |searchIds|
      invariant 0 <= i <= |searchIds|
      invariant hits == Hits(Corpus(Resolve(kb, searchIds[..i])), query, lower)
    {
      var id := searchIds[i];
      var found := Lookup(kb, id);
      SearchStep(kb, searchIds, i, query, lower);
      if found.Some? && found.value.questions.Some? {
        var topicHits := TopicHits(id, found.value.questions.value, query, lower);
        hits := hits + topicHits;
      }
      i := i + 1;
    }
    assert searchIds[..i] == searchIds;
    results := SortByScore(hits);
  }

  lemma {:induction false} ResolveIds(kb: Knowledge, n: nat)
    requires n <= |kb|
    ensures Resolve(kb, Ids(kb)[..n]) == kb[..n]
  {
    if n > 0 {
      ResolveIds(kb, n - 1);
      assert Ids(kb)[..n][..n - 1] == Ids(kb)[..n - 1];
      LookupAt(kb, n - 1);
      assert kb[..n] == kb[..n - 1] + [kb[n - 1]];
    }
  }

  /** With no scope, or the empty topic id, the search covers every topic in key order. */
  lemma UnscopedCoversAll(kb: Knowledge, scope: Option<TopicId>)
    requires scope.None? || scope == Some("")
    ensures Scoped(kb, scope) == kb
  {
    assert SearchIds(kb, scope) == Ids(kb);
    ResolveIds(kb, |kb|);
    assert kb[..|kb|] == kb;
    assert Ids(kb)[..|kb|] == Ids(kb);
  }

  /** A non-empty topic id restricts the search to that topic, or to nothing if it is unknown. */
  lemma ScopedToOneTopic(kb: Knowledge, t: TopicId)
    requires t != ""
    ensures Scoped(kb, Some(t)) == match Lookup(kb, t) case Some(topic) => [(t, topic)] case None => []
  {
    assert SearchIds(kb, Some(t)) == [t];
    assert [t][..0] == [];
    assert Resolve(kb, [t]) == Resolve(kb, []) + match Lookup(kb, t) case Some(topic) => [(t, topic)] case None => [];
  }

  /** Every result comes from a question of a covered topic, classified by the two tests. */
  lemma MatchesAreClassified(kb: Knowledge, query: string, scope: Option<TopicId>, lower: CaseMap, r: MatchResult)
    requires r in KeywordMatches(kb, query, scope, lower)
    ensures exists e :: e in Corpus(Scoped(kb, scope)) && Classify(e, query, lower) == Some(r)
  {
    assert r in multiset(KeywordMatches(kb, query, scope, lower));
    HitsMembership(Corpus(Scoped(kb, scope)), query, lower, r);
  }

  /** Every question of a covered topic that passes one of the tests is in the results. */
  lemma ClassifiedAreMatched(kb: Knowledge, query: string, scope: Option<TopicId>, lower: CaseMap, e: CorpusEntry)
    requires e in Corpus(Scoped(kb, scope)) && Classify(e, query, lower).Some?
    ensures Classify(e, query, lower).value in KeywordMatches(kb, query, scope, lower)
  {
    HitsMembership(Corpus(Scoped(kb, scope)), query, lower, Classify(e, query, lower).value);
    assert Classify(e, query, lower).value in multiset(Hits(Corpus(Scoped(kb, scope)), query, lower));
  }

  /**
    * Every result is either exact, scoring 1.0, when its lowercased question
    * contains the lowercased query, or keyword, scoring 0.8, when it does not.
    */
  lemma MatchKinds(kb: Knowledge, query: string, scope: Option<TopicId>, lower: CaseMap, r: MatchResult)
    requires r in KeywordMatches(kb, query, scope, lower)
    ensures r.kind == Exact ==> r.score == ExactScore
    ensures r.kind == Keyword ==> r.score == KeywordScore
    ensures r.kind == Exact || r.kind == Keyword
    ensures r.kind == Exact <==> Includes(lower(r.question), lower(query))
  {
    MatchesAreClassified(kb, query, scope, lower, r);
  }

  /** A covered question gets an exact result exactly when its text contains the query. */
  lemma ExactRule(kb: Knowledge, query: string, scope: Option<TopicId>, lower: CaseMap, e: CorpusEntry)
    requires e in Corpus(Scoped(kb, scope))
    ensures Includes(lower(e.question), lower(query)) <==> ExactResult(e) in KeywordMatches(kb, query, scope, lower)
  {
    if Includes(lower(e.question), lower(query)) {
      ClassifiedAreMatched(kb, query, scope, lower, e);
    }
    if ExactResult(e) in KeywordMatches(kb, query, scope, lower) {
      MatchKinds(kb, query, scope, lower, ExactResult(e));
    }
  }

  /**
    * A covered question that is not an exact hit gets a keyword result when
    * one of its keywords overlaps the query; a keyword result never goes to
    * a question that is an exact hit, and it is backed by a covered question
    * with that text whose keywords overlap the query.
    */
  lemma KeywordRule(kb: Knowledge, query: string, scope: Option<TopicId>, lower: CaseMap, e: CorpusEntry)
    requires e in Corpus(Scoped(kb, scope))
    ensures !Includes(lower(e.question), lower(query)) && AnyKeywordOverlaps(e.keywords, lower(query), lower) ==>
      KeywordResult(e) in KeywordMatches(kb, query, scope, lower)
    ensures KeywordResult(e) in KeywordMatches(kb, query, scope, lower) ==>
      !Includes(lower(e.question), lower(query)) &&
      ExactResult(e) !in KeywordMatches(kb, query, scope, lower) &&
      exists e' :: e' in Corpus(Scoped(kb, scope)) && KeywordResult(e') == KeywordResult(e) &&
        AnyKeywordOverlaps(e'.keywords, lower(query), lower)
  {
    if !Includes(lower(e.question), lower(query)) && AnyKeywordOverlaps(e.keywords, lower(query), lower) {
      ClassifiedAreMatched(kb, query, scope, lower, e);
    }
    if KeywordResult(e) in KeywordMatches(kb, query, scope, lower) {
      MatchKinds(kb, query, scope, lower, KeywordResult(e));
      ExactRule(kb, query, scope, lower, e);
      MatchesAreClassified(kb, query, scope, lower, KeywordResult(e));
    }
  }

  /** A keyword that lowercases to the empty string matches every query. */
  lemma EmptyKeywordMatchesAll(kb: Knowledge, query: string, scope: Option<TopicId>, lower: CaseMap, e: CorpusEntry, k: nat)
    requires e in Corpus(Scoped(kb, scope))
    requires k < |e.keywords| && lower(e.keywords[k]) == ""
    ensures ExactResult(e) in KeywordMatches(kb, query, scope, lower) ||
            KeywordResult(e) in KeywordMatches(kb, query, scope, lower)
  {
    assert Includes(lower(query), lower(e.keywords[k]));
    assert KeywordOverlaps(e.keywords[k], lower(query), lower);
    ClassifiedAreMatched(kb, query, scope, lower, e);
  }

  /** With a topic scope every result belongs to that topic; an unknown topic gives no results. */
  lemma ScopeRestricts(kb: Knowledge, query: string, t: TopicId, lower: CaseMap)
    requires t != ""
    ensures forall r :: r in KeywordMatches(kb, query, Some(t), lower) ==> r.topic == t
    ensures Lookup(kb, t).None? ==> KeywordMatches(kb, query, Some(t), lower) == []
  {
    ScopedToOneTopic(kb, t);
    forall r | r in KeywordMatches(kb, query, Some(t), lower) ensures r.topic == t {
      MatchesAreClassified(kb, query, Some(t), lower, r);
      var e :| e in Corpus(Scoped(kb, Some(t))) && Classify(e, query, lower) == Some(r);
      CorpusMembership(Scoped(kb, Some(t)), e);
    }
    if Lookup(kb, t).None? {
      assert Corpus(Scoped(kb, Some(t))) == [];
      assert Hits([], query, lower) == [];
    }
  }

  /**
    * The results are ordered by non-increasing score, so every exact result
    * precedes every keyword result, and they are a permutation of the hits.
    */
  lemma MatchesOrdered(kb: Knowledge, query: string, scope: Option<TopicId>, lower: CaseMap)
    ensures NonIncreasing(KeywordMatches(kb, query, scope, lower))
    ensures multiset(KeywordMatches(kb, query, scope, lower)) == multiset(Hits(Corpus(Scoped(kb, scope)), query, lower))
    ensures forall i, j :: 0 <= i < j < |KeywordMatches(kb, query, scope, lower)| ==>
      !(KeywordMatches(kb, query, scope, lower)[i].kind == Keyword && KeywordMatches(kb, query, scope, lower)[j].kind == Exact)
  {
    var rs := KeywordMatches(kb, query, scope, lower);
    forall i, j | 0 <= i < j < |rs| ensures !(rs[i].kind == Keyword && rs[j].kind == Exact) {
      MatchKinds(kb, query, scope, lower, rs[i]);
      MatchKinds(kb, query, scope, lower, rs[j]);
    }
  }

  /** When the covered questions have distinct texts, no question gets two results. */
  lemma AtMostOneResultPerQuestion(kb: Knowledge, query: string, scope: Option<TopicId>, lower: CaseMap)
    requires DistinctTexts(Corpus(Scoped(kb, scope)))
    ensures DistinctQuestions(KeywordMatches(kb, query, scope, lower))
  {
    HitsDistinct(Corpus(Scoped(kb, scope)), query, lower);
    SortKeepsDistinct(Hits(Corpus(Scoped(kb, scope)), query, lower));
  }
}
