/**
  * The `/api/chat` handler: reject a blank message, search by keywords,
  * fall back to the fuzzy index only when that finds nothing, drop repeated
  * questions, sort, and answer when the best score clears 0.3; otherwise
  * apologise and suggest the first topics.
  */
module Chat {
  import opened Wrappers
  import opened Text
  import opened KnowledgeBase
  import opened Ranking
  import opened KeywordMatcher

  /** A reply is given only for a best score strictly above this. */
  const AcceptThreshold: real := 0.3
  /** How many fuzzy hits are kept (`slice(0, 3)`). */
  const FuzzyLimit: nat := 3
  /** How many topics a fallback suggests (`slice(0, 5)`). */
  const SuggestionLimit: nat := 5

  const BlankMessagePrompt: string := "Пожалуйста, задайте вопрос или выберите тему для изучения."

  const FallbackTemplates: seq<string> := [
    "К сожалению, я не смог найти точный ответ на ваш вопрос. Попробуйте переформулировать вопрос или выберите одну из тем для изучения.",
    "Ваш вопрос не совсем понятен. Можете ли вы уточнить или выбрать тему из списка?",
    "Я не нашел подходящей информации по вашему запросу. Давайте изучим одну из доступных тем.",
    "Попробуйте использовать другие ключевые слова или выберите конкретную тему для изучения."
  ]

  /** One hit of the fuzzy index: a corpus entry and its distance (0 is identical). */
  datatype FuseHit = FuseHit(item: CorpusEntry, distance: real)

  /** `fuse.search`: the prebuilt fuzzy index, as a function of the query. */
  type FuseIndex = string -> seq<FuseHit>

  datatype Suggestion = Suggestion(id: TopicId, title: string)

  /** The reply; a fallback's `answer` field (an apology, or `null`) is `apology` here. */
  datatype ChatResponse =
    | Error(answer: string)
    | Answer(answer: string, topic: TopicId, confidence: real)
    | Fallback(apology: Option<string>, suggestions: seq<Suggestion>)

  function Min(a: nat, b: nat): nat {
    if a <= b then a else b
  }

  /** `fuzzySearch`: each hit becomes a fuzzy result scoring one minus its distance. */
  function FuzzySearch(hits: seq<FuseHit>): (rs: seq<MatchResult>)
    ensures |rs| == |hits|
    ensures forall i :: 0 <= i < |hits| ==>
      rs[i].kind == Fuzzy && rs[i].score + hits[i].distance == 1.0 &&
      rs[i].question == hits[i].item.question && rs[i].answer == hits[i].item.answer &&
      rs[i].topic == hits[i].item.topic
    ensures forall i :: 0 <= i < |hits| && 0.0 <= hits[i].distance <= 1.0 ==> 0.0 <= rs[i].score <= 1.0
  {
    seq(|hits|, i requires 0 <= i < |hits| =>
      MatchResult(hits[i].item.question, hits[i].item.answer, hits[i].item.topic, 1.0 - hits[i].distance, Fuzzy))
  }

  lemma PositiveProduct(a: real, b: real)
    requires a > 0.0 && b > 0.0
    ensures a * b > 0.0
  {
  }

  /** `Math.floor(Math.random() * n)` for a draw `u` of `Math.random()`. */
  function RandomIndex(u: real, n: nat): (k: nat)
    requires 0.0 <= u < 1.0 && n > 0
    ensures k < n
  {
    var x := u * n as real;
    assert x < n as real by {
      PositiveProduct(1.0 - u, n as real);
      assert n as real - x == (1.0 - u) * n as real;
    }
    x.Floor
  }

  /** `getRandomResponse`: no response from an empty list, otherwise one of its members. */
  function GetRandomResponse(responses: seq<string>, u: real): (r: Option<string>)
    requires 0.0 <= u < 1.0
    ensures r.None? <==> responses == []
    ensures r.Some? ==> r.value in responses
  {
    if |responses| == 0 then None else Some(responses[RandomIndex(u, |responses|)])
  }

  /** The fallback suggestions: the first topics of the listing, without their descriptions. */
  function Suggestions(kb: Knowledge): (r: seq<Suggestion>)
    ensures |r| == Min(SuggestionLimit, |kb|)
    ensures forall i :: 0 <= i < |r| ==>
      r[i].id == ListTopics(kb)[i].id && r[i].title == ListTopics(kb)[i].title
  {
    var n := Min(SuggestionLimit, |kb|);
    seq(n, i requires 0 <= i < n => Suggestion(kb[i].0, TitleOr(kb[i].1, kb[i].0)))
  }

  /** `!message || message.trim() === ''` */
  predicate IsBlank(message: Option<string>) {
    message.None? || Trim(message.value) == ""
  }

  function Take(rs: seq<MatchResult>, n: nat): seq<MatchResult> {
    if |rs| <= n then rs else rs[..n]
  }

  /** The results before filtering: keyword hits, or else the first fuzzy hits. */
  function Candidates(kb: Knowledge, message: string, scope: Option<TopicId>, lower: CaseMap, fuse: FuseIndex): seq<MatchResult> {
    var keyword := KeywordMatches(kb, message, scope, lower);
    if keyword == [] then Take(FuzzySearch(fuse(message)), FuzzyLimit) else keyword
  }

  /** The answer-or-fallback decision on the ranked results. */
  function Decide(kb: Knowledge, ranked: seq<MatchResult>, u: real): ChatResponse
    requires 0.0 <= u < 1.0
  {
    if |ranked| > 0 && ranked[0].score > AcceptThreshold then
      Answer(ranked[0].answer, ranked[0].topic, ranked[0].score)
    else
      Fallback(GetRandomResponse(FallbackTemplates, u), Suggestions(kb))
  }

  /** The reply of `/api/chat` to `{message, topic}`, for a draw `u` of `Math.random()`. */
  function Reply(kb: Knowledge, message: Option<string>, scope: Option<TopicId>, lower: CaseMap, fuse: FuseIndex, u: real): ChatResponse
    requires 0.0 <= u < 1.0
  {
    if IsBlank(message) then Error(BlankMessagePrompt)
    else Decide(kb, Rank(Candidates(kb, message.value, scope, lower, fuse)), u)
  }

  /** The search step of the handler: keyword results, topped up from the fuzzy index only when empty. */
  method GatherCandidates(kb: Knowledge, text: string, scope: Option<TopicId>, lower: CaseMap, fuse: FuseIndex)
    returns (results: seq<MatchResult>)
    ensures results == Candidates(kb, text, scope, lower, fuse)
  {
    results := [];
    var keywordResults := SearchByKeywords(kb, text, scope, lower);
    results := results + keywordResults;
    if |results| == 0 {
      var fuzzyResults := FuzzySearch(fuse(text));
      results := results + Take(fuzzyResults, FuzzyLimit);
    }
  }

  /** The handler body, step by step as the server runs it. */
  method HandleChat(kb: Knowledge, message: Option<string>, scope: Option<TopicId>, lower: CaseMap, fuse: FuseIndex, u: real)
    returns (response: ChatResponse)
    requires 0.0 <= u < 1.0
    ensures response == Reply(kb, message, scope, lower, fuse, u)
  {
    if IsBlank(message) {
      return Error(BlankMessagePrompt);
    }
    var results := GatherCandidates(kb, message.value, scope, lower, fuse);
    results := SortByScore(FirstOccurrences(results));
    if |results| > 0 && results[0].score > AcceptThreshold {
      var best := results[0];
      response := Answer(best.answer, best.topic, best.score);
    } else {
      response := Fallback(GetRandomResponse(FallbackTemplates, u), Suggestions(kb));
    }
  }

  /**
    * The reply is an error exactly when the message is all whitespace, and
    * the error carries the fixed prompt whatever the knowledge base, scope or
    * index.
    */
  lemma BlankMessageIsError(kb: Knowledge, message: string, scope: Option<TopicId>, lower: CaseMap, fuse: FuseIndex, u: real)
    requires 0.0 <= u < 1.0
    ensures Reply(kb, Some(message), scope, lower, fuse, u).Error? <==>
      forall i :: 0 <= i < |message| ==> IsJsWhitespace(message[i])
    ensures Reply(kb, Some(message), scope, lower, fuse, u).Error? ==>
      Reply(kb, Some(message), scope, lower, fuse, u) == Error(BlankMessagePrompt)
    ensures Reply(kb, None, scope, lower, fuse, u) == Error(BlankMessagePrompt)
  {
    TrimEmptyIff(message);
    if !IsBlank(Some(message)) {
      var ranked := Rank(Candidates(kb, message, scope, lower, fuse));
      assert Reply(kb, Some(message), scope, lower, fuse, u) == Decide(kb, ranked, u);
      DecideNeverErrors(kb, ranked, u);
    }
  }

  /** The decision answers or falls back; it never reports an error. */
  lemma DecideNeverErrors(kb: Knowledge, ranked: seq<MatchResult>, u: real)
    requires 0.0 <= u < 1.0
    ensures !Decide(kb, ranked, u).Error?
  {
  }

  /**
    * Fuzzy results appear only when the keyword search found nothing; then at
    * most three are taken, in the index's order, each scoring one minus its
    * distance.
    */
  lemma FuzzyOnlyAsFallback(kb: Knowledge, message: string, scope: Option<TopicId>, lower: CaseMap, fuse: FuseIndex)
    ensures KeywordMatches(kb, message, scope, lower) != [] ==>
      Candidates(kb, message, scope, lower, fuse) == KeywordMatches(kb, message, scope, lower) &&
      forall c :: c in Candidates(kb, message, scope, lower, fuse) ==> c.kind != Fuzzy
    ensures KeywordMatches(kb, message, scope, lower) == [] ==>
      var cs := Candidates(kb, message, scope, lower, fuse);
      |cs| == Min(FuzzyLimit, |fuse(message)|) &&
      forall i :: 0 <= i < |cs| ==> cs[i].kind == Fuzzy && cs[i].score == 1.0 - fuse(message)[i].distance
  {
    if KeywordMatches(kb, message, scope, lower) != [] {
      forall c | c in Candidates(kb, message, scope, lower, fuse) ensures c.kind != Fuzzy {
        MatchKinds(kb, message, scope, lower, c);
      }
    }
  }

  /** Once the keyword search has found something, the fuzzy index has no say in the reply. */
  lemma FuzzyIgnoredAfterKeywordHit(kb: Knowledge, message: string, scope: Option<TopicId>, lower: CaseMap,
                                    fuse1: FuseIndex, fuse2: FuseIndex, u: real)
    requires 0.0 <= u < 1.0
    requires KeywordMatches(kb, message, scope, lower) != []
    ensures Reply(kb, Some(message), scope, lower, fuse1, u) == Reply(kb, Some(message), scope, lower, fuse2, u)
  {
    assert Candidates(kb, message, scope, lower, fuse1) == Candidates(kb, message, scope, lower, fuse2);
  }

  /**
    * The decision on a non-blank message: an answer exactly when the best
    * ranked score is above 0.3, carrying that result's answer and topic and,
    * as confidence, the highest score of the ranked list; otherwise a
    * fallback with one of the fixed templates and the first min(5, #topics)
    * topics, in order, each titled by its title or else its id.
    */
  lemma DecisionRule(kb: Knowledge, message: string, scope: Option<TopicId>, lower: CaseMap, fuse: FuseIndex, u: real)
    requires 0.0 <= u < 1.0
    requires !IsBlank(Some(message))
    ensures var ranked := Rank(Candidates(kb, message, scope, lower, fuse));
      var response := Reply(kb, Some(message), scope, lower, fuse, u);
      && (response.Answer? <==> |ranked| > 0 && ranked[0].score > AcceptThreshold)
      && (response.Answer? ==>
            response.answer == ranked[0].answer && response.topic == ranked[0].topic &&
            response.confidence == ranked[0].score && response.confidence > AcceptThreshold &&
            forall x :: x in ranked ==> x.score <= response.confidence)
      && (response.Fallback? ==>
            response.apology.Some? && response.apology.value in FallbackTemplates &&
            |response.suggestions| == Min(SuggestionLimit, |kb|) &&
            forall i :: 0 <= i < |response.suggestions| ==>
              response.suggestions[i] == Suggestion(kb[i].0, TitleOr(kb[i].1, kb[i].0)))
      && !response.Error?
  {
    var ranked := Rank(Candidates(kb, message, scope, lower, fuse));
    assert NonIncreasing(ranked);
    DecideRule(kb, ranked, u);
  }

  /** `Decide` on any list ordered by score: the decision rule above, stated for that list. */
  lemma DecideRule(kb: Knowledge, ranked: seq<MatchResult>, u: real)
    requires 0.0 <= u < 1.0
    requires NonIncreasing(ranked)
    ensures var response := Decide(kb, ranked, u);
      && (response.Answer? <==> |ranked| > 0 && ranked[0].score > AcceptThreshold)
      && (response.Answer? ==>
            response.answer == ranked[0].answer && response.topic == ranked[0].topic &&
            response.confidence == ranked[0].score && response.confidence > AcceptThreshold &&
            forall x :: x in ranked ==> x.score <= response.confidence)
      && (response.Fallback? ==>
            response.apology.Some? && response.apology.value in FallbackTemplates &&
            |response.suggestions| == Min(SuggestionLimit, |kb|) &&
            forall i :: 0 <= i < |response.suggestions| ==>
              response.suggestions[i] == Suggestion(kb[i].0, TitleOr(kb[i].1, kb[i].0)))
      && !response.Error?
  {
    forall x | x in ranked ensures x.score <= ranked[0].score {
      var k :| 0 <= k < |ranked| && ranked[k] == x;
    }
  }

  /**
    * When the keyword search finds nothing and every fuzzy hit lies at
    * distance 0.7 or more, no candidate scores above 0.3 and the reply is
    * the fallback.
    */
  lemma WeakFuzzyHitsFallBack(kb: Knowledge, message: string, scope: Option<TopicId>, lower: CaseMap, fuse: FuseIndex, u: real)
    requires 0.0 <= u < 1.0
    requires !IsBlank(Some(message))
    requires KeywordMatches(kb, message, scope, lower) == []
    requires forall h :: h in fuse(message) ==> h.distance >= 1.0 - AcceptThreshold
    ensures Reply(kb, Some(message), scope, lower, fuse, u) ==
      Fallback(GetRandomResponse(FallbackTemplates, u), Suggestions(kb))
  {
    var cs := Candidates(kb, message, scope, lower, fuse);
    WeakFuzzyScores(fuse(message));
    RankedScoresBounded(cs, AcceptThreshold);
  }

  /** Hits at distance 0.7 or more give fuzzy results scoring at most 0.3. */
  lemma WeakFuzzyScores(hits: seq<FuseHit>)
    requires forall h :: h in hits ==> h.distance >= 1.0 - AcceptThreshold
    ensures forall c :: c in Take(FuzzySearch(hits), FuzzyLimit) ==> c.score <= AcceptThreshold
  {
    var kept := Take(FuzzySearch(hits), FuzzyLimit);
    forall c | c in kept ensures c.score <= AcceptThreshold {
      var i :| 0 <= i < |kept| && kept[i] == c;
      assert hits[i] in hits;
    }
  }

  /** Ranking never raises the best score above that of every candidate. */
  lemma RankedScoresBounded(cs: seq<MatchResult>, bound: real)
    requires forall c :: c in cs ==> c.score <= bound
    ensures Rank(cs) == [] || Rank(cs)[0].score <= bound
  {
    if Rank(cs) != [] {
      RankComesFromFirstOccurrences(cs);
      assert Rank(cs)[0] in Rank(cs);
    }
  }

  /**
    * A keyword hit always produces an answer; its confidence is 1.0 exactly
    * when some question contains the query, and 0.8 otherwise; and with a
    * topic scope the answer comes from that topic.
    */
  lemma KeywordHitAnswers(kb: Knowledge, message: string, scope: Option<TopicId>, lower: CaseMap, fuse: FuseIndex, u: real)
    requires 0.0 <= u < 1.0
    requires !IsBlank(Some(message))
    requires KeywordMatches(kb, message, scope, lower) != []
    ensures var response := Reply(kb, Some(message), scope, lower, fuse, u);
      && response.Answer?
      && (response.confidence == ExactScore <==>
            exists r :: r in KeywordMatches(kb, message, scope, lower) && r.kind == Exact)
      && (response.confidence == ExactScore || response.confidence == KeywordScore)
      && (scope.Some? && scope.value != "" ==> response.topic == scope.value)
  {
    var keyword := KeywordMatches(kb, message, scope, lower);
    var ranked := Rank(keyword);
    assert Candidates(kb, message, scope, lower, fuse) == keyword;
    RankTop(keyword);
    MatchKinds(kb, message, scope, lower, ranked[0]);
    if exists r :: r in keyword && r.kind == Exact {
      ExactHitRanksFirst(kb, message, scope, lower);
    }
    if scope.Some? && scope.value != "" {
      ScopeRestricts(kb, message, scope.value, lower);
    }
  }

  /** If some keyword result is exact, the ranked list opens with the exact score. */
  lemma ExactHitRanksFirst(kb: Knowledge, message: string, scope: Option<TopicId>, lower: CaseMap)
    requires exists r :: r in KeywordMatches(kb, message, scope, lower) && r.kind == Exact
    ensures Rank(KeywordMatches(kb, message, scope, lower)) != []
    ensures Rank(KeywordMatches(kb, message, scope, lower))[0].score == ExactScore
  {
    var keyword := KeywordMatches(kb, message, scope, lower);
    var x :| x in keyword && x.kind == Exact;
    MatchKinds(kb, message, scope, lower, x);
    forall c | c in keyword ensures c.score <= x.score && (c.question == x.question ==> c.score == x.score) {
      MatchKinds(kb, message, scope, lower, c);
    }
    RankKeepsBestScore(keyword, x);
  }

  /** The questions of the topics a search covers are questions of the knowledge base. */
  lemma ScopedCorpusWithin(kb: Knowledge, scope: Option<TopicId>, e: CorpusEntry)
    requires e in Corpus(Scoped(kb, scope))
    ensures e in Corpus(kb)
  {
    if scope.None? || scope == Some("") {
      UnscopedCoversAll(kb, scope);
    } else {
      var t := scope.value;
      ScopedToOneTopic(kb, t);
      var topic := Lookup(kb, t).value;
      CorpusMembership([(t, topic)], e);
      var i, j :| 0 <= i < 1 && 0 <= j < |QuestionsOf([(t, topic)][i].1)| &&
        e == Entry([(t, topic)][i].0, QuestionsOf([(t, topic)][i].1)[j]);
      var m :| 0 <= m < |kb| && kb[m] == (t, topic);
      CorpusMembership(kb, e);
      assert e == Entry(kb[m].0, QuestionsOf(kb[m].1)[j]);
    }
  }

  /**
    * When the fuzzy index only returns corpus entries, every answer is the
    * answer of a stored question of the knowledge base, under its own topic.
    */
  lemma AnswerFromCorpus(kb: Knowledge, message: string, scope: Option<TopicId>, lower: CaseMap, fuse: FuseIndex, u: real)
    requires 0.0 <= u < 1.0
    requires forall h :: h in fuse(message) ==> h.item in Corpus(kb)
    ensures var response := Reply(kb, Some(message), scope, lower, fuse, u);
      response.Answer? ==>
        exists e :: e in Corpus(kb) && e.answer == response.answer && e.topic == response.topic
  {
    var response := Reply(kb, Some(message), scope, lower, fuse, u);
    if response.Answer? {
      var cs := Candidates(kb, message, scope, lower, fuse);
      RankTop(cs);
      var best := Rank(cs)[0];
      if KeywordMatches(kb, message, scope, lower) != [] {
        KeywordMatchFromCorpus(kb, message, scope, lower, best);
      } else {
        FuzzyCandidateFromIndex(fuse(message), best);
      }
    }
  }

  /** A keyword result carries the answer and topic of a stored question. */
  lemma KeywordMatchFromCorpus(kb: Knowledge, message: string, scope: Option<TopicId>, lower: CaseMap, r: MatchResult)
    requires r in KeywordMatches(kb, message, scope, lower)
    ensures exists e :: e in Corpus(kb) && e.answer == r.answer && e.topic == r.topic
  {
    MatchesAreClassified(kb, message, scope, lower, r);
    var e :| e in Corpus(Scoped(kb, scope)) && Classify(e, message, lower) == Some(r);
    ScopedCorpusWithin(kb, scope, e);
  }

  /** A kept fuzzy candidate carries the answer and topic of one of the index's hits. */
  lemma FuzzyCandidateFromIndex(hits: seq<FuseHit>, c: MatchResult)
    requires c in Take(FuzzySearch(hits), FuzzyLimit)
    ensures exists h :: h in hits && h.item.answer == c.answer && h.item.topic == c.topic
  {
    var kept := Take(FuzzySearch(hits), FuzzyLimit);
    var i :| 0 <= i < |kept| && kept[i] == c;
    assert hits[i] in hits;
  }
}
