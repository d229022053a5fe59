/**
  * Worked cases on a one-topic knowledge base: the topic "bayes-theorem"
  * with the question "What is Bayes' theorem?" and the keywords "bayes" and
  * "probability". The case mapping is any one that lower-cases the stored
  * question to "what is bayes' theorem?" and leaves the keywords and the
  * (already lower-case) query unchanged, as `toLowerCase` does.
  */
module Scenarios {
  import opened Wrappers
  import opened Text
  import opened KnowledgeBase
  import opened Ranking
  import opened KeywordMatcher
  import opened Chat

  const BayesQuestion: QuestionRecord :=
    QuestionRecord("What is Bayes' theorem?", "P(A|B) = P(B|A) P(A) / P(B)", Some(["bayes", "probability"]))

  const BayesTopic: Topic := Topic(None, None, Some([BayesQuestion]))

  /** The stored question, lower-cased. */
  const BayesQuestionLower: string := "what is bayes' theorem?"

  /** The knowledge base holds the one topic "bayes-theorem". */
  predicate IsBayesKnowledge(kb: Knowledge) {
    |kb| == 1 && kb[0] == ("bayes-theorem", BayesTopic)
  }

  /** `lower` agrees with `toLowerCase` on the stored question, both keywords and `query`. */
  predicate LowerCases(lower: CaseMap, query: string) {
    lower(BayesQuestion.question) == BayesQuestionLower &&
    lower("bayes") == "bayes" && lower("probability") == "probability" && lower(query) == query
  }

  function NoFuzzyHits(query: string): seq<FuseHit> { [] }

  lemma BayesCorpus(kb: Knowledge)
    requires IsBayesKnowledge(kb)
    ensures Corpus(kb) == [Entry("bayes-theorem", BayesQuestion)]
  {
    assert kb[..0] == [];
    assert TopicEntries("bayes-theorem", [BayesQuestion]) == [Entry("bayes-theorem", BayesQuestion)];
  }

  /** The present value of an optional result, as a list of at most one. */
  function AsList(o: Option<MatchResult>): seq<MatchResult> {
    match o case Some(x) => [x] case None => []
  }

  lemma SingleEntryHits(e: CorpusEntry, query: string, lower: CaseMap)
    ensures Hits([e], query, lower) == AsList(Classify(e, query, lower))
  {
    var os := Classified([e], query, lower);
    assert os == [Classify(e, query, lower)];
    assert os[..0] == [];
  }

  lemma SortShort(rs: seq<MatchResult>)
    requires |rs| <= 1
    ensures SortByScore(rs) == rs
  {
    if rs != [] {
      assert rs[1..] == [];
    }
  }

  /** On a knowledge base of one question, the keyword search returns that question's classification. */
  lemma SingleQuestionSearch(kb: Knowledge, query: string, lower: CaseMap)
    requires IsBayesKnowledge(kb)
    ensures KeywordMatches(kb, query, None, lower) ==
      AsList(Classify(Entry("bayes-theorem", BayesQuestion), query, lower))
  {
    var e := Entry("bayes-theorem", BayesQuestion);
    UnscopedCoversAll(kb, None);
    BayesCorpus(kb);
    SingleEntryHits(e, query, lower);
    SortShort(AsList(Classify(e, query, lower)));
  }

  lemma NotBlank(message: string)
    requires |message| > 0 && !IsJsWhitespace(message[0])
    ensures !IsBlank(Some(message))
  {
    TrimEmptyIff(message);
  }

  lemma RankSingle(x: MatchResult)
    ensures Rank([x]) == [x]
  {
    assert [x][..0] == [];
    assert FirstOccurrences([x]) == [x];
    assert [x][1..] == [];
    assert SortByScore([x]) == Insert(x, []);
  }

  /** A non-blank message whose only candidate clears the threshold is answered by it. */
  lemma SingleCandidateAnswers(kb: Knowledge, message: string, lower: CaseMap, x: MatchResult, u: real)
    requires 0.0 <= u < 1.0
    requires !IsBlank(Some(message))
    requires Candidates(kb, message, None, lower, NoFuzzyHits) == [x] && x.score > AcceptThreshold
    ensures Reply(kb, Some(message), None, lower, NoFuzzyHits, u) == Answer(x.answer, x.topic, x.score)
  {
    RankSingle(x);
  }

  /** A non-blank query that the one question answers by a result above 0.3 is answered by that result. */
  lemma SingleHitAnswers(kb: Knowledge, query: string, lower: CaseMap, x: MatchResult, u: real)
    requires IsBayesKnowledge(kb) && 0.0 <= u < 1.0 && !IsBlank(Some(query))
    requires Classify(Entry("bayes-theorem", BayesQuestion), query, lower) == Some(x) && x.score > AcceptThreshold
    ensures Reply(kb, Some(query), None, lower, NoFuzzyHits, u) == Answer(x.answer, x.topic, x.score)
  {
    SingleQuestionSearch(kb, query, lower);
    SingleCandidateAnswers(kb, query, lower, x, u);
  }

  lemma PrefixIsExactHit(query: string, lower: CaseMap)
    requires query == "what is" && LowerCases(lower, query)
    ensures Classify(Entry("bayes-theorem", BayesQuestion), query, lower) ==
      Some(ExactResult(Entry("bayes-theorem", BayesQuestion)))
  {
    assert BayesQuestionLower[0..|query|] == query;
    OccursIncludes(BayesQuestionLower, query, 0);
  }

  /**
    * "what is" occurs in the lower-cased question "what is bayes' theorem?":
    * an exact hit, answered with confidence 1.0.
    */
  lemma QuestionPrefixAnswers(kb: Knowledge, query: string, lower: CaseMap, u: real)
    requires IsBayesKnowledge(kb) && query == "what is" && LowerCases(lower, query)
    requires 0.0 <= u < 1.0
    ensures Reply(kb, Some(query), None, lower, NoFuzzyHits, u) ==
      Answer(BayesQuestion.answer, "bayes-theorem", 1.0)
  {
    PrefixIsExactHit(query, lower);
    NotBlank(query);
    SingleHitAnswers(kb, query, lower, ExactResult(Entry("bayes-theorem", BayesQuestion)), u);
  }

  lemma FormulaMissesQuestion(query: string)
    requires query == "bayes theorem formula"
    ensures !Includes(BayesQuestionLower, query)
  {
    assert query[14] == 'f' && 'f' !in BayesQuestionLower;
    AbsentCharacter(BayesQuestionLower, query, 14);
  }

  lemma FormulaHasKeyword(keywords: seq<string>, query: string, lower: CaseMap)
    requires keywords == ["bayes", "probability"] && query == "bayes theorem formula"
    requires LowerCases(lower, query)
    ensures AnyKeywordOverlaps(keywords, query, lower)
  {
    assert "bayes" <= query;
    assert KeywordOverlaps(keywords[0], query, lower);
  }

  lemma FormulaIsKeywordHit(query: string, lower: CaseMap)
    requires query == "bayes theorem formula" && LowerCases(lower, query)
    ensures Classify(Entry("bayes-theorem", BayesQuestion), query, lower) ==
      Some(KeywordResult(Entry("bayes-theorem", BayesQuestion)))
  {
    FormulaMissesQuestion(query);
    FormulaHasKeyword(Entry("bayes-theorem", BayesQuestion).keywords, query, lower);
  }

  /**
    * "bayes theorem formula" is not inside the lower-cased question (it has an
    * 'f'), but contains the keyword "bayes": a keyword hit, scoring 0.8, which
    * is above 0.3 and is therefore given as the answer with confidence 0.8.
    */
  lemma KeywordOverlapAnswers(kb: Knowledge, query: string, lower: CaseMap, u: real)
    requires IsBayesKnowledge(kb) && query == "bayes theorem formula" && LowerCases(lower, query)
    requires 0.0 <= u < 1.0
    ensures Reply(kb, Some(query), None, lower, NoFuzzyHits, u) ==
      Answer(BayesQuestion.answer, "bayes-theorem", 0.8)
  {
    FormulaIsKeywordHit(query, lower);
    NotBlank(query);
    SingleHitAnswers(kb, query, lower, KeywordResult(Entry("bayes-theorem", BayesQuestion)), u);
  }

  /**
    * A query starting with a character absent from the lower-cased question
    * and from both keywords, and containing neither 'b' nor 'p', passes
    * neither test.
    */
  predicate Unrelated(query: string) {
    |query| > 0 && query[0] !in BayesQuestionLower && query[0] !in "bayes" && query[0] !in "probability" &&
    'b' !in query && 'p' !in query
  }

  lemma UnrelatedMissesKeywords(keywords: seq<string>, query: string, lower: CaseMap)
    requires keywords == ["bayes", "probability"] && Unrelated(query) && LowerCases(lower, query)
    ensures !AnyKeywordOverlaps(keywords, query, lower)
  {
    AbsentCharacter("bayes", query, 0);
    AbsentCharacter(query, "bayes", 0);
    AbsentCharacter("probability", query, 0);
    AbsentCharacter(query, "probability", 0);
    forall k | 0 <= k < |keywords| ensures !KeywordOverlaps(keywords[k], query, lower) {
      assert k == 0 || k == 1;
    }
  }

  lemma UnrelatedIsNoHit(query: string, lower: CaseMap)
    requires Unrelated(query) && LowerCases(lower, query)
    ensures Classify(Entry("bayes-theorem", BayesQuestion), query, lower) == None
  {
    AbsentCharacter(BayesQuestionLower, query, 0);
    UnrelatedMissesKeywords(Entry("bayes-theorem", BayesQuestion).keywords, query, lower);
  }

  lemma UnrelatedFindsNothing(kb: Knowledge, query: string, lower: CaseMap)
    requires IsBayesKnowledge(kb) && Unrelated(query) && LowerCases(lower, query)
    ensures KeywordMatches(kb, query, None, lower) == []
  {
    UnrelatedIsNoHit(query, lower);
    SingleQuestionSearch(kb, query, lower);
  }

  lemma OneTopicSuggestion(kb: Knowledge)
    requires IsBayesKnowledge(kb)
    ensures Suggestions(kb) == [Suggestion("bayes-theorem", "bayes-theorem")]
  {
    assert |Suggestions(kb)| == 1;
    assert ListTopics(kb)[0].title == "bayes-theorem";
  }

  /** With no keyword hit and an empty fuzzy index, a non-blank message falls back. */
  lemma NoHitFallsBack(kb: Knowledge, message: string, lower: CaseMap, u: real)
    requires 0.0 <= u < 1.0
    requires !IsBlank(Some(message)) && KeywordMatches(kb, message, None, lower) == []
    ensures Reply(kb, Some(message), None, lower, NoFuzzyHits, u) ==
      Fallback(GetRandomResponse(FallbackTemplates, u), Suggestions(kb))
  {
    WeakFuzzyHitsFallBack(kb, message, None, lower, NoFuzzyHits, u);
  }

  /**
    * An unrelated query, such as "xyzzy nonsense", passes neither test and
    * the fuzzy index returns nothing: a fallback with a drawn apology whose
    * single suggestion is the one topic, titled by its id.
    */
  lemma UnrelatedQueryFallsBack(kb: Knowledge, query: string, lower: CaseMap, u: real)
    requires IsBayesKnowledge(kb) && Unrelated(query) && !IsJsWhitespace(query[0]) && LowerCases(lower, query)
    requires 0.0 <= u < 1.0
    ensures Reply(kb, Some(query), None, lower, NoFuzzyHits, u) ==
      Fallback(GetRandomResponse(FallbackTemplates, u), [Suggestion("bayes-theorem", "bayes-theorem")])
  {
    UnrelatedFindsNothing(kb, query, lower);
    NotBlank(query);
    NoHitFallsBack(kb, query, lower, u);
    OneTopicSuggestion(kb);
  }

  /**
    * The search is given the message as sent, not trimmed: a message that
    * repeats a stored question with one trailing whitespace character is not
    * an exact hit for it, although its trimmed form is.
    */
  lemma {:induction false} TrailingWhitespaceMissesExact(e: CorpusEntry, c: char, lower: CaseMap)
    requires |e.question| > 0 && !IsJsWhitespace(e.question[0]) && !IsJsWhitespace(e.question[|e.question| - 1])
    requires IsJsWhitespace(c)
    requires lower(e.question) == e.question && lower(e.question + [c]) == e.question + [c]
    ensures Classify(e, e.question + [c], lower) != Some(ExactResult(e))
    ensures Trim(e.question + [c]) == e.question
    ensures Classify(e, Trim(e.question + [c]), lower) == Some(ExactResult(e))
  {
    var text := e.question;
    LongerNeedle(text, text + [c]);
    var s := text + [c];
    assert !IsJsWhitespace(s[0]);
    assert TrimStart(s) == s;
    assert !IsJsWhitespace(s[|text| - 1]);
    var r := TrimEnd(s);
    assert |r| == |text|;
    assert r == s[..|text|] == text;
    assert text[0..|text|] == text;
    OccursIncludes(text, text, 0);
  }
}
