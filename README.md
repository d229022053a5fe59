# Study-bot chat engine

A model of the question-answering engine behind the study bot's `/api/chat`
endpoint. The bot holds a knowledge base of topics; each topic has a title, a
description and a list of questions with answers and keywords. The model
covers these parts:

- **Corpus.** At start-up the topics are flattened into one corpus of
  question records.
- **Keyword search.** A chat message is first matched against the questions
  of one topic, or of all topics. A question whose lowercased text contains
  the lowercased message is an *exact* hit, scoring 1.0. Otherwise, one of
  its keywords contains the message, or is contained in it: a *keyword* hit,
  scoring 0.8.
- **Fuzzy fallback.** Only when the keyword search finds nothing is the fuzzy
  index consulted. Its first three hits are kept, each scoring one minus its
  distance.
- **Ranking.** Repeated question texts are dropped, keeping the first
  occurrence. What remains is sorted stably by descending score.
- **Decision.** If the best score is above 0.3, the reply answers with that
  question's answer, topic and score. Otherwise the reply is a fallback: one
  of four apologies, drawn at random, plus the first five topics as
  suggestions.
- **Blank messages.** A blank message is rejected up front with a fixed
  prompt.
- **Topic listing.** The topic listing and the topic lookup are modelled too.

Modules:

- `Wrappers` (`text.dfy`): the `Option` datatype for values that may be
  missing, and `GetOr` for a default.
- `Text` (`text.dfy`): `String.prototype.includes` and `trim`, with
  ECMAScript's whitespace set.
- `KnowledgeBase` (`knowledge_base.dfy`): topics in `Object.keys` order,
  lookup, the corpus flattening (as a loop proved against `Corpus`) and the
  topic listing.
- `Ranking` (`ranking.dfy`): results, the stable sort, and the
  first-occurrence filter.
- `KeywordMatcher` (`keyword_matcher.dfy`): `searchByKeywords`, as nested
  loops proved against `KeywordMatches`.
- `Chat` (`chat.dfy`): `fuzzySearch`, `getRandomResponse`, the handler
  (`HandleChat`, proved equal to the function `Reply`) and the properties of
  its replies.
- `Scenarios` (`scenarios.dfy`): worked cases on a knowledge base with the
  single topic "bayes-theorem".

Inputs from outside the engine are parameters:

- `lower`: the case mapping used by `toLowerCase`.
- `fuse`: the fuzzy index's answer for a query, a list of hits with
  distances.
- `u`: the draw of `Math.random()`, with 0 <= u < 1.

Scores are exact reals.

Details of `server.js` that the model keeps:

- **Sorted keyword output.** The keyword search returns its hits sorted by
  score (line 113).
- **Fuzzy hits in the index's order.** The fuzzy step keeps the first three
  hits in the order the index returns them (`slice(0, 3)`, line 174).
- **Untrimmed message.** The search receives the message as sent. Only the
  blank check trims it (lines 156 and 168). A trailing space can therefore
  turn an exact hit into a keyword hit or a miss
  (`Scenarios.TrailingWhitespaceMissesExact`).
- **Empty topic id.** An empty topic id is falsy in JavaScript, so it
  searches every topic, like no topic at all (line 77).
- **Empty title.** An empty title is falsy too, so the listing and the
  suggestions fall back to the id (lines 138 and 209).
- **Ties.** Repeated question texts are dropped by `findIndex`, keeping the
  first, and `Array.prototype.sort` is stable, so among equal scores the
  earliest candidate comes first and is the one answered (lines 178-188).

## Model

| member | source | states |
|---|---|---|
| Text.Includes | server.js:87-99 | `String.prototype.includes`, as used by the exact test (line 87) and the keyword test (lines 98-99): defined by recursion on the haystack; characterised by `IncludesIff` |
| Text.IncludesIff | server.js:87 | `includes` holds exactly when the needle occurs at some position of the haystack |
| Text.TrimStart | server.js:156 | the result is a suffix, everything dropped is whitespace, and the result starts with non-whitespace |
| Text.TrimEnd | server.js:156 | the result is a prefix, everything dropped is whitespace, and the result ends with non-whitespace |
| Text.TrimEmptyIff | server.js:156 | a string trims to "" exactly when every character is whitespace |
| Text.Trim | server.js:156 | `trim()`: `TrimEnd` after `TrimStart`; characterised by those two and `TrimEmptyIff` |
| KnowledgeBase.Ids | server.js:55 | the keys, one per topic, in stored order |
| KnowledgeBase.Lookup | server.js:144-151 | no topic exactly when no key equals the id; a found topic is stored under that id |
| KnowledgeBase.LookupAt | server.js:80 | with distinct keys, looking up the key at position i gives the topic at position i |
| KnowledgeBase.Corpus | server.js:54-66 | the flattened corpus, defined topic by topic; characterised by `CorpusMembership` and `CorpusAppend`, and computed by `BuildCorpus` |
| KnowledgeBase.CorpusAppend | server.js:55-66 | flattening two runs of topics gives the first run's corpus followed by the second's |
| KnowledgeBase.CorpusMembership | server.js:54-66 | an entry is in the corpus exactly when it is some topic's question, tagged with that topic, with missing keywords as [] |
| KnowledgeBase.BuildCorpus | server.js:54-66 | the flattening loop produces exactly `Corpus(kb)`, topic by topic in key order and question by question |
| KnowledgeBase.TitleOr | server.js:138 | a present non-empty title is returned as is; a missing or empty title gives the id; nothing else is returned |
| KnowledgeBase.ListTopics | server.js:135-142 | one row per topic, in key order, with the id, `title \|\| id`, and the stored description when present, "" when absent |
| KnowledgeBase.ListedTopicsResolve | server.js:135-151 | every listed id looks up the very topic it was listed from |
| Ranking.Insert | server.js:182 | inserting into a list keeps every element and adds the new one (same multiset plus one) |
| Ranking.InsertKeepsOrder | server.js:182 | inserting into a list with non-increasing scores keeps it non-increasing |
| Ranking.SortByScore | server.js:113 | the sorted list is a permutation of the input, with non-increasing scores |
| Ranking.SortIsStable | server.js:182 | for every score, the results with that score keep their input order |
| Ranking.SortKeepsDistinct | server.js:182 | sorting keeps question texts pairwise distinct |
| Ranking.FirstOccurrences | server.js:179-181 | the `findIndex` filter, defined by recursion; characterised by `FirstOccurrencesProperties` |
| Ranking.FirstOccurrencesSound | server.js:179-181 | every kept result is the first result in the input with its question text |
| Ranking.FirstOccurrencesComplete | server.js:179-181 | every first occurrence of a question text is kept |
| Ranking.FirstOccurrencesDistinct | server.js:179-181 | the kept results have pairwise distinct question texts |
| Ranking.FirstOccurrencesOrdered | server.js:179-181 | two first occurrences survive the filter in their input order |
| Ranking.FirstOccurrencesProperties | server.js:179-181 | the filter keeps exactly the first occurrence of each question text, pairwise distinct, in input order |
| Ranking.WithScoreOrder | server.js:182 | two results with score v keep their relative order among the results scoring v |
| Ranking.StableTieOrder | server.js:182 | a list with the same results scoring v in the same order (distinct texts) holds any two of them in the same order |
| Ranking.RankTiesInInputOrder | server.js:178-188 | two first occurrences with equal scores leave the filter-and-sort step in their input order |
| Ranking.Rank | server.js:178-182 | the filter followed by the stable sort; characterised by `RankProperties`, `RankTop` and `RankTiesInInputOrder` |
| Ranking.RankProperties | server.js:178-182 | after filter and sort: distinct texts, non-increasing scores, each element a first occurrence from the input, every input text still present, and equal scores in filter order |
| Ranking.RankComesFromFirstOccurrences | server.js:178-182 | every ranked result is an input result at the first position of its text |
| Ranking.RankCoversQuestions | server.js:178-182 | every question text of the input appears among the ranked results |
| Ranking.RankTop | server.js:186-188 | a non-empty input gives a non-empty ranked list whose head is an input result and carries the highest score among the ranked results |
| Ranking.RankKeepsBestScore | server.js:178-188 | if x has the highest score and all results sharing its text score the same, the ranked head scores exactly x's score |
| Ranking.FirstIndexOf | server.js:180 | `findIndex` finds a position no later than i, with the same text, and nothing earlier has that text |
| KeywordMatcher.SearchIds | server.js:77 | the topic ids a search covers; characterised by `UnscopedCoversAll` and `ScopedToOneTopic` |
| KeywordMatcher.Resolve | server.js:79-80 | the topics the covered ids name, skipping unknown ids; characterised by `ResolveIds` and `ScopedToOneTopic` |
| KeywordMatcher.Scoped | server.js:77-80 | the covered topics for a scope; characterised by `UnscopedCoversAll` and `ScopedToOneTopic` |
| KeywordMatcher.KeywordMatches | server.js:75-114 | the specification of `searchByKeywords`: the sorted hits of the covered questions; computed by `SearchByKeywords` and characterised by `ExactRule`, `KeywordRule`, `MatchKinds` and `MatchesOrdered` |
| KeywordMatcher.Classify | server.js:87-108 | a question's hit carries that question's text, answer and topic |
| KeywordMatcher.HitsMembership | server.js:81-109 | a result is among the hits exactly when some entry classifies to it |
| KeywordMatcher.HitsAppend | server.js:79-111 | the hits of two runs of entries are the first run's hits followed by the second's |
| KeywordMatcher.HitsDistinct | server.js:81-109 | entries with distinct question texts give hits with distinct question texts |
| KeywordMatcher.SearchStep | server.js:79-111 | one turn of the loop over topic ids appends the named topic's hits when it exists and has questions, and nothing otherwise |
| KeywordMatcher.TopicHits | server.js:81-109 | the inner loop over one topic's questions yields exactly their hits, in question order |
| KeywordMatcher.SearchByKeywords | server.js:75-114 | the loop over the covered topics, then the sort, returns exactly `KeywordMatches` |
| KeywordMatcher.ResolveIds | server.js:77-80 | resolving the first n keys gives back the first n topics |
| KeywordMatcher.UnscopedCoversAll | server.js:77 | with no topic or the empty topic id, the search covers every topic in key order |
| KeywordMatcher.ScopedToOneTopic | server.js:77-80 | a non-empty topic id covers just that topic, or nothing when it is unknown |
| KeywordMatcher.MatchesAreClassified | server.js:79-113 | every result is the classification of a question of a covered topic |
| KeywordMatcher.ClassifiedAreMatched | server.js:79-113 | every covered question that passes a test is among the results |
| KeywordMatcher.MatchKinds | server.js:87-108 | every result is exact with score 1.0 or keyword with score 0.8, and exact exactly when its lowercased text contains the lowercased query |
| KeywordMatcher.ExactRule | server.js:87-95 | a covered question has an exact result exactly when its lowercased text contains the lowercased query |
| KeywordMatcher.KeywordRule | server.js:96-108 | a covered question that is not an exact hit but has an overlapping keyword gets a keyword result; a keyword result never goes to an exact hit and is backed by an overlapping keyword |
| KeywordMatcher.EmptyKeywordMatchesAll | server.js:97-99 | a keyword that lowercases to "" makes its question a hit for every query |
| KeywordMatcher.ScopeRestricts | server.js:77-80 | with a topic scope every result has that topic; an unknown topic gives no results |
| KeywordMatcher.MatchesOrdered | server.js:113 | results have non-increasing scores, are a permutation of the hits, and no keyword result precedes an exact one |
| KeywordMatcher.AtMostOneResultPerQuestion | server.js:81-113 | when covered questions have distinct texts, no two results share a text |
| Chat.FuzzySearch | server.js:117-126 | one fuzzy result per hit, in order, with the hit's question, answer and topic, and score + distance = 1; a distance in [0, 1] gives a score in [0, 1] |
| Chat.RandomIndex | server.js:131 | `Math.floor(Math.random() * n)` is a valid index below n |
| Chat.GetRandomResponse | server.js:129-132 | null exactly for an empty list, otherwise one of its members |
| Chat.Suggestions | server.js:207-210 | min(5, #topics) suggestions, the first topics of the listing in order, each with its id and `title \|\| id` |
| Chat.IsBlank | server.js:156 | a message is blank when it is missing or trims to ""; characterised by `BlankMessageIsError` |
| Chat.Candidates | server.js:165-175 | the keyword results, or the first three fuzzy results when there are none; characterised by `GatherCandidates` and `FuzzyOnlyAsFallback` |
| Chat.Decide | server.js:186-211 | the reply for a ranked list; characterised by `DecideRule` |
| Chat.Reply | server.js:153-216 | the handler's reply as a function of its inputs; computed by `HandleChat` and characterised by `BlankMessageIsError`, `DecisionRule` and `KeywordHitAnswers` |
| Chat.GatherCandidates | server.js:165-175 | the candidates are the keyword results or, only if there are none, the first three fuzzy results |
| Chat.HandleChat | server.js:153-216 | the handler's reply equals `Reply`, step by step from blank check to response |
| Chat.BlankMessageIsError | server.js:156-161 | a missing message is the fixed-prompt error; a present one gives an error exactly when it is all whitespace, and that error is the fixed prompt |
| Chat.FuzzyOnlyAsFallback | server.js:171-175 | with keyword results the candidates are exactly them and none is fuzzy; without, they are min(3, #hits) fuzzy results scoring 1 - distance in the index's order |
| Chat.FuzzyIgnoredAfterKeywordHit | server.js:171-175 | once the keyword search finds something, the reply does not depend on the fuzzy index |
| Chat.DecideRule | server.js:186-211 | on any score-ordered list: answer exactly when the head scores above 0.3, with its answer and topic, and a confidence equal to the head's score, which is the highest; otherwise the template apology and the first min(5, #topics) topics; never an error |
| Chat.DecisionRule | server.js:184-211 | an answer exactly when the ranked head scores above 0.3, carrying its answer and topic, and a confidence equal to the head's score, which is the highest; otherwise a fallback with a template apology and the first min(5, #topics) topics titled `title \|\| id`; never an error |
| Chat.WeakFuzzyHitsFallBack | server.js:172-211 | with no keyword hit and every fuzzy distance at least 0.7, the reply is the fallback |
| Chat.WeakFuzzyScores | server.js:123 | fuzzy hits at distance 0.7 or more give kept results scoring at most 0.3 |
| Chat.RankedScoresBounded | server.js:178-186 | ranking cannot raise the top score above a bound that every candidate respects |
| Chat.KeywordHitAnswers | server.js:168-194 | a keyword hit always yields an answer, with confidence 1.0 exactly when some result is exact and 0.8 otherwise, and with a topic scope the answer's topic is that scope |
| Chat.ExactHitRanksFirst | server.js:87-95 | if some keyword result is exact, the ranked list opens with score 1.0 |
| Chat.ScopedCorpusWithin | server.js:77-80 | the questions of a scoped search are questions of the knowledge base |
| Chat.AnswerFromCorpus | server.js:165-194 | if the fuzzy index returns corpus entries, every answer is a stored answer under its own topic |
| Chat.KeywordMatchFromCorpus | server.js:87-108 | a keyword result carries a stored question's answer and topic |
| Chat.FuzzyCandidateFromIndex | server.js:119-123 | a kept fuzzy candidate carries the answer and topic of one of the index's hits |
| Scenarios.QuestionPrefixAnswers | server.js:83-95 | on the Bayes topic, with lower-casing, "what is" occurs in "what is bayes' theorem?" and is answered with confidence 1.0 |
| Scenarios.KeywordOverlapAnswers | server.js:83-108 | on the Bayes topic, with lower-casing, "bayes theorem formula" misses the exact test but hits the keyword "bayes", and is answered with confidence 0.8 |
| Scenarios.UnrelatedQueryFallsBack | server.js:83-211 | on the Bayes topic, a query such as "xyzzy nonsense" gets the fallback whose only suggestion is the topic titled by its id, provided that: its first character is not in the lower-cased question, "bayes" or "probability" and is not whitespace; it contains no 'b' and no 'p'; the case mapping lower-cases the question and leaves "bayes", "probability" and the query unchanged; and the fuzzy index has no hits |
| Scenarios.TrailingWhitespaceMissesExact | server.js:87-95 | a stored question plus one trailing whitespace character is not an exact hit for that question, though it trims to the question, which is |

## Left out

- HTTP transport is not modelled: the Express set-up, routing, `res.json`, the 404 status of `/api/topic/:id` and `app.listen` (server.js:1-13, 144-151, 214, 218-226). The handlers are modelled as functions of their inputs; `Lookup` models the topic fetch.
- Loading the topic files with `fs.readFileSync`/`JSON.parse`, and logging failures, is I/O (server.js:44-51). The loaded knowledge base is an input with distinct keys in insertion order.
- The artificial 1-3 second `setTimeout` delay is a timing affordance (server.js:164, 215).
- Fuse.js indexing and scoring are a foreign library (server.js:68-72, 118). `fuse` is a parameter returning hits with distances.
- Chat.FuzzySearch: the score bound holds only for hits whose distance lies in [0, 1], which the model takes from the index instead of proving it.
- `toLowerCase` is a library case mapping over Cyrillic data. `lower` is a parameter, and the rules hold for every case mapping.
- Chat.RandomIndex: `Math.random()` is the parameter `u` in [0, 1), and the arithmetic is exact. Floating-point rounding of `u * n` is not modelled.
- Scores are exact reals. The source's floating-point `1 - result.score` and `b.score - a.score` are not rounded.
- A lookup sees only the knowledge base's own keys, not properties inherited from `Object.prototype`.
- Topic values that are `null`, and fields with non-string values, are not modelled. Every topic is a record whose fields may be missing.
- public/script.js (the browser UI: DOM, `fetch`, `localStorage`, `formatText`, `escapeHtml`) is not part of this model.
