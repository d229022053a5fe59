/**
  * The knowledge base as the server holds it after start-up: an object from
  * topic id to topic, whose keys keep their insertion order, and the flat
  * corpus of question records built from it for searching.
  */
module KnowledgeBase {
  import opened Wrappers

  type TopicId = string

  /** One stored question; `keywords` may be missing from the topic file. */
  datatype QuestionRecord = QuestionRecord(question: string, answer: string, keywords: Option<seq<string>>)

  /** One topic file; every field may be missing. */
  datatype Topic = Topic(title: Option<string>, description: Option<string>, questions: Option<seq<QuestionRecord>>)

  /** A question record with a back-reference to its topic; missing keywords read as none. */
  datatype CorpusEntry = CorpusEntry(question: string, answer: string, topic: TopicId, keywords: seq<string>)

  /** One row of the topic listing. */
  datatype TopicSummary = TopicSummary(id: TopicId, title: string, description: string)

  /** The keys of a JavaScript object are pairwise distinct. */
  ghost predicate UniqueIds(topics: seq<(TopicId, Topic)>) {
    forall i, j :: 0 <= i < j < |topics| ==> topics[i].0 != topics[j].0
  }

  /** The knowledge base, in the order of `Object.keys`. */
  type Knowledge = topics: seq<(TopicId, Topic)> | UniqueIds(topics) witness []

  /** `Object.keys(knowledgeBase)` */
  function Ids(topics: seq<(TopicId, Topic)>): (ids: seq<TopicId>)
    ensures |ids| == |topics| && forall i :: 0 <= i < |topics| ==> ids[i] == topics[i].0
  {
    seq(|topics|, i requires 0 <= i < |topics| => topics[i].0)
  }

  /**
    * `knowledgeBase[id]`: the topic stored under `id`, if any (the first one,
    * which for a `Knowledge` is the only one).
    */
  function Lookup(topics: seq<(TopicId, Topic)>, id: TopicId): (r: Option<Topic>)
    ensures r.None? <==> forall i :: 0 <= i < |topics| ==> topics[i].0 != id
    ensures r.Some? ==> (id, r.value) in topics
  {
    if topics == [] then None
    else if topics[0].0 == id then Some(topics[0].1)
    else Lookup(topics[1..], id)
  }

  /** With distinct ids, looking up the id at position `i` gives the topic at position `i`. */
  lemma {:induction false} LookupAt(topics: seq<(TopicId, Topic)>, i: nat)
    requires UniqueIds(topics) && i < |topics|
    ensures Lookup(topics, topics[i].0) == Some(topics[i].1)
  {
    if i > 0 {
      assert topics[0].0 != topics[i].0;
      assert topics[1..][i - 1] == topics[i];
      LookupAt(topics[1..], i - 1);
    }
  }

  /** `knowledgeBase[topic].questions`, where a missing list is skipped like an empty one. */
  function QuestionsOf(t: Topic): seq<QuestionRecord> {
    t.questions.GetOr([])
  }

  /** The flattened view of one question of topic `id` (`q.keywords || []`). */
  function Entry(id: TopicId, q: QuestionRecord): CorpusEntry {
    CorpusEntry(q.question, q.answer, id, q.keywords.GetOr([]))
  }

  /** The entries of one topic's questions, in their stored order. */
  function TopicEntries(id: TopicId, qs: seq<QuestionRecord>): (es: seq<CorpusEntry>)
    ensures |es| == |qs|
  {
    seq(|qs|, j requires 0 <= j < |qs| => Entry(id, qs[j]))
  }

  /** All topics' entries, topic by topic in key order. */
  function Corpus(topics: seq<(TopicId, Topic)>): seq<CorpusEntry> {
    if topics == [] then []
    else
      var last := topics[|topics| - 1];
      Corpus(topics[..|topics| - 1]) + TopicEntries(last.0, QuestionsOf(last.1))
  }

  /** The corpus of two runs of topics is the corpus of the first followed by that of the second. */
  lemma {:induction false} CorpusAppend(a: seq<(TopicId, Topic)>, b: seq<(TopicId, Topic)>)
    ensures Corpus(a + b) == Corpus(a) + Corpus(b)
    decreases |b|
  {
    if b != [] {
      var ab := a + b;
      assert ab[..|ab| - 1] == a + b[..|b| - 1];
      assert ab[|ab| - 1] == b[|b| - 1];
      CorpusAppend(a, b[..|b| - 1]);
    } else {
      assert a + b == a;
    }
  }

  /** An entry is in the corpus exactly when it is the view of some question of some topic. */
  lemma {:induction false} CorpusMembership(topics: seq<(TopicId, Topic)>, e: CorpusEntry)
    ensures e in Corpus(topics) <==>
      exists i, j :: 0 <= i < |topics| && 0 <= j < |QuestionsOf(topics[i].1)| &&
        e == Entry(topics[i].0, QuestionsOf(topics[i].1)[j])
  {
    if topics != [] {
      var n := |topics| - 1;
      var init := topics[..n];
      CorpusMembership(init, e);
      var qs := QuestionsOf(topics[n].1);
      if e in Corpus(topics) {
        if e in Corpus(init) {
          var i, j :| 0 <= i < |init| && 0 <= j < |QuestionsOf(init[i].1)| &&
            e == Entry(init[i].0, QuestionsOf(init[i].1)[j]);
          assert topics[i] == init[i];
        } else {
          var j :| 0 <= j < |qs| && TopicEntries(topics[n].0, qs)[j] == e;
          assert e == Entry(topics[n].0, QuestionsOf(topics[n].1)[j]);
        }
      } else {
        forall i, j | 0 <= i < |topics| && 0 <= j < |QuestionsOf(topics[i].1)|
          ensures e != Entry(topics[i].0, QuestionsOf(topics[i].1)[j])
        {
          if i < n {
            assert topics[i] == init[i];
          } else {
            assert TopicEntries(topics[n].0, qs)[j] == Entry(topics[i].0, QuestionsOf(topics[i].1)[j]);
          }
        }
      }
    }
  }

  /**
    * The corpus flattening run at start-up: for each topic in key order that
    * has a question list, append every question, tagged with its topic.
    */
  method BuildCorpus(kb: Knowledge) returns (all: seq<CorpusEntry>)
    ensures all == Corpus(kb)
  {
    all := [];
    var i := 0;
    while i < |kb|
      invariant 0 <= i <= |kb|
      invariant all == Corpus(kb[..i])
    {
      var id := kb[i].0;
      var topic := kb[i].1;
      if topic.questions.Some? {
        var qs := topic.questions.value;
        var j := 0;
        while j < |qs|
          invariant 0 <= j <= |qs|
          invariant all == Corpus(kb[..i]) + TopicEntries(id, qs[..j])
        {
          assert TopicEntries(id, qs[..j + 1]) == TopicEntries(id, qs[..j]) + [Entry(id, qs[j])];
          all := all + [Entry(id, qs[j])];
          j := j + 1;
        }
        assert qs[..j] == qs;
      }
      assert kb[..i + 1][..i] == kb[..i];
      i := i + 1;
    }
    assert kb[..i] == kb;
  }

  /** `knowledgeBase[topic].title || topic`: an absent or empty title falls back to the id. */
  function TitleOr(t: Topic, id: TopicId): (title: string)
    ensures title == id || (t.title == Some(title) && title != "")
    ensures title == id <== t.title.None? || t.title == Some("")
    ensures t.title.Some? && t.title.value != "" ==> title == t.title.value
  {
    if t.title.Some? && t.title.value != "" then t.title.value else id
  }

  /** The `/api/topics` listing: every topic in key order with its title and description. */
  function ListTopics(kb: Knowledge): (r: seq<TopicSummary>)
    ensures |r| == |kb|
    ensures forall i :: 0 <= i < |r| ==>
      r[i].id == kb[i].0 && r[i].title == TitleOr(kb[i].1, kb[i].0) &&
      (kb[i].1.description.Some? ==> r[i].description == kb[i].1.description.value) &&
      (kb[i].1.description.None? ==> r[i].description == "")
  {
    seq(|kb|, i requires 0 <= i < |kb| =>
      TopicSummary(kb[i].0, TitleOr(kb[i].1, kb[i].0), kb[i].1.description.GetOr("")))
  }

  /** Every listed topic can be fetched by its id, and gives back the topic it was listed from. */
  lemma ListedTopicsResolve(kb: Knowledge, i: nat)
    requires i < |kb|
    ensures ListTopics(kb)[i].id == kb[i].0 && Lookup(kb, ListTopics(kb)[i].id) == Some(kb[i].1)
  {
    LookupAt(kb, i);
  }
}
