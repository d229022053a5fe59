/**
  * Match results and the two list operations the engine applies to them:
  * the stable descending sort by score (`Array.prototype.sort` with
  * `(a, b) => b.score - a.score`) and the removal of repeated question texts
  * (`filter` with `findIndex`).
  */
module Ranking {

  datatype MatchKind = Exact | Keyword | Fuzzy

  /** One candidate answer; `score` is a similarity in [0, 1]. */
  datatype MatchResult = MatchResult(question: string, answer: string, topic: string, score: real, kind: MatchKind)

  /** Scores never increase from left to right. */
  predicate NonIncreasing(rs: seq<MatchResult>) {
    forall i, j :: 0 <= i < j < |rs| ==> rs[i].score >= rs[j].score
  }

  /** No two results carry the same question text. */
  predicate DistinctQuestions(rs: seq<MatchResult>) {
    forall i, j :: 0 <= i < j < |rs| ==> rs[i].question != rs[j].question
  }

  /**
    * Puts `x` in front of the first element that does not score higher, so
    * that `x` stays ahead of the equal scores that came after it in the input.
    */
  function Insert(x: MatchResult, rs: seq<MatchResult>): (r: seq<MatchResult>)
    ensures multiset(r) == multiset(rs) + multiset{x}
    ensures |r| == |rs| + 1 && (r[0] == x || (rs != [] && r[0] == rs[0]))
  {
    if rs == [] || rs[0].score <= x.score then [x] + rs
    else
      assert rs == [rs[0]] + rs[1..];
      [rs[0]] + Insert(x, rs[1..])
  }

  lemma {:induction false} InsertKeepsOrder(x: MatchResult, rs: seq<MatchResult>)
    requires NonIncreasing(rs)
    ensures NonIncreasing(Insert(x, rs))
  {
    if !(rs == [] || rs[0].score <= x.score) {
      var tail := Insert(x, rs[1..]);
      InsertKeepsOrder(x, rs[1..]);
      assert rs[0].score >= tail[0].score;
      var r := [rs[0]] + tail;
      forall i, j | 0 <= i < j < |r| ensures r[i].score >= r[j].score {
        if i == 0 {
          assert r[j] == tail[j - 1];
          assert tail[0].score >= tail[j - 1].score;
        } else {
          assert r[i] == tail[i - 1] && r[j] == tail[j - 1];
        }
      }
    }
  }

  /** The stable descending sort by score. */
  function SortByScore(rs: seq<MatchResult>): (r: seq<MatchResult>)
    ensures multiset(r) == multiset(rs)
    ensures NonIncreasing(r)
  {
    if rs == [] then []
    else
      assert rs == [rs[0]] + rs[1..];
      InsertKeepsOrder(rs[0], SortByScore(rs[1..]));
      Insert(rs[0], SortByScore(rs[1..]))
  }

  /** The results scoring exactly `v`, in their order. */
  function WithScore(rs: seq<MatchResult>, v: real): seq<MatchResult> {
    if rs == [] then []
    else (if rs[0].score == v then [rs[0]] else []) + WithScore(rs[1..], v)
  }

  lemma WithScoreCons(h: MatchResult, rs: seq<MatchResult>, v: real)
    ensures WithScore([h] + rs, v) == (if h.score == v then [h] else []) + WithScore(rs, v)
  {
    assert ([h] + rs)[1..] == rs;
  }

  lemma {:induction false} InsertWithScore(x: MatchResult, rs: seq<MatchResult>, v: real)
    ensures WithScore(Insert(x, rs), v) == (if x.score == v then [x] else []) + WithScore(rs, v)
  {
    if rs == [] || rs[0].score <= x.score {
      WithScoreCons(x, rs, v);
    } else {
      var tail := Insert(x, rs[1..]);
      var rest := WithScore(rs[1..], v);
      assert Insert(x, rs) == [rs[0]] + tail;
      assert [rs[0]] + rs[1..] == rs;
      InsertWithScore(x, rs[1..], v);
      WithScoreCons(rs[0], tail, v);
      WithScoreCons(rs[0], rs[1..], v);
      if x.score == v {
        assert rs[0].score != v;
        assert WithScore(Insert(x, rs), v) == [x] + rest;
        assert WithScore(rs, v) == rest;
      } else if rs[0].score == v {
        assert WithScore(Insert(x, rs), v) == [rs[0]] + rest;
        assert WithScore(rs, v) == [rs[0]] + rest;
      } else {
        assert WithScore(Insert(x, rs), v) == rest;
        assert WithScore(rs, v) == rest;
      }
    }
  }

  /** A result scoring `v` is among the results with that score. */
  lemma {:induction false} WithScoreMember(rs: seq<MatchResult>, v: real, k: nat)
    requires k < |rs| && rs[k].score == v
    ensures exists b :: 0 <= b < |WithScore(rs, v)| && WithScore(rs, v)[b] == rs[k]
  {
    if k == 0 {
      assert WithScore(rs, v)[0] == rs[0];
    } else {
      var tail := WithScore(rs[1..], v);
      WithScoreMember(rs[1..], v, k - 1);
      var b :| 0 <= b < |tail| && tail[b] == rs[1..][k - 1];
      var h := if rs[0].score == v then [rs[0]] else [];
      assert WithScore(rs, v) == h + tail;
      assert WithScore(rs, v)[|h| + b] == rs[k];
    }
  }

  /** Two results scoring `v` keep their relative order among the results with that score. */
  lemma {:induction false} WithScoreOrder(rs: seq<MatchResult>, v: real, p: nat, q: nat)
    requires p < q < |rs| && rs[p].score == v && rs[q].score == v
    ensures ComesBefore(WithScore(rs, v), rs[p], rs[q])
  {
    var tail := WithScore(rs[1..], v);
    var h := if rs[0].score == v then [rs[0]] else [];
    assert WithScore(rs, v) == h + tail;
    if p == 0 {
      WithScoreMember(rs[1..], v, q - 1);
      var b :| 0 <= b < |tail| && tail[b] == rs[1..][q - 1];
      assert WithScore(rs, v)[0] == rs[0] && WithScore(rs, v)[b + 1] == rs[q];
    } else {
      WithScoreOrder(rs[1..], v, p - 1, q - 1);
      var a, b :| 0 <= a < b < |tail| && tail[a] == rs[1..][p - 1] && tail[b] == rs[1..][q - 1];
      assert WithScore(rs, v)[|h| + a] == rs[p] && WithScore(rs, v)[|h| + b] == rs[q];
    }
  }

  /** The results with score `v` are results of the input. */
  lemma {:induction false} WithScoreWithin(rs: seq<MatchResult>, v: real)
    ensures forall x :: x in WithScore(rs, v) ==> x in rs
  {
    if rs != [] {
      WithScoreWithin(rs[1..], v);
    }
  }

  lemma {:induction false} WithScoreDistinct(rs: seq<MatchResult>, v: real)
    requires DistinctQuestions(rs)
    ensures DistinctQuestions(WithScore(rs, v))
  {
    if rs != [] {
      var tail := WithScore(rs[1..], v);
      WithScoreDistinct(rs[1..], v);
      WithScoreWithin(rs[1..], v);
      if rs[0].score == v {
        forall k | 0 <= k < |tail| ensures tail[k].question != rs[0].question {
          assert tail[k] in rs[1..];
          var m :| 0 <= m < |rs[1..]| && rs[1..][m] == tail[k];
          assert rs[m + 1] == tail[k];
        }
        assert WithScore(rs, v) == [rs[0]] + tail;
      } else {
        assert WithScore(rs, v) == tail;
      }
    }
  }

  /** The sort is stable: among equal scores it keeps the input order. */
  lemma {:induction false} SortIsStable(rs: seq<MatchResult>, v: real)
    ensures WithScore(SortByScore(rs), v) == WithScore(rs, v)
  {
    if rs != [] {
      SortIsStable(rs[1..], v);
      InsertWithScore(rs[0], SortByScore(rs[1..]), v);
    }
  }

  lemma {:induction false} InsertKeepsDistinct(x: MatchResult, rs: seq<MatchResult>)
    requires DistinctQuestions(rs)
    requires forall k :: 0 <= k < |rs| ==> rs[k].question != x.question
    ensures DistinctQuestions(Insert(x, rs))
  {
    if !(rs == [] || rs[0].score <= x.score) {
      var tail := Insert(x, rs[1..]);
      InsertKeepsDistinct(x, rs[1..]);
      forall k | 0 <= k < |tail| ensures tail[k].question != rs[0].question {
        assert tail[k] in multiset(rs[1..]) + multiset{x};
        if tail[k] != x {
          assert tail[k] in rs[1..];
        }
      }
    }
  }

  /** Sorting never brings two results with the same question text together. */
  lemma {:induction false} SortKeepsDistinct(rs: seq<MatchResult>)
    requires DistinctQuestions(rs)
    ensures DistinctQuestions(SortByScore(rs))
  {
    if rs != [] {
      SortKeepsDistinct(rs[1..]);
      var sorted := SortByScore(rs[1..]);
      forall k | 0 <= k < |sorted| ensures sorted[k].question != rs[0].question {
        assert sorted[k] in multiset(rs[1..]);
        var m :| 0 <= m < |rs[1..]| && rs[1..][m] == sorted[k];
        assert rs[m + 1] == sorted[k];
      }
      InsertKeepsDistinct(rs[0], sorted);
    }
  }

  /** `x` occurs in `rs` at some position before an occurrence of `y`. */
  predicate ComesBefore(rs: seq<MatchResult>, x: MatchResult, y: MatchResult) {
    exists p, q :: 0 <= p < q < |rs| && rs[p] == x && rs[q] == y
  }

  /** Position `i` holds the first occurrence of its question text (`index === findIndex(...)`). */
  predicate IsFirstOccurrence(rs: seq<MatchResult>, i: nat)
    requires i < |rs|
  {
    forall j :: 0 <= j < i ==> rs[j].question != rs[i].question
  }

  /** Keeps each result that is the first with its question text, in input order. */
  function FirstOccurrences(rs: seq<MatchResult>): seq<MatchResult> {
    if rs == [] then []
    else
      var n := |rs| - 1;
      if exists j :: 0 <= j < n && rs[j].question == rs[n].question then FirstOccurrences(rs[..n])
      else FirstOccurrences(rs[..n]) + [rs[n]]
  }

  /** Each survivor of the filter is the first occurrence of its question text in the input. */
  lemma {:induction false} FirstOccurrencesSound(rs: seq<MatchResult>)
    ensures forall x :: x in FirstOccurrences(rs) ==>
      exists i :: 0 <= i < |rs| && rs[i] == x && IsFirstOccurrence(rs, i)
  {
    if rs != [] {
      var n := |rs| - 1;
      var init := rs[..n];
      FirstOccurrencesSound(init);
      forall x | x in FirstOccurrences(rs)
        ensures exists i :: 0 <= i < |rs| && rs[i] == x && IsFirstOccurrence(rs, i)
      {
        if x in FirstOccurrences(init) {
          var i :| 0 <= i < |init| && init[i] == x && IsFirstOccurrence(init, i);
          assert rs[i] == x;
          assert forall j :: 0 <= j < i ==> rs[j] == init[j];
        } else {
          assert x == rs[n];
        }
      }
    }
  }

  /** Every first occurrence of a question text survives the filter. */
  lemma {:induction false} FirstOccurrencesComplete(rs: seq<MatchResult>)
    ensures forall i :: 0 <= i < |rs| && IsFirstOccurrence(rs, i) ==> rs[i] in FirstOccurrences(rs)
  {
    if rs != [] {
      var n := |rs| - 1;
      var init := rs[..n];
      FirstOccurrencesComplete(init);
      forall i | 0 <= i < |rs| && IsFirstOccurrence(rs, i) ensures rs[i] in FirstOccurrences(rs) {
        if i < n {
          assert forall j :: 0 <= j <= i ==> rs[j] == init[j];
          assert IsFirstOccurrence(init, i);
        }
      }
    }
  }

  /** The survivors of the filter are pairwise distinct in question text. */
  lemma {:induction false} FirstOccurrencesDistinct(rs: seq<MatchResult>)
    ensures DistinctQuestions(FirstOccurrences(rs))
  {
    if rs != [] {
      var n := |rs| - 1;
      var init := rs[..n];
      var kept := FirstOccurrences(init);
      FirstOccurrencesDistinct(init);
      if !exists j :: 0 <= j < n && rs[j].question == rs[n].question {
        FirstOccurrencesSound(init);
        forall k | 0 <= k < |kept| ensures kept[k].question != rs[n].question {
          assert kept[k] in kept;
          var i :| 0 <= i < |init| && init[i] == kept[k] && IsFirstOccurrence(init, i);
          assert rs[i] == init[i];
        }
      }
    }
  }

  /** Two first occurrences survive the filter in their input order. */
  lemma {:induction false} FirstOccurrencesPair(rs: seq<MatchResult>, i: nat, j: nat)
    requires i < j < |rs| && IsFirstOccurrence(rs, i) && IsFirstOccurrence(rs, j)
    ensures ComesBefore(FirstOccurrences(rs), rs[i], rs[j])
    decreases |rs|
  {
    var n := |rs| - 1;
    var init := rs[..n];
    var kept := FirstOccurrences(init);
    var out := FirstOccurrences(rs);
    assert IsFirstOccurrence(init, i) by {
      assert forall k :: 0 <= k <= i ==> rs[k] == init[k];
    }
    if j < n {
      assert IsFirstOccurrence(init, j) by {
        assert forall k :: 0 <= k <= j ==> rs[k] == init[k];
      }
      FirstOccurrencesPair(init, i, j);
      var p, q :| 0 <= p < q < |kept| && kept[p] == init[i] && kept[q] == init[j];
      assert out == kept || out == kept + [rs[n]];
      assert out[p] == kept[p] && out[q] == kept[q];
    } else {
      assert out == kept + [rs[n]];
      FirstOccurrencesComplete(init);
      assert init[i] in kept;
      var p :| 0 <= p < |kept| && kept[p] == init[i];
      assert out[p] == rs[i] && out[|kept|] == rs[j];
    }
  }

  /** The survivors of the filter keep their input order. */
  lemma FirstOccurrencesOrdered(rs: seq<MatchResult>)
    ensures forall i, j :: 0 <= i < j < |rs| && IsFirstOccurrence(rs, i) && IsFirstOccurrence(rs, j) ==>
      ComesBefore(FirstOccurrences(rs), rs[i], rs[j])
  {
    forall i, j | 0 <= i < j < |rs| && IsFirstOccurrence(rs, i) && IsFirstOccurrence(rs, j)
      ensures ComesBefore(FirstOccurrences(rs), rs[i], rs[j])
    {
      FirstOccurrencesPair(rs, i, j);
    }
  }

  /**
    * The filter keeps exactly the first occurrence of each question text, in
    * input order: the survivors are pairwise distinct in question text, each
    * is a first occurrence in the input, every first occurrence survives, and
    * survivors keep their input order.
    */
  lemma FirstOccurrencesProperties(rs: seq<MatchResult>)
    ensures DistinctQuestions(FirstOccurrences(rs))
    ensures forall x :: x in FirstOccurrences(rs) ==>
      exists i :: 0 <= i < |rs| && rs[i] == x && IsFirstOccurrence(rs, i)
    ensures forall i :: 0 <= i < |rs| && IsFirstOccurrence(rs, i) ==> rs[i] in FirstOccurrences(rs)
    ensures forall i, j :: 0 <= i < j < |rs| && IsFirstOccurrence(rs, i) && IsFirstOccurrence(rs, j) ==>
      ComesBefore(FirstOccurrences(rs), rs[i], rs[j])
  {
    FirstOccurrencesDistinct(rs);
    FirstOccurrencesSound(rs);
    FirstOccurrencesComplete(rs);
    FirstOccurrencesOrdered(rs);
  }

  /** The filter-then-sort step of the chat handler. */
  function Rank(candidates: seq<MatchResult>): seq<MatchResult> {
    SortByScore(FirstOccurrences(candidates))
  }

  /**
    * After ranking, no two results share a question text, each one is the
    * first occurrence of its question among the candidates, every question of
    * the candidates is still represented, scores are non-increasing, and
    * equal scores keep the order the filter left them in.
    */
  lemma RankProperties(candidates: seq<MatchResult>)
    ensures DistinctQuestions(Rank(candidates))
    ensures NonIncreasing(Rank(candidates))
    ensures forall x :: x in Rank(candidates) ==>
      exists i :: 0 <= i < |candidates| && candidates[i] == x && IsFirstOccurrence(candidates, i)
    ensures forall i :: 0 <= i < |candidates| ==>
      exists x :: x in Rank(candidates) && x.question == candidates[i].question
    ensures forall v :: WithScore(Rank(candidates), v) == WithScore(FirstOccurrences(candidates), v)
  {
    FirstOccurrencesProperties(candidates);
    SortKeepsDistinct(FirstOccurrences(candidates));
    RankComesFromFirstOccurrences(candidates);
    RankCoversQuestions(candidates);
    forall v ensures WithScore(Rank(candidates), v) == WithScore(FirstOccurrences(candidates), v) {
      SortIsStable(FirstOccurrences(candidates), v);
    }
  }

  lemma RankComesFromFirstOccurrences(candidates: seq<MatchResult>)
    ensures forall x :: x in Rank(candidates) ==>
      exists i :: 0 <= i < |candidates| && candidates[i] == x && IsFirstOccurrence(candidates, i)
  {
    var kept := FirstOccurrences(candidates);
    FirstOccurrencesProperties(candidates);
    forall x | x in Rank(candidates)
      ensures exists i :: 0 <= i < |candidates| && candidates[i] == x && IsFirstOccurrence(candidates, i)
    {
      assert x in multiset(Rank(candidates));
      assert x in kept;
    }
  }

  lemma RankCoversQuestions(candidates: seq<MatchResult>)
    ensures forall i :: 0 <= i < |candidates| ==>
      exists x :: x in Rank(candidates) && x.question == candidates[i].question
  {
    var kept := FirstOccurrences(candidates);
    FirstOccurrencesProperties(candidates);
    forall i | 0 <= i < |candidates|
      ensures exists x :: x in Rank(candidates) && x.question == candidates[i].question
    {
      var f := FirstIndexOf(candidates, i);
      assert candidates[f] in kept;
      assert candidates[f] in multiset(Rank(candidates));
    }
  }

  /** The head of a ranked non-empty list is a candidate with the highest ranked score. */
  lemma RankTop(candidates: seq<MatchResult>)
    requires candidates != []
    ensures Rank(candidates) != [] && Rank(candidates)[0] in candidates
    ensures forall x :: x in Rank(candidates) ==> x.score <= Rank(candidates)[0].score
  {
    RankCoversQuestions(candidates);
    RankComesFromFirstOccurrences(candidates);
    var ranked := Rank(candidates);
    assert ranked != [];
    assert ranked[0] in ranked;
    forall x | x in ranked ensures x.score <= ranked[0].score {
      var k :| 0 <= k < |ranked| && ranked[k] == x;
    }
  }

  /**
    * When `x` has the highest score among the candidates and every candidate
    * sharing its question text scores the same, the ranked list opens with
    * that score.
    */
  lemma RankKeepsBestScore(candidates: seq<MatchResult>, x: MatchResult)
    requires x in candidates
    requires forall c :: c in candidates ==> c.score <= x.score
    requires forall c :: c in candidates && c.question == x.question ==> c.score == x.score
    ensures Rank(candidates) != [] && Rank(candidates)[0].score == x.score
  {
    RankTop(candidates);
    RankCoversQuestions(candidates);
    RankComesFromFirstOccurrences(candidates);
    var i :| 0 <= i < |candidates| && candidates[i] == x;
    var y :| y in Rank(candidates) && y.question == candidates[i].question;
  }

  /** In a list distinct in question text, two results occur in one order only. */
  lemma OrderUnique(w: seq<MatchResult>, x: MatchResult, y: MatchResult)
    requires DistinctQuestions(w) && ComesBefore(w, x, y)
    ensures !ComesBefore(w, y, x)
  {
    var a, b :| 0 <= a < b < |w| && w[a] == x && w[b] == y;
    assert forall k :: 0 <= k < |w| && w[k] == y ==> k == b;
    assert forall k :: 0 <= k < |w| && w[k] == x ==> k == a;
  }

  /**
    * If `t` has the same results with score `v`, in the same order, as `s`,
    * and those are distinct in question text, then two of them that `s` holds
    * in one order `t` holds in that order too.
    */
  lemma StableTieOrder(s: seq<MatchResult>, t: seq<MatchResult>, v: real, x: MatchResult, y: MatchResult)
    requires WithScore(s, v) == WithScore(t, v) && DistinctQuestions(WithScore(s, v))
    requires x.score == v && y.score == v && x.question != y.question
    requires ComesBefore(s, x, y) && x in t && y in t
    ensures ComesBefore(t, x, y)
  {
    var p, q :| 0 <= p < q < |s| && s[p] == x && s[q] == y;
    WithScoreOrder(s, v, p, q);
    OrderUnique(WithScore(s, v), x, y);
    var pt :| 0 <= pt < |t| && t[pt] == x;
    var qt :| 0 <= qt < |t| && t[qt] == y;
    assert pt != qt by {
      assert x != y;
    }
    if qt < pt {
      WithScoreOrder(t, v, qt, pt);
      assert false;
    }
    assert t[pt] == x && t[qt] == y && pt < qt;
  }

  /**
    * Two first occurrences with equal scores come out of the ranking in
    * their input order: the filter keeps them in order and the sort is
    * stable, so the earlier one is the one an answer would use.
    */
  lemma RankTiesInInputOrder(candidates: seq<MatchResult>, i: nat, j: nat)
    requires i < j < |candidates| && IsFirstOccurrence(candidates, i) && IsFirstOccurrence(candidates, j)
    requires candidates[i].score == candidates[j].score
    ensures ComesBefore(Rank(candidates), candidates[i], candidates[j])
  {
    var kept := FirstOccurrences(candidates);
    var v := candidates[i].score;
    var x, y := candidates[i], candidates[j];
    FirstOccurrencesPair(candidates, i, j);
    FirstOccurrencesDistinct(candidates);
    WithScoreDistinct(kept, v);
    SortIsStable(kept, v);
    var p, q :| 0 <= p < q < |kept| && kept[p] == x && kept[q] == y;
    assert x in multiset(Rank(candidates)) && y in multiset(Rank(candidates));
    StableTieOrder(kept, Rank(candidates), v, x, y);
  }

  /** The position `findIndex` reports for the question text at position `i`. */
  function FirstIndexOf(rs: seq<MatchResult>, i: nat): (f: nat)
    requires i < |rs|
    ensures f <= i && rs[f].question == rs[i].question && IsFirstOccurrence(rs, f)
  {
    if IsFirstOccurrence(rs, i) then i
    else
      var j :| 0 <= j < i && rs[j].question == rs[i].question;
      FirstIndexOf(rs, j)
  }
}
