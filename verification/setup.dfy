/**
 The setup phase: choosing topics one at a time or all at once, and drawing
 the questions of a new exam.
 */
module Setup {
  import opened Bank
  import opened State

  function Min(a: int, b: int): int
  {
    if a <= b then a else b
  }

  /**
   Clicking a topic card flips that topic's membership in the selection,
   refreshes the start button, and touches nothing else. The cards are shown
   only on the setup screen.
   */
  function ToggleTopic(b: QuestionBank, s: Session, id: TopicId): (r: Session)
    ensures s.view != SetupView ==> r == s
    ensures s.view == SetupView ==>
              && (id in r.selectedTopics <==> id !in s.selectedTopics)
              && (forall t :: t != id ==> (t in r.selectedTopics <==> t in s.selectedTopics))
              && r.startButton == UpdateStartButton(b, r.selectedTopics)
    ensures r.currentQuestions == s.currentQuestions && r.answers == s.answers
    ensures r.isSubmitted == s.isSubmitted && r.view == s.view
  {
    if s.view != SetupView then s
    else
      var selected := if id in s.selectedTopics then s.selectedTopics - {id} else s.selectedTopics + {id};
      s.(selectedTopics := selected, startButton := UpdateStartButton(b, selected))
  }

  /**
   Toggling the same topic twice restores the selection, and restores the
   whole session when its start button was up to date.
   */
  lemma ToggleTopicTwice(b: QuestionBank, s: Session, id: TopicId)
    ensures ToggleTopic(b, ToggleTopic(b, s, id), id).selectedTopics == s.selectedTopics
    ensures SetupValid(b, s) ==> ToggleTopic(b, ToggleTopic(b, s, id), id) == s
  {
  }

  /** Toggling a topic of the bank keeps a session valid. */
  lemma ToggleTopicValid(b: QuestionBank, s: Session, id: TopicId)
    requires SetupValid(b, s) && id in TopicIds(b.topics)
    ensures SetupValid(b, ToggleTopic(b, s, id))
    ensures Valid(b, s) ==> Valid(b, ToggleTopic(b, s, id))
  {
  }

  /**
   The "select all / deselect all" button on the setup screen. It compares the
   number of selected topics with the length of the topic list: when they
   agree the selection is cleared, otherwise every listed topic is added to
   it. The start button is refreshed either way.
   */
  function ToggleAll(b: QuestionBank, s: Session): (r: Session)
    ensures s.view != SetupView ==> r == s
    ensures s.view == SetupView && |s.selectedTopics| == |b.topics| ==> r.selectedTopics == {}
    ensures s.view == SetupView && |s.selectedTopics| != |b.topics| ==>
              && (forall t :: t in b.topics ==> t.id in r.selectedTopics)
              && (forall id :: id in r.selectedTopics <==> id in s.selectedTopics || id in TopicIds(b.topics))
    ensures s.view == SetupView ==> r.startButton == UpdateStartButton(b, r.selectedTopics)
    ensures r.currentQuestions == s.currentQuestions && r.answers == s.answers
    ensures r.isSubmitted == s.isSubmitted && r.view == s.view
  {
    if s.view != SetupView then s
    else
      var selected := if |s.selectedTopics| == |b.topics| then {} else s.selectedTopics + TopicIds(b.topics);
      s.(selectedTopics := selected, startButton := UpdateStartButton(b, selected))
  }

  /**
   On the setup screen, when topic ids are distinct and only known topics are
   selected, comparing
   sizes is the same as asking whether every topic is selected: the button
   deselects everything exactly when everything is selected, and otherwise
   leaves exactly the full set of topics selected.
   */
  lemma {:induction false} ToggleAllSelectsOrClears(b: QuestionBank, s: Session)
    requires DistinctTopicIds(b.topics)
    requires s.selectedTopics <= TopicIds(b.topics)
    ensures s.view == SetupView && s.selectedTopics == TopicIds(b.topics) ==> ToggleAll(b, s).selectedTopics == {}
    ensures s.view == SetupView && s.selectedTopics != TopicIds(b.topics) ==> ToggleAll(b, s).selectedTopics == TopicIds(b.topics)
  {
    DistinctTopicIdsCardinality(b.topics);
    if |s.selectedTopics| == |b.topics| {
      SubsetOfEqualSize(s.selectedTopics, TopicIds(b.topics));
    }
  }

  /** Selecting or deselecting all topics keeps a session valid. */
  lemma ToggleAllValid(b: QuestionBank, s: Session)
    requires SetupValid(b, s)
    ensures SetupValid(b, ToggleAll(b, s))
    ensures Valid(b, s) ==> Valid(b, ToggleAll(b, s))
  {
  }

  /** Exchanges the elements at positions `i` and `j`. */
  function Swap(qs: seq<Question>, i: nat, j: nat): (r: seq<Question>)
    requires i < |qs| && j < |qs|
    ensures |r| == |qs|
    ensures multiset(r) == multiset(qs)
    ensures DistinctIds(qs) ==> DistinctIds(r)
  {
    var r := qs[i := qs[j]][j := qs[i]];
    assert forall k :: 0 <= k < |qs| ==> r[k] == qs[if k == i then j else if k == j then i else k];
    r
  }

  /**
   Puts the pool in some order. The source sorts with a random comparator; the
   model draws each swap position arbitrarily and promises only that the
   result is a rearrangement of the pool.
   */
  method Shuffle(pool: seq<Question>) returns (out: seq<Question>)
    ensures multiset(out) == multiset(pool)
    ensures DistinctIds(pool) ==> DistinctIds(out)
  {
    out := pool;
    var i := |out|;
    while i > 1
      invariant 0 <= i <= |out|
      invariant multiset(out) == multiset(pool)
      invariant DistinctIds(pool) ==> DistinctIds(out)
    {
      var j :| 0 <= j < i;
      out := Swap(out, i - 1, j);
      i := i - 1;
    }
  }

  /** A prefix of a rearrangement of `pool` takes each question at most as often as `pool` holds it. */
  lemma PrefixOfRearrangement(pool: seq<Question>, shuffled: seq<Question>, n: nat)
    requires multiset(shuffled) == multiset(pool) && n <= |shuffled|
    ensures multiset(shuffled[..n]) <= multiset(pool)
    ensures forall q :: q in shuffled[..n] ==> q in pool
    ensures DistinctIds(shuffled) ==> DistinctIds(shuffled[..n])
  {
    var drawn := shuffled[..n];
    assert shuffled == drawn + shuffled[n..];
    assert multiset(shuffled) == multiset(drawn) + multiset(shuffled[n..]);
    forall q | q in drawn ensures q in pool {
      assert q in multiset(drawn);
      assert q in multiset(pool);
    }
  }

  /**
   Clicking the start button on the setup screen. While the button is
   disabled nothing happens. Otherwise the pool of the current selection is
   shuffled, its first `MaxQuestions` questions become the exam, the answers
   and the submitted flag are cleared, and the exam screen is shown. In a
   valid session an enabled button means a non-empty pool, so the exam has at
   least one question. The setup half of the invariant is kept and, for a
   well-formed bank and a non-empty pool, the exam half is established.
   */
  method StartExam(b: QuestionBank, s: Session) returns (started: Session)
    ensures s.view != SetupView || s.startButton.disabled ==> started == s
    ensures s.view == SetupView && !s.startButton.disabled ==>
              && started.view == ExamView
              && started.selectedTopics == s.selectedTopics
              && started.startButton == s.startButton
              && started.answers == map[]
              && !started.isSubmitted
              && |started.currentQuestions| == Min(MaxQuestions, PoolSize(b.questions, s.selectedTopics))
              && (forall q :: q in started.currentQuestions ==> q in b.questions && q.topic in s.selectedTopics)
              && multiset(started.currentQuestions) <= multiset(Pool(b.questions, s.selectedTopics))
              && (DistinctIds(b.questions) ==> DistinctIds(started.currentQuestions))
    ensures SetupValid(b, s) && s.view == SetupView && !s.startButton.disabled ==> |started.currentQuestions| > 0
    ensures SetupValid(b, s) ==> SetupValid(b, started)
    ensures s.view == SetupView && !s.startButton.disabled && PoolSize(b.questions, s.selectedTopics) > 0 && WellFormed(b) ==>
              ExamValid(b, started)
  {
    if s.view != SetupView || s.startButton.disabled {
      started := s;
    } else {
      var pool := Pool(b.questions, s.selectedTopics);
      if DistinctIds(b.questions) {
        PoolDistinct(b.questions, s.selectedTopics);
      }
      var shuffled := Shuffle(pool);
      var n := Min(MaxQuestions, |shuffled|);
      var drawn := shuffled[..n];
      PrefixOfRearrangement(pool, shuffled, n);
      started := s.(currentQuestions := drawn, answers := map[], isSubmitted := false, view := ExamView);
    }
  }
}
