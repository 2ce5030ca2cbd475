/**
 The question bank of the exam simulator: topics, questions, and the filter that
 derives the pool of questions belonging to a set of selected topics.
 The bank is loaded once from a JSON file; here it is simply a value.
 */
module Bank {

  type TopicId = string
  type QuestionId = string

  /**
   A subject category, as listed in the bank's `topics` array. `title` holds
   the JSON field `label`, a word Dafny reserves.
   */
  datatype Topic = Topic(id: TopicId, title: string)

  /** One multiple-choice question; `answerIndex` is a 0-based index into `options`. */
  datatype Question = Question(
    id: QuestionId,
    topic: TopicId,
    question: string,
    options: seq<string>,
    answerIndex: int,
    explanation: string)

  datatype QuestionBank = QuestionBank(topics: seq<Topic>, questions: seq<Question>)

  /** The ids of a list of topics. */
  function TopicIds(topics: seq<Topic>): set<TopicId>
  {
    set t | t in topics :: t.id
  }

  /** The ids of a list of questions. */
  function QuestionIds(qs: seq<Question>): set<QuestionId>
  {
    set q | q in qs :: q.id
  }

  /** No two positions of `qs` carry the same question id. */
  predicate DistinctIds(qs: seq<Question>)
  {
    forall i, j :: 0 <= i < j < |qs| ==> qs[i].id != qs[j].id
  }

  /** No two positions of `topics` carry the same topic id. */
  predicate DistinctTopicIds(topics: seq<Topic>)
  {
    forall i, j :: 0 <= i < j < |topics| ==> topics[i].id != topics[j].id
  }

  /** The answer key of a question points at one of its options. */
  predicate WellFormedQuestion(q: Question)
  {
    0 <= q.answerIndex < |q.options|
  }

  /** What the model assumes of the loaded bank: distinct question ids and valid answer keys. */
  predicate WellFormed(b: QuestionBank)
  {
    && DistinctIds(b.questions)
    && forall q :: q in b.questions ==> WellFormedQuestion(q)
  }

  /**
   The pool: the questions of the bank whose topic is selected
   (`questions.filter(q => selectedTopics.has(q.topic))`).
   A question occurs in the pool exactly as often as in the bank when its topic
   is selected, and not at all otherwise.
   */
  function Pool(questions: seq<Question>, selected: set<TopicId>): (pool: seq<Question>)
    ensures |pool| <= |questions|
    ensures forall q :: q in pool <==> q in questions && q.topic in selected
    ensures forall q :: multiset(pool)[q] == if q.topic in selected then multiset(questions)[q] else 0
    decreases |questions|
  {
    if |questions| == 0 then []
    else
      var rest := Pool(questions[1..], selected);
      assert questions == [questions[0]] + questions[1..];
      if questions[0].topic in selected then [questions[0]] + rest else rest
  }

  /** The number of questions available for the selected topics. */
  function PoolSize(questions: seq<Question>, selected: set<TopicId>): (n: nat)
    ensures n == 0 <==> forall q :: q in questions ==> q.topic !in selected
    ensures n <= |questions|
  {
    var pool := Pool(questions, selected);
    assert |pool| > 0 ==> pool[0] in pool;
    |pool|
  }

  /** Dropping the first question keeps ids distinct, and no later question shares the first one's id. */
  lemma DistinctTail(qs: seq<Question>)
    requires |qs| > 0
    ensures DistinctIds(qs) ==> DistinctIds(qs[1..])
    ensures DistinctIds(qs) ==> forall q :: q in qs[1..] ==> q.id != qs[0].id
  {
    if DistinctIds(qs) {
      var tail := qs[1..];
      forall i, j | 0 <= i < j < |tail| ensures tail[i].id != tail[j].id {
        assert tail[i] == qs[i + 1] && tail[j] == qs[j + 1];
      }
      forall q | q in tail ensures q.id != qs[0].id {
        var k :| 0 <= k < |tail| && tail[k] == q;
        assert qs[k + 1] == q;
      }
    }
  }

  /** Putting a question with a fresh id in front keeps ids distinct. */
  lemma DistinctCons(h: Question, rest: seq<Question>)
    ensures DistinctIds(rest) && (forall q :: q in rest ==> q.id != h.id) ==> DistinctIds([h] + rest)
  {
    if DistinctIds(rest) && forall q :: q in rest ==> q.id != h.id {
      var qs := [h] + rest;
      forall i, j | 0 <= i < j < |qs| ensures qs[i].id != qs[j].id {
        assert qs[j] == rest[j - 1];
        if i > 0 {
          assert qs[i] == rest[i - 1];
        }
      }
    }
  }

  /** Filtering keeps question ids distinct. */
  lemma {:induction false} PoolDistinct(questions: seq<Question>, selected: set<TopicId>)
    requires DistinctIds(questions)
    ensures DistinctIds(Pool(questions, selected))
    decreases |questions|
  {
    if |questions| > 0 {
      DistinctTail(questions);
      PoolDistinct(questions[1..], selected);
      DistinctCons(questions[0], Pool(questions[1..], selected));
    }
  }

  /** Distinct ids make the id set exactly as large as the sequence. */
  lemma {:induction false} DistinctIdsCardinality(qs: seq<Question>)
    requires DistinctIds(qs)
    ensures |QuestionIds(qs)| == |qs|
    decreases |qs|
  {
    if |qs| > 0 {
      var tail := qs[1..];
      DistinctTail(qs);
      DistinctIdsCardinality(tail);
      assert qs == [qs[0]] + tail;
      assert QuestionIds(qs) == {qs[0].id} + QuestionIds(tail);
      assert qs[0].id !in QuestionIds(tail);
    }
  }

  /** Dropping the first topic keeps ids distinct, and no later topic shares the first one's id. */
  lemma DistinctTopicTail(topics: seq<Topic>)
    requires |topics| > 0
    ensures DistinctTopicIds(topics) ==> DistinctTopicIds(topics[1..])
    ensures DistinctTopicIds(topics) ==> forall t :: t in topics[1..] ==> t.id != topics[0].id
  {
    if DistinctTopicIds(topics) {
      var tail := topics[1..];
      forall i, j | 0 <= i < j < |tail| ensures tail[i].id != tail[j].id {
        assert tail[i] == topics[i + 1] && tail[j] == topics[j + 1];
      }
      forall t | t in tail ensures t.id != topics[0].id {
        var k :| 0 <= k < |tail| && tail[k] == t;
        assert topics[k + 1] == t;
      }
    }
  }

  /** Distinct topic ids make the id set exactly as large as the topic list. */
  lemma {:induction false} DistinctTopicIdsCardinality(topics: seq<Topic>)
    requires DistinctTopicIds(topics)
    ensures |TopicIds(topics)| == |topics|
    decreases |topics|
  {
    if |topics| > 0 {
      var tail := topics[1..];
      DistinctTopicTail(topics);
      DistinctTopicIdsCardinality(tail);
      assert topics == [topics[0]] + tail;
      assert TopicIds(topics) == {topics[0].id} + TopicIds(tail);
      assert topics[0].id !in TopicIds(tail);
    }
  }

  /** A subset as large as its superset is the superset. */
  lemma SubsetOfEqualSize<T>(a: set<T>, b: set<T>)
    requires a <= b && |a| == |b|
    ensures a == b
  {
    assert |b - a| == |b| - |a|;
  }
}
