/**
 Grading arithmetic: which answers are correct, how many, the rounded
 percentage and the pass mark used to colour the score bar.
 */
module Scoring {
  import opened Bank

  /** A score at or above this percentage is shown in the success colour. */
  const PassMark: nat := 60

  /**
   A question counts as correct when an answer is recorded for its id and that
   answer is the answer key. An unanswered question is never correct.
   */
  predicate IsCorrect(answers: map<QuestionId, nat>, q: Question)
  {
    q.id in answers && answers[q.id] == q.answerIndex
  }

  /** The number of questions of `qs` that have a recorded answer. */
  function AnsweredCount(qs: seq<Question>, answers: map<QuestionId, nat>): (n: nat)
    ensures n <= |qs|
    decreases |qs|
  {
    if |qs| == 0 then 0
    else (if qs[0].id in answers then 1 else 0) + AnsweredCount(qs[1..], answers)
  }

  /**
   The number of correctly answered questions. It is at most the number of
   answered ones, it equals the number of questions exactly when all are
   correct, and it is zero exactly when none is.
   */
  function CorrectCount(qs: seq<Question>, answers: map<QuestionId, nat>): (c: nat)
    ensures c <= AnsweredCount(qs, answers) <= |qs|
    ensures c == |qs| <==> forall q :: q in qs ==> IsCorrect(answers, q)
    ensures c == 0 <==> forall q :: q in qs ==> !IsCorrect(answers, q)
    decreases |qs|
  {
    if |qs| == 0 then 0
    else
      assert qs == [qs[0]] + qs[1..];
      (if IsCorrect(answers, qs[0]) then 1 else 0) + CorrectCount(qs[1..], answers)
  }

  /**
   `Math.round(100 * correct / total)` in integers: the result is the largest
   whole number not above `100 * correct / total + 1/2`, which is what the
   first ensures says after multiplying through by `2 * total`.
   */
  function ScorePct(correct: nat, total: nat): (pct: nat)
    requires 0 < total && correct <= total
    ensures 2 * total * pct <= 200 * correct + total < 2 * total * (pct + 1)
    ensures pct <= 100
    ensures correct == total ==> pct == 100
    ensures correct == 0 ==> pct == 0
  {
    var pct := (200 * correct + total) / (2 * total);
    RoundedBounds(correct, total, pct);
    pct
  }

  /** The facts about the integer rounding formula that `ScorePct` promises. */
  lemma RoundedBounds(correct: nat, total: nat, pct: nat)
    requires 0 < total && correct <= total
    requires pct == (200 * correct + total) / (2 * total)
    ensures 2 * total * pct <= 200 * correct + total < 2 * total * (pct + 1)
    ensures pct <= 100
    ensures correct == total ==> pct == 100
    ensures correct == 0 ==> pct == 0
  {
    DivBounds(200 * correct + total, 2 * total, pct);
    if pct > 100 {
      MulMonotone(2 * total, 101, pct);
      assert false;
    }
    if correct == total && pct < 100 {
      MulMonotone(2 * total, pct + 1, 100);
      assert false;
    }
    if correct == 0 && pct > 0 {
      MulMonotone(2 * total, 1, pct);
      assert false;
    }
  }

  /** The quotient `q` of `n` by `d` brackets `n` between `d * q` and `d * (q + 1)`. */
  lemma DivBounds(n: nat, d: nat, q: nat)
    requires d > 0 && q == n / d
    ensures d * q <= n < d * (q + 1)
  {
  }

  lemma MulMonotone(d: nat, a: nat, b: nat)
    requires a <= b
    ensures d * a <= d * b
  {
  }

  /** The score bar is green exactly when the rounded percentage reaches the pass mark. */
  predicate Passed(pct: nat)
  {
    pct >= PassMark
  }

  /**
   The pass mark in terms of counts: a rounded score reaches 60% exactly when
   `correct / total >= 0.595`, that is `200 * correct >= 119 * total`.
   */
  lemma PassedIff(correct: nat, total: nat)
    requires 0 < total && correct <= total
    ensures Passed(ScorePct(correct, total)) <==> 200 * correct >= 119 * total
  {
    var pct := ScorePct(correct, total);
    if pct >= 60 {
      MulMonotone(2 * total, 60, pct);
    } else {
      MulMonotone(2 * total, pct + 1, 60);
    }
  }

  /** JavaScript's `Math.round(NaN)` for an exam without questions, or a whole percentage. */
  datatype Percent = Percent(value: nat) | NaN

  /** What the dashboard shows after grading. */
  datatype Report = Report(correct: nat, total: nat, percent: Percent, passed: bool)

  /**
   Grades the drawn questions against the recorded answers. With no questions
   the division is `0 / 0`, the percentage is not a number and the bar is red.
   */
  function Grade(qs: seq<Question>, answers: map<QuestionId, nat>): (r: Report)
    ensures r.total == |qs| && r.correct == CorrectCount(qs, answers)
    ensures r.correct <= r.total
    ensures |qs| == 0 <==> r.percent == NaN
    ensures |qs| > 0 ==> r.percent == Percent(ScorePct(r.correct, r.total))
    ensures |qs| > 0 && (forall q :: q in qs ==> IsCorrect(answers, q)) ==> r.percent == Percent(100)
    ensures (forall q :: q in qs ==> !IsCorrect(answers, q)) ==> r.correct == 0
    ensures |qs| > 0 && (forall q :: q in qs ==> !IsCorrect(answers, q)) ==> r.percent == Percent(0)
    ensures r.passed <==> |qs| > 0 && 200 * r.correct >= 119 * r.total
  {
    var correct := CorrectCount(qs, answers);
    if |qs| == 0 then Report(correct, 0, NaN, false)
    else
      var pct := ScorePct(correct, |qs|);
      PassedIff(correct, |qs|);
      Report(correct, |qs|, Percent(pct), Passed(pct))
  }

  /**
   Three questions keyed 0, 1 and 2, answered 0, 1 and 0: two are correct and
   the rounded score is 67%, which passes.
   */
  lemma GradeExample()
    ensures
      var qs := [Question("a", "t", "", ["x", "y", "z"], 0, ""),
                 Question("b", "t", "", ["x", "y", "z"], 1, ""),
                 Question("c", "t", "", ["x", "y", "z"], 2, "")];
      Grade(qs, map["a" := 0, "b" := 1, "c" := 0]) == Report(2, 3, Percent(67), true)
  {
  }
}
