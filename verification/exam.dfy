/**
 The exam phase: recording answers, the progress gate on submission, grading,
 and the reset back to topic selection.
 */
module Exam {
  import opened Bank
  import opened State
  import opened Setup
  import opened Scoring

  /**
   Choosing option `optIdx` of question `q` on the exam screen. Once the exam
   has been handed in nothing changes; before that the choice is recorded
   under the question's id, replacing any earlier choice for it, and every
   other entry stays.
   */
  function Answer(s: Session, q: Question, optIdx: nat): (r: Session)
    ensures s.view != ExamView || s.isSubmitted ==> r == s
    ensures s.view == ExamView && !s.isSubmitted ==>
              && q.id in r.answers && r.answers[q.id] == optIdx
              && (forall k :: k != q.id ==> (k in r.answers <==> k in s.answers))
              && (forall k :: k != q.id && k in s.answers ==> r.answers[k] == s.answers[k])
              && r == s.(answers := r.answers)
    ensures q.id in s.answers ==> |r.answers| == |s.answers|
    ensures q.id !in s.answers && s.view == ExamView && !s.isSubmitted ==> |r.answers| == |s.answers| + 1
  {
    if s.view != ExamView || s.isSubmitted then s
    else s.(answers := s.answers[q.id := optIdx])
  }

  /** Answering one of the drawn questions keeps a session valid. */
  lemma AnswerValid(b: QuestionBank, s: Session, q: Question, optIdx: nat)
    requires ExamValid(b, s) && q in s.currentQuestions
    ensures ExamValid(b, Answer(s, q, optIdx))
    ensures Valid(b, s) ==> Valid(b, Answer(s, q, optIdx))
  {
  }

  /** The "answered/total" counter and whether the submit button is enabled. */
  datatype Progress = Progress(answered: nat, total: nat, submitEnabled: bool)

  /**
   The counter shows how many answers are recorded out of how many questions,
   and the submit button is enabled when the two agree. As long as only drawn
   questions, with distinct ids, have answers, the count never exceeds the
   total and the two agree exactly when every drawn question has an answer.
   */
  function CheckProgress(s: Session): (p: Progress)
    ensures p.answered == |s.answers| && p.total == |s.currentQuestions|
    ensures p.submitEnabled <==> p.answered == p.total
    ensures AnswersForDrawn(s) ==> p.answered <= p.total
    ensures AnswersForDrawn(s) ==> (p.submitEnabled <==> forall q :: q in s.currentQuestions ==> q.id in s.answers)
  {
    CountsAgreeIffAllAnswered(s);
    Progress(|s.answers|, |s.currentQuestions|, |s.answers| == |s.currentQuestions|)
  }

  /**
   Comparing the number of answers with the number of questions is the same as
   asking that every drawn question has an answer, because answers are kept
   only for drawn questions and drawn questions have distinct ids.
   */
  lemma {:induction false} CountsAgreeIffAllAnswered(s: Session)
    ensures AnswersForDrawn(s) ==> |s.answers| <= |s.currentQuestions|
    ensures AnswersForDrawn(s) ==>
              (|s.answers| == |s.currentQuestions| <==> forall q :: q in s.currentQuestions ==> q.id in s.answers)
  {
    if AnswersForDrawn(s) {
      DistinctIdsCardinality(s.currentQuestions);
      var ids := QuestionIds(s.currentQuestions);
      assert |s.answers| == |s.answers.Keys|;
      assert |ids - s.answers.Keys| == |ids| - |s.answers.Keys|;
      if |s.answers| == |s.currentQuestions| {
        SubsetOfEqualSize(s.answers.Keys, ids);
      }
      if forall q :: q in s.currentQuestions ==> q.id in s.answers {
        assert ids <= s.answers.Keys;
        assert s.answers.Keys == ids;
      }
    }
  }

  /** What a click on the submit button leads to. */
  datatype SubmitResult = Ignored(session: Session) | Graded(session: Session, report: Report)

  /**
   Clicking the submit button. It acts only while it is shown (the exam screen
   is on show and the exam has not been handed in), enabled (as many answers
   as questions) and the confirmation is accepted; then the exam is marked as
   handed in and graded.
   */
  function Submit(s: Session, confirmed: bool): (r: SubmitResult)
    ensures s.view != ExamView || s.isSubmitted || !CheckProgress(s).submitEnabled || !confirmed ==> r == Ignored(s)
    ensures s.view == ExamView && !s.isSubmitted && CheckProgress(s).submitEnabled && confirmed ==>
              && r.Graded?
              && r.session == s.(isSubmitted := true)
              && r.report == Grade(s.currentQuestions, s.answers)
  {
    if s.view != ExamView || s.isSubmitted || !CheckProgress(s).submitEnabled || !confirmed then Ignored(s)
    else Graded(s.(isSubmitted := true), Grade(s.currentQuestions, s.answers))
  }

  /**
   In a session that keeps the exam half of the invariant, the exam on show is
   never empty, so a submission that goes through always gets a numeric
   percentage; on the setup screen, at page load included, nothing is graded.
   */
  lemma SubmitNeverNaN(b: QuestionBank, s: Session, confirmed: bool)
    requires ExamValid(b, s)
    ensures Submit(s, confirmed).Graded? ==> Submit(s, confirmed).report.percent.Percent?
    ensures s.view == SetupView ==> Submit(s, confirmed) == Ignored(s)
  {
  }

  /**
   Handing in a valid exam whose submit button is shown and enabled grades it
   with a numeric percentage; afterwards answers are ignored and the session
   stays valid.
   */
  lemma SubmitGraded(b: QuestionBank, s: Session, q: Question, optIdx: nat)
    requires ExamValid(b, s) && s.view == ExamView
    requires !s.isSubmitted && CheckProgress(s).submitEnabled
    ensures Submit(s, true).Graded?
    ensures Submit(s, true).report.percent.Percent?
    ensures Answer(Submit(s, true).session, q, optIdx) == Submit(s, true).session
    ensures ExamValid(b, Submit(s, true).session)
    ensures Valid(b, s) ==> Valid(b, Submit(s, true).session)
  {
  }

  /**
   The reset button as the source writes it: after confirmation the setup
   screen is shown again and the selection and the answers are cleared. The
   drawn questions, the submitted flag and the start button are left as they
   were.
   */
  function ResetAsWritten(s: Session, confirmed: bool): (r: Session)
    ensures !confirmed ==> r == s
    ensures confirmed ==>
              && r.view == SetupView
              && r.selectedTopics == {} && r.answers == map[]
              && r.currentQuestions == s.currentQuestions && r.isSubmitted == s.isSubmitted
              && r.startButton == s.startButton
  {
    if confirmed then s.(selectedTopics := {}, answers := map[], view := SetupView) else s
  }

  /**
   The reset button with the start button refreshed for the now empty
   selection: it shows the topic prompt and is disabled, so no exam can be
   started until a topic with questions is selected again.
   */
  function Reset(b: QuestionBank, s: Session, confirmed: bool): (r: Session)
    ensures !confirmed ==> r == s
    ensures confirmed ==>
              && r.view == SetupView
              && r.selectedTopics == {} && r.answers == map[]
              && r.currentQuestions == s.currentQuestions && r.isSubmitted == s.isSubmitted
              && r.startButton == StartButton(ChooseTopics, true)
    ensures Valid(b, s) ==> Valid(b, r)
  {
    if confirmed then s.(selectedTopics := {}, answers := map[], startButton := UpdateStartButton(b, {}), view := SetupView)
    else s
  }

  /**
   After the corrected reset a new exam can be prepared: selecting the topic
   of any question of the bank enables the start button again, with no
   answers carried over.
   */
  lemma ResetThenSelectEnablesStart(b: QuestionBank, s: Session, q: Question)
    requires ExamValid(b, s) && q in b.questions && q.topic in TopicIds(b.topics)
    ensures var r := ToggleTopic(b, Reset(b, s, true), q.topic);
              && r.selectedTopics == {q.topic}
              && !r.startButton.disabled
              && r.answers == map[]
              && Valid(b, r)
  {
  }

  /** A bank with one topic and one question on it. */
  function OneQuestionBank(): (b: QuestionBank)
    ensures WellFormed(b)
  {
    QuestionBank([Topic("t", "T")], [Question("q", "t", "?", ["yes", "no"], 0, "")])
  }

  /**
   Select the only topic, start, reset as written, start again: the start
   button was never refreshed by the reset, so the second start goes through
   with nothing selected and yields an exam without questions. Its submit
   button is enabled at once (0 of 0 answered) and grading divides 0 by 0.
   */
  method StaleStartButtonExample() returns (exam: Session, outcome: SubmitResult)
    ensures exam.view == ExamView && exam.selectedTopics == {} && exam.currentQuestions == []
    ensures !Valid(OneQuestionBank(), exam)
    ensures CheckProgress(exam).submitEnabled
    ensures outcome.Graded? && outcome.report.percent == NaN && !outcome.report.passed
  {
    var b := OneQuestionBank();
    var s := ToggleTopic(b, Initial(), "t");
    assert b.questions[0] in b.questions;
    s := StartExam(b, s);
    s := ResetAsWritten(s, true);
    exam := StartExam(b, s);
    outcome := Submit(exam, true);
  }

  /**
   The same clicks with the corrected reset: the second start is ignored, the
   session stays valid and keeps the exam drawn before.
   */
  method RefreshedStartButtonExample() returns (exam: Session)
    ensures exam.view == SetupView && exam.selectedTopics == {} && exam.startButton.disabled
    ensures Valid(OneQuestionBank(), exam)
    ensures |exam.currentQuestions| == 1
  {
    var b := OneQuestionBank();
    InitialValid(b);
    var s := ToggleTopic(b, Initial(), "t");
    assert b.questions[0] in b.questions;
    s := StartExam(b, s);
    s := Reset(b, s, true);
    exam := StartExam(b, s);
  }
}
