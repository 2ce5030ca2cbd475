/**
 The session record the exam simulator keeps between user events: the selected
 topics, the questions drawn for the current exam, the answers given so far and
 whether the exam has been handed in.
 */
module State {
  import opened Bank

  /** At most this many questions are drawn for one exam. */
  const MaxQuestions: nat := 20

  /** The start button's caption: a prompt, or the number of available questions. */
  datatype StartLabel = ChooseTopics | Available(count: nat)

  /** What the start button shows and whether it can be clicked. */
  datatype StartButton = StartButton(caption: StartLabel, disabled: bool)

  /**
   Which of the two screens is shown. The topic cards, the select-all button
   and the start button live on the setup screen; the answer options and the
   submit button on the exam screen. A control on the hidden screen cannot be
   clicked.
   */
  datatype View = SetupView | ExamView

  /**
   One user's session. `answers` maps a question id to the index of the option
   chosen for it. `startButton` is the state of the start button: it is not
   part of the session record proper, but it decides whether a start can
   happen, and it is refreshed only when the selection is changed by a click
   on a topic or on the select-all button. `view` is the screen on show.
   */
  datatype Session = Session(
    selectedTopics: set<TopicId>,
    currentQuestions: seq<Question>,
    answers: map<QuestionId, nat>,
    isSubmitted: bool,
    startButton: StartButton,
    view: View)

  /**
   The session right after the page has loaded: the setup screen is shown and
   the start button begins disabled.
   */
  function Initial(): Session
  {
    Session({}, [], map[], false, StartButton(ChooseTopics, true), SetupView)
  }

  /**
   The start button as `updateStartButton` leaves it for a selection: it
   prompts for topics while none is selected, otherwise shows the pool size,
   and it is disabled exactly when no question of the bank belongs to a
   selected topic.
   */
  function UpdateStartButton(b: QuestionBank, selected: set<TopicId>): (r: StartButton)
    ensures r.disabled <==> forall q :: q in b.questions ==> q.topic !in selected
    ensures r.caption == ChooseTopics <==> selected == {}
    ensures r.caption.Available? ==> r.caption.count == |Pool(b.questions, selected)|
    ensures r.caption.Available? ==> (r.caption.count == 0 <==> r.disabled)
    ensures selected == {} ==> r.disabled
  {
    var poolSize := PoolSize(b.questions, selected);
    StartButton(if selected == {} then ChooseTopics else Available(poolSize), poolSize == 0)
  }

  /**
   The setup half of the invariant: only topics of the bank are selected, and
   the start button shows what `UpdateStartButton` computes for the current
   selection.
   */
  predicate SetupValid(b: QuestionBank, s: Session)
  {
    && s.selectedTopics <= TopicIds(b.topics)
    && s.startButton == UpdateStartButton(b, s.selectedTopics)
  }

  /** The drawn questions carry distinct ids and only they have answers. */
  predicate AnswersForDrawn(s: Session)
  {
    && DistinctIds(s.currentQuestions)
    && s.answers.Keys <= QuestionIds(s.currentQuestions)
  }

  /**
   The exam half of the invariant: the drawn questions come from the bank,
   carry distinct ids and number at most `MaxQuestions`, only drawn questions
   have answers, and an exam on show has at least one question.
   */
  predicate ExamValid(b: QuestionBank, s: Session)
  {
    && |s.currentQuestions| <= MaxQuestions
    && (forall q :: q in s.currentQuestions ==> q in b.questions)
    && AnswersForDrawn(s)
    && (s.view == ExamView ==> |s.currentQuestions| > 0)
  }

  /**
   The session invariant. Every session reachable on a well-formed bank keeps
   it when reset refreshes the start button; the reset as written can leave it.
   */
  predicate Valid(b: QuestionBank, s: Session)
  {
    SetupValid(b, s) && ExamValid(b, s)
  }

  /** The initial session is valid for every bank. */
  lemma InitialValid(b: QuestionBank)
    ensures Valid(b, Initial())
  {
  }
}
