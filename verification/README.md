# Exam session model

A Dafny model of the exam-session logic of a browser-based multiple-choice exam
simulator (`app.js`). The page loads a bank of questions grouped by topic. The
user picks topics and starts an exam of at most 20 questions drawn from a
shuffled pool. The user answers, hands the exam in, and sees a graded score.
Everything that is not a DOM call is modelled as pure transitions of an
immutable `Session` value:

- `bank.dfy` (module `Bank`): topics, questions, the bank, and the pool filter.
- `state.dfy` (module `State`): the `Session` record, the start button's state, and the invariant `Valid`. Every session reachable on a well-formed bank keeps it when reset is the corrected `Exam.Reset`; the program as written can leave it (see "## Findings"). `Valid` has two halves: `SetupValid` for the selection and the start button, and `ExamValid` for the drawn questions and the answers.
- `setup.dfy` (module `Setup`): toggling one topic, select-all / deselect-all, the shuffle, and starting an exam.
- `scoring.dfy` (module `Scoring`): correct-answer count, rounded percentage, and the pass mark.
- `exam.dfy` (module `Exam`): recording answers, the progress gate, submission, and reset.

The session also carries the start button's caption and `disabled` flag. The
source recomputes them only when a topic card or the select-all button is
clicked, and the start handler relies on the flag rather than on the
selection. This is what the finding below is about.

Rules the model follows:

- The session records which screen is on show (`State.View`). Starting an exam shows the exam screen; reset shows the setup screen again.
- A click on a control of the hidden screen, or on a disabled button, is no transition. Topic cards, select-all and start act only on the setup screen; answer options and submit act only on the exam screen.
- A declined confirmation is no transition. `Submit` and `Reset` take a `confirmed` flag for it.
- `CheckProgress` computes the "answered/total" counter and the submit button's `disabled` flag.

## Model

| member | source | states |
|---|---|---|
| Bank.Pool | app.js:101 | the pool holds exactly the bank's questions whose topic is selected, each as often as in the bank, and is no longer than the bank |
| Bank.PoolDistinct | app.js:101 | filtering a bank with distinct question ids gives a pool with distinct ids |
| Bank.PoolSize | app.js:72 | the pool size is 0 exactly when no question of the bank has a selected topic |
| State.UpdateStartButton | app.js:70-79 | the start button prompts for topics exactly when none is selected, otherwise shows the pool size; it is disabled exactly when no bank question belongs to a selected topic |
| State.InitialValid | app.js:4-10 | the empty session at page load (setup screen shown; nothing selected, drawn or answered; not submitted; start disabled) satisfies the session invariant |
| Setup.ToggleTopic | app.js:59-68 | on the setup screen, clicking a topic flips that id's membership and no other; the start button is refreshed; questions, answers and the submitted flag are untouched |
| Setup.ToggleTopicTwice | app.js:59-66 | toggling the same topic twice restores the selection, and the whole session when its button was up to date |
| Setup.ToggleTopicValid | app.js:59-68 | toggling a topic of the bank preserves the setup half of the invariant, and the whole invariant |
| Setup.ToggleAll | app.js:82-96 | on the setup screen, when the selection's size equals the number of topics the selection becomes empty; otherwise every listed topic is selected and nothing beyond the previous selection and the listed topics |
| Setup.ToggleAllSelectsOrClears | app.js:84-94 | on the setup screen, with distinct topic ids and only known topics selected, the size test is "everything selected": the button clears a full selection and otherwise selects exactly all topics |
| Setup.ToggleAllValid | app.js:82-96 | select-all / deselect-all preserves the setup half of the invariant, and the whole invariant |
| Setup.Shuffle | app.js:105 | the shuffled pool is a rearrangement of the pool (same multiset) and keeps ids distinct |
| Setup.StartExam | app.js:99-118 | a disabled button, or one on a hidden screen, changes nothing; otherwise the exam screen is shown and the exam has min(20, pool size) questions, all from the bank with a selected topic, a sub-multiset of the pool, with distinct ids; answers are empty, the exam is not submitted, the selection is kept; when the setup half of the invariant holds the exam is non-empty and that half is kept; for a well-formed bank and a non-empty pool the exam half is established, the exam on show being non-empty |
| Scoring.CorrectCount | app.js:203-211 | the number of correct answers is at most the number of answered questions and at most the total; it equals the total exactly when every answer is correct and is 0 exactly when none is; an unanswered question is wrong |
| Scoring.ScorePct | app.js:239 | the percentage is Math.round(100 * correct / total): the whole number p with 2·total·p <= 200·correct + total < 2·total·(p+1); it lies in 0..100, is 100 when all are correct and 0 when none is |
| Scoring.PassedIff | app.js:244 | the score is shown as passing (>= 60%) exactly when 200·correct >= 119·total |
| Scoring.Grade | app.js:202-244 | the report counts correct answers out of the total; an exam without questions gives NaN and is not passed; all correct gives 100%, none correct gives 0%; it passes exactly when 200·correct >= 119·total |
| Scoring.GradeExample | app.js:203-244 | keys 0,1,2 answered 0,1,0 give 2 correct of 3, 67%, passing |
| Exam.Answer | app.js:163-178 | off the exam screen or after submission an answer changes nothing; before, the chosen option is stored under the question id, overwriting an earlier choice, other entries are unchanged, and the answer count grows by one for a new question and not at all for an overwrite |
| Exam.AnswerValid | app.js:163-166 | answering a drawn question preserves the exam half of the invariant, and the whole invariant |
| Exam.CheckProgress | app.js:189-196 | the counter shows the number of answers and of questions, and submit is enabled when they agree; when only drawn questions (with distinct ids) have answers, the count never exceeds the total and submit is enabled exactly when every drawn question has an answer |
| Exam.CountsAgreeIffAllAnswered | app.js:190-195 | when only drawn questions with distinct ids have answers, answer count <= question count, with equality exactly when every drawn question is answered |
| Exam.Submit | app.js:199-211 | a declined confirmation, a button off the exam screen, hidden after submission or disabled leave the session unchanged; otherwise the session is marked submitted and nothing else changes, and the report grades the drawn questions against the answers |
| Exam.SubmitNeverNaN | app.js:199-244 | in a session keeping the exam half of the invariant, every submission that goes through gets a numeric percentage, because the exam on show is never empty; on the setup screen (page load included) submit does nothing |
| Exam.SubmitGraded | app.js:199-244 | submitting a valid exam on show with the button enabled grades it with a numeric percentage; later answers are ignored (app.js:164); the invariant is preserved |
| Exam.ResetAsWritten | app.js:253-261 | reset as written: after confirmation the setup screen is shown and the selection and answers are empty; the drawn questions, the submitted flag and the start button stay as they were |
| Exam.Reset | app.js:253-261 | corrected reset: as above, but the start button shows the topic prompt and is disabled; the session invariant is preserved |
| Exam.ResetThenSelectEnablesStart | app.js:253-261 | after the corrected reset, selecting the topic of any bank question enables the start button again, leaves no answers and gives a valid session |
| Exam.StaleStartButtonExample | app.js:253-261 | select, start, reset as written, start: the exam screen shows a second exam with no questions, the session breaks the invariant, submit is enabled at once, and the grade is NaN and failing |
| Exam.RefreshedStartButtonExample | app.js:253-261 | the same clicks with the corrected reset: the second start is ignored, the setup screen stays on show and the session stays valid |

## Findings

| source | as written | input that shows it | evidently intended | confidence | as-written member | corrected member |
|---|---|---|---|---|---|---|
| app.js:253-261 | reset clears the selection but never calls `updateStartButton`, so the start button stays enabled with its old caption | one topic with one question: select it, start, reset, click start again; this gives an exam with 0 questions, submit enabled at 0/0, score `NaN%` | reset refreshes the start button, which is then disabled with the topic prompt, so an exam always has at least one question | not executed; high (the handler and `renderSetupScreen` never touch `btnStart`) | Exam.StaleStartButtonExample | Exam.Reset |

## Left out

- Loading the bank (`init`, app.js:24-39) is asynchronous I/O and is left out. The bank is a parameter. `Bank.WellFormed` states what the model assumes of it: distinct question ids and `0 <= answer_index < |options|`.
- All DOM work is left out. This covers rendering, CSS classes, navigation dots, scrolling, the option highlighting, and the select-all button's caption.
- The button captions are modelled as `ChooseTopics` or `Available(count)`. Their literal texts are not modelled.
- The confirmation dialogs are a boolean parameter.
- The markup that gives the start button its state at page load is not part of this model. `State.Initial` assumes the setup screen is shown and the button starts disabled with the topic prompt.
- Setup.Shuffle: states only that the result is a rearrangement of the pool. The source sorts with a random comparator, and its distribution cannot be stated here. The model chooses each swap position arbitrarily. No claim is made about uniformity, or about every order being reachable.
- Setup.StartExam: states which questions and how many are drawn (a sub-multiset of the pool). It does not state which prefix of which order is taken, because the order comes from the shuffle.
- Scoring.ScorePct: uses the exact rational value, where the source computes `Math.round((correct / total) * 100)` in floating point. An argument that is not machine-checked says they agree for at most 20 questions. Hitting an exact half needs `200·correct = total·(2k+1)`, which forces a total of 8 or 16. For those totals `correct / total` is exact in binary. Every other quotient is at least `1/(2·total)` away from a half, far beyond double rounding error.
- Answer values are not checked against the number of options, because the page only offers existing options. `Valid` does not constrain them either.
- `Exam.AnswerValid` asks that the answered question is one of the drawn ones. The page attaches answer handlers only to drawn questions.
- Reset is not a return to the page-load session. It keeps the drawn questions and the submitted flag (app.js:257-258 clear only the selection and the answers), and the model keeps them too.
- An empty pool is never reported as an error: it only disables the start button (app.js:78).
- The shuffle is a sort with a random comparator (app.js:105), not a Fisher–Yates shuffle; see `Setup.Shuffle` above.
- The page markup that places the reset button is not part of this model. `Exam.Reset` and `Exam.ResetAsWritten` therefore act on either screen.
