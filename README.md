# Quiz session controller, modelled in Dafny

This project models the session logic of `QuizApp`, a browser quiz widget.
The widget presents multiple-choice questions one at a time. Each question
has a 30-second countdown. A correct pick scores 10 points. After the last
question a results screen shows the score, a rounded percentage and a
performance tier. Everything that touches the page is left out. What remains
is the controller's fields and the handlers that update them.

Files:

- `scoring.dfy`, module `Scoring`: the rounded percentage and the
  performance tier shown on the results screen. These are pure functions.
- `session.dfy`, module `Session`: the session state as a value, with one
  transition function per handler. It also holds the session invariant
  `Inv` and the lemmas: single steps, runs of arbitrary events, the
  countdown over many ticks, and a whole quiz played to the end.
- `quiz_app.dfy`, module `App`: class `QuizApp` with the source's fields.
  Each handler is a method that updates those fields in place.
  - The state-changing methods (the constructor, `DisplayQuestion`,
    `StartTimer`, `Tick`, `TimeUp`, `SelectAnswer`, `NextQuestion` and
    `RestartQuiz`) each ensure `State() == Session.<Transition>(old(State()))`.
  - The constructor and the four handlers `Tick`, `SelectAnswer`,
    `NextQuestion` and `RestartQuiz` also keep `Valid()`, which is `Inv`
    over the fields.
  - `DisplayQuestion`, `StartTimer` and `TimeUp` are internal steps and
    promise only their transition. For example, starting the timer on an
    answered question would break `Inv`, and no handler does that.
  - `ShowResults` changes nothing and returns the results summary.

Modelling choices:

- The countdown interval is the boolean field `timerRunning`. One firing of
  the interval callback is the method `Tick`, which requires a live
  interval, as the host only fires registered intervals.
- The question set is a constructor argument. The constructor requires it
  to be non-empty, because `displayQuestion` reads `questions[0]` at once.
  It also requires each `correct` index to name one of its options, because
  `highlightAnswers` reads that option's button. The constructor then does
  what a successful load does: it displays the first question.
- The percentage `Math.round((c / n) * 100)` is computed in integers as
  `(200c + n) / (2n)`, which is rounding half up. Its contract states that
  the result is the integer nearest to `100c / n`.

Where the code differs from what one would expect, the model follows the code:

- `timeUp` only clears the interval and shows feedback (script.js:109-114).
  It does not set `isAnswered` and does not touch the counters. So the
  controller itself would still score a click that arrives after the
  countdown ran out. The page blocks such clicks by disabling the option
  buttons. `Session.AnswerAfterTimeUpStillScores` states this.
- `nextQuestion` has no `isAnswered` guard (script.js:160-161).
- `isAnswered` is cleared only in `displayQuestion`, after the timer starts
  (script.js:79-80).

## Model

| member | source | states |
|---|---|---|
| `Scoring.Percentage` | script.js:176 | The result is the integer nearest to 100·correct/total, rounding half up. It is non-negative, and at most 100 when correct ≤ total. |
| `Scoring.PerformanceTier` | script.js:185-204 | The tier is the highest one whose threshold (90, 70, 50, none for the lowest) the percentage reaches. So the choice is total and unique. |
| `Scoring.Summarize` | script.js:172-204 | The results screen shows the score and correct count unchanged. The percentage is `Percentage(correct, total)`, the nearest integer to 100·correct/total, and lies in 0..100. The tier is `PerformanceTier` of that percentage: the best tier it qualifies for. The heading and message are that tier's `Title` and `Text`. |
| `Scoring.Title` | script.js:188-203 | No contract of its own. It gives the heading written for each tier, and `Scoring.Summarize` ties it to the chosen tier. |
| `Scoring.Text` | script.js:188-203 | No contract of its own. It gives the message written for each tier, and `Scoring.Summarize` ties it to the chosen tier. |
| `Scoring.PercentageMonotone` | script.js:176 | More correct answers never give a lower percentage. |
| `Scoring.PercentageExtremes` | script.js:176 | No correct answers give 0 %. All correct give 100 %. |
| `Scoring.TierMonotone` | script.js:188-200 | A higher percentage never gives a lower tier. |
| `Session.StartTimer` | script.js:90-92 | No contract of its own. It sets the countdown to 30 with a live interval. `App.QuizApp.StartTimer` follows it. |
| `Session.DisplayQuestion` | script.js:64-81 | No contract of its own. It requires the current index to name a question, since the question is read first. It starts the countdown and then clears the answered flag. `App.QuizApp.DisplayQuestion` ensures the result is fresh. |
| `Session.Initial` | script.js:4-11 | No contract of its own. It requires a non-empty question set, and gives the field initialisers followed by the first display. It is characterised by `Session.InitialState`. |
| `Session.TimeUp` | script.js:109-114 | No contract of its own. It clears the live interval. It is characterised by `Session.TimeUpKeepsScore`. |
| `Session.Tick` | script.js:94-101 | No contract of its own. It requires a live interval. It is characterised by `Session.TickStep` and `Session.TickKeepsInv`. |
| `Session.SelectAnswer` | script.js:116-131 | No contract of its own. It requires the question to be answered or the index to name a question, because the source reads the current question's correct index. It is characterised by `Session.SelectAnswerIgnoredWhenAnswered`, `Session.SelectAnswerFirst`, `Session.SelectAnswerIdempotent` and `Session.SelectAnswerKeepsInv`. |
| `Session.AnswerFeedback` | script.js:116-133 | No contract of its own. It has the same requires as `Session.SelectAnswer`. It gives the feedback the click shows: none when ignored, otherwise correct or incorrect. It is characterised by `Session.SelectAnswerIgnoredWhenAnswered` and `Session.SelectAnswerFirst`. |
| `Session.NextQuestion` | script.js:160-170 | No contract of its own. It requires the index to name a question, so Next is pressed on a question and not on the results screen. It is characterised by `Session.NextQuestionStep` and `Session.NextQuestionKeepsInv`. |
| `Session.RestartQuiz` | script.js:206-214 | No contract of its own. It requires a non-empty question set, because the first question is displayed again. It is characterised by `Session.RestartResets`. |
| `Session.Enabled` | script.js:216-220 | No contract of its own. It says when each button press, option click or timer firing can be handled: each handler's requires. |
| `Session.Apply` | script.js:216-220 | No contract of its own. It dispatches an event to its handler's transition. It is characterised by `Session.ApplyKeepsInv`. |
| `Session.Run` | script.js:216-220 | No contract of its own. It applies a sequence of events in order and drops those `Session.Enabled` rejects. It is characterised by `Session.RunKeepsInv` and `Session.ReachableScore`. |
| `Session.Matches` | script.js:122-127 | The number of responses that pick their question's correct option. It is at most the number of responses. |
| `Session.InitialState` | script.js:5-11 | After loading, the session is at question 0 with no points. The question is fresh: unanswered, countdown at 30 and running. The invariant holds. |
| `Session.SelectAnswerIgnoredWhenAnswered` | script.js:116-117 | On an answered question, a click changes nothing and shows no feedback. |
| `Session.SelectAnswerFirst` | script.js:116-133 | The first click stops the countdown and marks the question answered. It adds exactly 10 points and 1 correct answer if and only if the pick is the correct option, and otherwise leaves both counters. It keeps the index and remaining time. The feedback is "correct" exactly when the pick is right. |
| `Session.SelectAnswerIdempotent` | script.js:116-120 | Answering twice in a row has the same effect as answering once. |
| `Session.TickStep` | script.js:94-101 | A tick removes exactly one second and changes nothing else except the interval. It stops the interval exactly when the second removed was the last one. |
| `Session.TimeUpKeepsScore` | script.js:109-114 | Time up stops the countdown. Index, score, correct count, answered flag and remaining time are unchanged. |
| `Session.NextQuestionStep` | script.js:160-170 | Next advances the index by exactly one and keeps the counters. It lands on a fresh question if one remains. Otherwise it lands on the results screen with index equal to the number of questions. |
| `Session.RestartResets` | script.js:206-214 | Restart works from any state, the results screen included. It yields index 0, score 0, correct count 0 and a fresh question, and re-establishes the invariant. |
| `Session.SelectAnswerKeepsInv` | script.js:116-131 | A click preserves the invariant, including score = 10 × correct answers. |
| `Session.TickKeepsInv` | script.js:94-114 | A tick, including the time-up step, preserves the invariant. |
| `Session.NextQuestionKeepsInv` | script.js:160-170 | Next preserves the invariant. |
| `Session.InvBounds` | script.js:117-127 | Under the invariant, a shown question has correct answers ≤ index + 1. Correct answers never exceed the number of questions. Completion means index equals the number of questions. |
| `Session.ApplyKeepsInv` | script.js:216-220 | Every event that can be handled preserves the invariant. |
| `Session.RunKeepsInv` | script.js:64-214 | Any sequence of deliverable clicks, ticks, Next and Restart presses preserves the invariant. |
| `Session.ReachableScore` | script.js:7-10 | For a well-formed question set, in every state reachable from the start, score = 10 × correct answers, and 0 ≤ correct answers ≤ number of questions. |
| `Session.Ticks` | script.js:94-114 | Any number of ticks leaves the index, score, correct count and answered flag unchanged. |
| `Session.TicksCountDown` | script.js:91-101 | Before the last second, k ticks remove exactly k seconds and the countdown keeps running. |
| `Session.TicksExpire` | script.js:94-114 | The tick that removes the last second runs time up: the countdown stops at 0. Further ticks do nothing. |
| `Session.FreshQuestionTimesOutOnLastTick` | script.js:90-101 | On a fresh question left alone, the countdown is still running after 29 ticks. The 30th tick runs time up. |
| `Session.AnswerAfterTimeUpStillScores` | script.js:109-127 | After time up, the question is still unanswered. A correct pick arriving later still adds a correct answer. |
| `Session.PlayOutcome` | script.js:116-170 | Resolve each remaining question by a pick or a timeout, then press Next. This ends with index equal to the number of questions. Correct answers and score rise by exactly one and ten per correct pick. |
| `Session.PlayFromStart` | script.js:116-183 | A whole quiz played from the start with one response per question completes. The correct count is exactly the number of correct picks, at most the number of questions, and the score is ten times it. |
| `App.QuizApp.constructor` | script.js:4-11 | Initial fields, then the first question is displayed: index 0, no points, unanswered, countdown 30 and running, invariant established. |
| `App.QuizApp.DisplayQuestion` | script.js:64-81 | Starts the countdown, then clears the answered flag. The result is a fresh question. |
| `App.QuizApp.StartTimer` | script.js:90-92 | Sets the time left to 30 and registers the interval. |
| `App.QuizApp.Tick` | script.js:94-101 | Decrements the time left by exactly one. It returns the time-up feedback, and stops the countdown, exactly on the tick that removes the last second. It keeps the invariant. |
| `App.QuizApp.TimeUp` | script.js:109-114 | Stops the countdown and signals "time's up". No other field changes. |
| `App.QuizApp.SelectAnswer` | script.js:116-139 | Follows `Session.SelectAnswer`: a no-op once answered. The first click stops the countdown, sets answered, and scores a correct pick. It returns the matching feedback and keeps the invariant. |
| `App.QuizApp.NextQuestion` | script.js:160-170 | Advances the index by one. Then either a fresh question with no summary, or the results summary with index equal to the number of questions. It keeps the invariant. |
| `App.QuizApp.ShowResults` | script.js:172-204 | Changes nothing. It returns the `Scoring.Summarize` summary of the fields: the score, which is 10 × the correct count, and the correct count, which is at most the number of questions. The percentage is `Percentage` of the correct count and the number of questions, the rounded share, in 0..100. It also returns the tier with its heading and message. |
| `App.QuizApp.RestartQuiz` | script.js:206-214 | Index, score and correct count become 0, and a fresh question is displayed, from any state. It keeps the invariant. |

## Left out

- All page manipulation is left out: element lookups, option buttons, `updateUI`, `updateTimerDisplay` and its colour, `showFeedback`, `highlightAnswers`, `disableOptions`, `hideLoading`, `showQuiz`, and the `alert` in `showError`. The feedback line and the results summary are returned as values instead of being written into the page.
- `loadQuestions` is left out: it fetches and parses a JSON file over the network. The question set is a constructor argument, and the load-failure path is not modelled.
- `setupEventListeners` is left out. Its wiring of buttons to handlers is modelled as the `Event` values of `Session.Run`.
- Browser timers are reduced to the `timerRunning` flag. In the source, starting a countdown while one is registered creates a second interval and forgets the first. That happens when Next or Restart is pressed during a running countdown, which the page's hidden buttons normally prevent. The single flag does not count such leaked intervals or their later ticks.
- `toggleTheme`, `loadTheme`, `saveProgress`, `loadProgress` and `clearProgress` are left out: they depend on browser storage and JSON.
- `playSound` is left out: it is an empty stub.
- The progress-bar width is left out: it is floating-point arithmetic.
- `Scoring.Percentage`: does not model float rounding of `(c / n) * 100`. Where the float product misses an exact .5 boundary, the source's result may differ by one from the exact half-up rounding modelled here.
- `App.QuizApp.NextQuestion`: requires a question on screen (index < number of questions). The source's Next button is hidden whenever the results screen shows, so a second press from the results screen, which would push the index past the end, is not modelled.
- `App.QuizApp.SelectAnswer`: requires an answered question or a question on screen. An unanswered click on the results screen would make the source throw while reading a missing question; such a click cannot reach it because the options are gone.
- `Session.Run`: drops three kinds of event that `Session.Enabled` rejects instead of modelling what the source does with them.
  - A Next press at index ≥ number of questions: the source moves the index past the end and shows the results again.
  - A timer firing with no live interval: the host never fires such a callback.
  - An unanswered option click at index = number of questions: the source throws while reading the missing question.
