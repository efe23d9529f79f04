/**
  The quiz session as a value: the counters, the answered flag and the
  countdown of one QuizApp, with one function per transition. The class in
  module App updates its fields exactly as these functions say; the lemmas
  here state what the transitions promise and that every reachable state
  keeps the session invariant.
 */
module Session {

  /** Seconds a question may stay open. */
  const TimeLimit: int := 30

  /** Points added for a correct answer. */
  const PointsPerCorrect: int := 10

  /** A question as the controller sees it: its options and the index of the
      correct one. */
  datatype Question = Question(options: seq<string>, correct: int)

  /** The question set must be non-empty (the first question is read straight
      away) and each correct index must name one of its options. */
  predicate WellFormed(questions: seq<Question>) {
    |questions| > 0 &&
    forall k :: 0 <= k < |questions| ==> 0 <= questions[k].correct < |questions[k].options|
  }

  /** The session fields; `timerRunning` stands for a live countdown interval. */
  datatype State = State(
    currentQuestionIndex: int,
    score: int,
    correctAnswers: int,
    isAnswered: bool,
    timeLeft: int,
    timerRunning: bool)

  /** The feedback line shown after a question is resolved. */
  datatype Feedback = Correct | Incorrect | TimesUp

  datatype Option<T> = None | Some(value: T)

  /** The session invariant: counters in range, the score is ten points per
      correct answer, each question passed or answered so far adds at most one
      correct answer, and a running countdown has time left on an unanswered
      question. */
  predicate Inv(questions: seq<Question>, s: State) {
    0 <= s.currentQuestionIndex <= |questions| &&
    0 <= s.correctAnswers &&
    s.score == PointsPerCorrect * s.correctAnswers &&
    s.correctAnswers <= s.currentQuestionIndex
                        + (if s.isAnswered && s.currentQuestionIndex < |questions| then 1 else 0) &&
    0 <= s.timeLeft <= TimeLimit &&
    (s.timerRunning ==> 1 <= s.timeLeft && !s.isAnswered)
  }

  /** A question that has just been displayed: unanswered, full countdown. */
  predicate Fresh(s: State) {
    !s.isAnswered && s.timerRunning && s.timeLeft == TimeLimit
  }

  /** The session reached the results screen. */
  predicate Completed(questions: seq<Question>, s: State) {
    s.currentQuestionIndex >= |questions|
  }

  // Transitions, one per method of QuizApp.

  /** startTimer: a full countdown and a live interval. */
  function StartTimer(s: State): State {
    s.(timeLeft := TimeLimit, timerRunning := true)
  }

  /** displayQuestion: start the countdown, then clear the answered flag.
      The current question must exist: its text is read first. */
  function DisplayQuestion(questions: seq<Question>, s: State): State
    requires 0 <= s.currentQuestionIndex < |questions|
  {
    StartTimer(s).(isAnswered := false)
  }

  /** The state right after the questions are loaded: the field initialisers
      followed by the display of the first question. */
  function Initial(questions: seq<Question>): State
    requires |questions| > 0
  {
    DisplayQuestion(questions, State(0, 0, 0, false, TimeLimit, false))
  }

  /** timeUp: stop the countdown and nothing else. */
  function TimeUp(s: State): State {
    s.(timerRunning := false)
  }

  /** One firing of the countdown interval: one second less, and the time-up
      step once no time is left. */
  function Tick(s: State): State
    requires s.timerRunning
  {
    var t := s.(timeLeft := s.timeLeft - 1);
    if t.timeLeft <= 0 then TimeUp(t) else t
  }

  /** selectAnswer: ignored once the question is answered; otherwise stop the
      countdown, mark the question answered and score a correct choice. */
  function SelectAnswer(questions: seq<Question>, s: State, selectedIndex: int): State
    requires s.isAnswered || 0 <= s.currentQuestionIndex < |questions|
  {
    if s.isAnswered then s
    else
      var isCorrect := selectedIndex == questions[s.currentQuestionIndex].correct;
      s.(timerRunning := false, isAnswered := true,
         score := if isCorrect then s.score + PointsPerCorrect else s.score,
         correctAnswers := if isCorrect then s.correctAnswers + 1 else s.correctAnswers)
  }

  /** The feedback selectAnswer shows, if any. */
  function AnswerFeedback(questions: seq<Question>, s: State, selectedIndex: int): Option<Feedback>
    requires s.isAnswered || 0 <= s.currentQuestionIndex < |questions|
  {
    if s.isAnswered then None
    else if selectedIndex == questions[s.currentQuestionIndex].correct then Some(Correct)
    else Some(Incorrect)
  }

  /** nextQuestion: move on by one; display the next question if there is
      one, otherwise the session is on the results screen. */
  function NextQuestion(questions: seq<Question>, s: State): State
    requires 0 <= s.currentQuestionIndex < |questions|
  {
    var t := s.(currentQuestionIndex := s.currentQuestionIndex + 1);
    if t.currentQuestionIndex < |questions| then DisplayQuestion(questions, t) else t
  }

  /** restartQuiz: zero the position and the counters and display the first
      question again. */
  function RestartQuiz(questions: seq<Question>, s: State): State
    requires |questions| > 0
  {
    DisplayQuestion(questions, s.(currentQuestionIndex := 0, score := 0, correctAnswers := 0))
  }

  // Properties of single transitions.

  lemma InitialState(questions: seq<Question>)
    requires |questions| > 0
    ensures Inv(questions, Initial(questions)) && Fresh(Initial(questions))
    ensures var r := Initial(questions);
      r.currentQuestionIndex == 0 && r.score == 0 && r.correctAnswers == 0
  {
  }

  /** A second answer to the same question changes nothing. */
  lemma SelectAnswerIgnoredWhenAnswered(questions: seq<Question>, s: State, selectedIndex: int)
    requires s.isAnswered
    ensures SelectAnswer(questions, s, selectedIndex) == s
    ensures AnswerFeedback(questions, s, selectedIndex) == None
  {
  }

  /** The first answer stops the countdown, marks the question answered, and
      adds exactly ten points and one correct answer if and only if the
      choice is the correct one; position and remaining time are kept. */
  lemma SelectAnswerFirst(questions: seq<Question>, s: State, selectedIndex: int)
    requires !s.isAnswered && 0 <= s.currentQuestionIndex < |questions|
    ensures var r := SelectAnswer(questions, s, selectedIndex);
      var hit := selectedIndex == questions[s.currentQuestionIndex].correct;
      r.isAnswered && !r.timerRunning &&
      r.currentQuestionIndex == s.currentQuestionIndex && r.timeLeft == s.timeLeft &&
      r.score == s.score + (if hit then PointsPerCorrect else 0) &&
      r.correctAnswers == s.correctAnswers + (if hit then 1 else 0) &&
      (AnswerFeedback(questions, s, selectedIndex) == Some(Correct) <==> hit)
  {
  }

  /** Answering twice in a row is the same as answering once. */
  lemma SelectAnswerIdempotent(questions: seq<Question>, s: State, first: int, second: int)
    requires s.isAnswered || 0 <= s.currentQuestionIndex < |questions|
    ensures var r := SelectAnswer(questions, s, first);
      SelectAnswer(questions, r, second) == r
  {
  }

  /** A tick removes exactly one second, and reaches the time-up step exactly
      when that second was the last one. */
  lemma TickStep(s: State)
    requires s.timerRunning && s.timeLeft >= 1
    ensures Tick(s).timeLeft == s.timeLeft - 1
    ensures !Tick(s).timerRunning <==> s.timeLeft == 1
    ensures Tick(s).(timeLeft := s.timeLeft, timerRunning := true) == s
  {
  }

  /** Time up stops the countdown and keeps the score, the count of correct
      answers and the answered flag. */
  lemma TimeUpKeepsScore(s: State)
    ensures !TimeUp(s).timerRunning
    ensures TimeUp(s).(timerRunning := s.timerRunning) == s
  {
  }

  /** Moving on advances the index by exactly one, and lands either on a
      fresh question or on the results screen with the index equal to the
      number of questions. */
  lemma NextQuestionStep(questions: seq<Question>, s: State)
    requires 0 <= s.currentQuestionIndex < |questions|
    ensures var r := NextQuestion(questions, s);
      r.currentQuestionIndex == s.currentQuestionIndex + 1 &&
      r.score == s.score && r.correctAnswers == s.correctAnswers &&
      (r.currentQuestionIndex < |questions| ==> Fresh(r)) &&
      (!(r.currentQuestionIndex < |questions|) ==> r.currentQuestionIndex == |questions| && Completed(questions, r))
  {
  }

  /** Restarting from any state, the results screen included, yields the
      first question, fresh, with no points. */
  lemma RestartResets(questions: seq<Question>, s: State)
    requires |questions| > 0
    ensures var r := RestartQuiz(questions, s);
      r.currentQuestionIndex == 0 && r.score == 0 && r.correctAnswers == 0 &&
      Fresh(r) && Inv(questions, r)
  {
  }

  lemma SelectAnswerKeepsInv(questions: seq<Question>, s: State, selectedIndex: int)
    requires Inv(questions, s)
    requires s.isAnswered || s.currentQuestionIndex < |questions|
    ensures Inv(questions, SelectAnswer(questions, s, selectedIndex))
  {
  }

  lemma TickKeepsInv(questions: seq<Question>, s: State)
    requires Inv(questions, s) && s.timerRunning
    ensures Inv(questions, Tick(s))
  {
  }

  lemma NextQuestionKeepsInv(questions: seq<Question>, s: State)
    requires Inv(questions, s) && s.currentQuestionIndex < |questions|
    ensures Inv(questions, NextQuestion(questions, s))
  {
  }

  /** What Inv says about the count of correct answers: at most one per
      question shown, and never more than there are questions. */
  lemma InvBounds(questions: seq<Question>, s: State)
    requires Inv(questions, s)
    ensures s.currentQuestionIndex < |questions| ==> s.correctAnswers <= s.currentQuestionIndex + 1
    ensures s.correctAnswers <= |questions|
    ensures Completed(questions, s) ==> s.currentQuestionIndex == |questions|
  {
  }

  // Sessions driven by a sequence of events.

  /** What the app can deliver to the controller: a click on an option, one
      firing of the countdown, the Next button, the Restart button. */
  datatype Event = Choose(selectedIndex: int) | TimerTick | Next | Restart

  /** An event can be delivered in a state when its handler is defined there:
      an option click needs a question to read (or an answered one, which it
      ignores), a tick a live interval, Next a question on screen. */
  predicate Enabled(questions: seq<Question>, s: State, e: Event) {
    match e
    case Choose(_) => s.isAnswered || 0 <= s.currentQuestionIndex < |questions|
    case TimerTick => s.timerRunning
    case Next => 0 <= s.currentQuestionIndex < |questions|
    case Restart => |questions| > 0
  }

  function Apply(questions: seq<Question>, s: State, e: Event): State
    requires Enabled(questions, s, e)
  {
    match e
    case Choose(i) => SelectAnswer(questions, s, i)
    case TimerTick => Tick(s)
    case Next => NextQuestion(questions, s)
    case Restart => RestartQuiz(questions, s)
  }

  /** The state after a sequence of events; an event that cannot be
      delivered in the current state is dropped. */
  function Run(questions: seq<Question>, s: State, events: seq<Event>): State
    decreases |events|
  {
    if events == [] then s
    else
      var t := if Enabled(questions, s, events[0]) then Apply(questions, s, events[0]) else s;
      Run(questions, t, events[1..])
  }

  lemma ApplyKeepsInv(questions: seq<Question>, s: State, e: Event)
    requires Inv(questions, s) && Enabled(questions, s, e)
    ensures Inv(questions, Apply(questions, s, e))
  {
  }

  /** Every sequence of events keeps the invariant. */
  lemma {:induction false} RunKeepsInv(questions: seq<Question>, s: State, events: seq<Event>)
    requires Inv(questions, s)
    ensures Inv(questions, Run(questions, s, events))
    decreases |events|
  {
    if events != [] {
      var t := if Enabled(questions, s, events[0]) then Apply(questions, s, events[0]) else s;
      if Enabled(questions, s, events[0]) {
        ApplyKeepsInv(questions, s, events[0]);
      }
      RunKeepsInv(questions, t, events[1..]);
    }
  }

  /** In every state reachable from the start, the score is ten points per
      correct answer and there are no more correct answers than questions. */
  lemma ReachableScore(questions: seq<Question>, events: seq<Event>)
    requires WellFormed(questions)
    ensures var r := Run(questions, Initial(questions), events);
      r.score == PointsPerCorrect * r.correctAnswers &&
      0 <= r.correctAnswers <= |questions| &&
      0 <= r.currentQuestionIndex <= |questions|
  {
    InitialState(questions);
    RunKeepsInv(questions, Initial(questions), events);
    InvBounds(questions, Run(questions, Initial(questions), events));
  }

  // The countdown over several ticks.

  /** The state after up to k ticks; ticks stop once the interval is cleared. */
  function Ticks(s: State, k: nat): (r: State)
    ensures r.currentQuestionIndex == s.currentQuestionIndex
    ensures r.score == s.score && r.correctAnswers == s.correctAnswers
    ensures r.isAnswered == s.isAnswered
    decreases k
  {
    if k == 0 || !s.timerRunning then s else Ticks(Tick(s), k - 1)
  }

  /** Before the last second, k ticks remove exactly k seconds and leave the
      countdown running. */
  lemma {:induction false} TicksCountDown(s: State, k: nat)
    requires s.timerRunning && k < s.timeLeft
    ensures Ticks(s, k) == s.(timeLeft := s.timeLeft - k)
    decreases k
  {
    if k > 0 {
      TicksCountDown(Tick(s), k - 1);
    }
  }

  /** The tick that uses up the last second runs the time-up step; later
      ticks do nothing. Score, correct answers and the answered flag stay. */
  lemma {:induction false} TicksExpire(s: State, k: nat)
    requires s.timerRunning && 1 <= s.timeLeft <= k
    ensures Ticks(s, k) == s.(timeLeft := 0, timerRunning := false)
    decreases k
  {
    if s.timeLeft > 1 {
      TicksExpire(Tick(s), k - 1);
    }
  }

  /** On a freshly displayed question left alone, the countdown runs through
      29 ticks and the 30th is the one that reaches the time-up step. */
  lemma FreshQuestionTimesOutOnLastTick(s: State)
    requires Fresh(s)
    ensures Ticks(s, TimeLimit - 1).timerRunning
    ensures Ticks(s, TimeLimit) == s.(timeLeft := 0, timerRunning := false)
  {
    TicksCountDown(s, TimeLimit - 1);
    TicksExpire(s, TimeLimit);
  }

  /** Time up leaves the question unanswered, so a click that arrives after
      the countdown ran out is still scored: picking the correct option then
      adds ten points and one correct answer. */
  lemma AnswerAfterTimeUpStillScores(questions: seq<Question>, s: State)
    requires Fresh(s) && 0 <= s.currentQuestionIndex < |questions|
    ensures var late := Ticks(s, TimeLimit);
      !late.isAnswered && !late.timerRunning &&
      SelectAnswer(questions, late, questions[s.currentQuestionIndex].correct).correctAnswers
        == s.correctAnswers + 1
  {
    TicksExpire(s, TimeLimit);
  }

  // Playing a whole quiz.

  /** How a question is resolved: by clicking an option or by letting the
      countdown run out. */
  datatype Response = Pick(option: int) | LetExpire

  function Resolve(questions: seq<Question>, s: State, r: Response): State
    requires 0 <= s.currentQuestionIndex < |questions|
  {
    match r
    case Pick(i) => SelectAnswer(questions, s, i)
    case LetExpire => Ticks(s, TimeLimit)
  }

  /** Resolve the current question with each response in turn, pressing Next
      after each. */
  function Play(questions: seq<Question>, s: State, responses: seq<Response>): State
    requires 0 <= s.currentQuestionIndex && s.currentQuestionIndex + |responses| <= |questions|
    decreases |responses|
  {
    if responses == [] then s
    else Play(questions, NextQuestion(questions, Resolve(questions, s, responses[0])), responses[1..])
  }

  /** The number of responses that pick the correct option of the question
      they answer, the first answering question `from`. */
  function Matches(questions: seq<Question>, from: nat, responses: seq<Response>): (r: nat)
    requires from + |responses| <= |questions|
    ensures r <= |responses|
    decreases |responses|
  {
    if responses == [] then 0
    else (if responses[0] == Pick(questions[from].correct) then 1 else 0)
         + Matches(questions, from + 1, responses[1..])
  }

  /** Resolving every remaining question once and pressing Next after each
      ends on the results screen, having gained one correct answer and ten
      points for each correct pick and nothing for a wrong pick or a timeout. */
  lemma {:induction false} PlayOutcome(questions: seq<Question>, s: State, responses: seq<Response>)
    requires 0 <= s.currentQuestionIndex && s.currentQuestionIndex + |responses| == |questions|
    requires s.currentQuestionIndex < |questions| ==> Fresh(s)
    ensures var f := Play(questions, s, responses);
      f.currentQuestionIndex == |questions| &&
      f.correctAnswers == s.correctAnswers + Matches(questions, s.currentQuestionIndex, responses) &&
      f.score == s.score + PointsPerCorrect * Matches(questions, s.currentQuestionIndex, responses)
    decreases |responses|
  {
    if responses != [] {
      var t := Resolve(questions, s, responses[0]);
      if responses[0] == LetExpire {
        TicksExpire(s, TimeLimit);
      }
      var n := NextQuestion(questions, t);
      PlayOutcome(questions, n, responses[1..]);
    }
  }

  /** A whole quiz played from the start, one response per question, ends on
      the results screen; the percentage shown counts exactly the correct picks. */
  lemma PlayFromStart(questions: seq<Question>, responses: seq<Response>)
    requires |responses| == |questions| > 0
    ensures var f := Play(questions, Initial(questions), responses);
      Completed(questions, f) && f.currentQuestionIndex == |questions| &&
      f.correctAnswers == Matches(questions, 0, responses) &&
      f.score == PointsPerCorrect * f.correctAnswers &&
      f.correctAnswers <= |questions|
  {
    PlayOutcome(questions, Initial(questions), responses);
  }
}
