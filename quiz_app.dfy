/**
  The QuizApp controller with its view stripped away: the session fields,
  updated in place by one method per handler. Each method's postcondition
  ties the new fields to the matching transition of module Session, whose
  lemmas carry the properties.
 */
module App {
  import Session
  import Scoring

  class QuizApp {
    /** The loaded question set; read-only after loading. */
    const questions: seq<Session.Question>
    var currentQuestionIndex: int
    var score: int
    var correctAnswers: int
    var isAnswered: bool
    var timeLeft: int
    /** Whether a countdown interval is registered. */
    var timerRunning: bool

    /** The fields as a Session.State value. */
    function State(): Session.State
      reads this
    {
      Session.State(currentQuestionIndex, score, correctAnswers, isAnswered, timeLeft, timerRunning)
    }

    ghost predicate Valid()
      reads this
    {
      Session.WellFormed(questions) && Session.Inv(questions, State())
    }

    /** Set the fields to their initial values, take the loaded questions and
        display the first one. */
    constructor (questions: seq<Session.Question>)
      requires Session.WellFormed(questions)
      ensures Valid() && this.questions == questions
      ensures State() == Session.Initial(questions)
      ensures currentQuestionIndex == 0 && score == 0 && correctAnswers == 0
      ensures !isAnswered && timerRunning && timeLeft == Session.TimeLimit
    {
      this.questions := questions;
      currentQuestionIndex := 0;
      score := 0;
      timeLeft := Session.TimeLimit;
      correctAnswers := 0;
      isAnswered := false;
      timerRunning := false;
      new;
      DisplayQuestion();
    }

    /** Show the current question: start its countdown, then clear the
        answered flag. */
    method DisplayQuestion()
      requires 0 <= currentQuestionIndex < |questions|
      modifies this
      ensures State() == Session.DisplayQuestion(questions, old(State()))
      ensures Session.Fresh(State())
    {
      StartTimer();
      isAnswered := false;
    }

    /** Reset the countdown to the full time and register the interval. */
    method StartTimer()
      modifies this
      ensures State() == Session.StartTimer(old(State()))
      ensures timeLeft == Session.TimeLimit && timerRunning
    {
      timeLeft := Session.TimeLimit;
      timerRunning := true;
    }

    /** One firing of the countdown interval. Returns the time-up feedback
        when this tick ran the time-up step. */
    method Tick() returns (feedback: Session.Option<Session.Feedback>)
      requires Valid() && timerRunning
      modifies this
      ensures Valid() && State() == Session.Tick(old(State()))
      ensures timeLeft == old(timeLeft) - 1
      ensures feedback == (if old(timeLeft) == 1 then Session.Some(Session.TimesUp) else Session.None)
      ensures timerRunning <==> feedback == Session.None
    {
      timeLeft := timeLeft - 1;
      feedback := Session.None;
      if timeLeft <= 0 {
        var timesUp := TimeUp();
        feedback := Session.Some(timesUp);
      }
      Session.TickKeepsInv(questions, old(State()));
    }

    /** Stop the countdown; the question stays unanswered and the counters
        stay as they are. */
    method TimeUp() returns (feedback: Session.Feedback)
      modifies this
      ensures State() == Session.TimeUp(old(State()))
      ensures feedback == Session.TimesUp
    {
      timerRunning := false;
      feedback := Session.TimesUp;
    }

    /** Handle a click on option `selectedIndex`. */
    method SelectAnswer(selectedIndex: int) returns (feedback: Session.Option<Session.Feedback>)
      requires Valid() && (isAnswered || currentQuestionIndex < |questions|)
      modifies this
      ensures Valid() && State() == Session.SelectAnswer(questions, old(State()), selectedIndex)
      ensures feedback == Session.AnswerFeedback(questions, old(State()), selectedIndex)
      ensures old(isAnswered) ==> State() == old(State())
      ensures !old(isAnswered) ==> isAnswered && !timerRunning
    {
      if isAnswered {
        return Session.None;
      }
      timerRunning := false;
      isAnswered := true;
      var correctIndex := questions[currentQuestionIndex].correct;
      var isCorrect := selectedIndex == correctIndex;
      if isCorrect {
        score := score + Session.PointsPerCorrect;
        correctAnswers := correctAnswers + 1;
        feedback := Session.Some(Session.Correct);
      } else {
        feedback := Session.Some(Session.Incorrect);
      }
      Session.SelectAnswerKeepsInv(questions, old(State()), selectedIndex);
    }

    /** Handle the Next button: advance, then display the next question or,
        after the last one, the results. */
    method NextQuestion() returns (summary: Session.Option<Scoring.Summary>)
      requires Valid() && currentQuestionIndex < |questions|
      modifies this
      ensures Valid() && State() == Session.NextQuestion(questions, old(State()))
      ensures currentQuestionIndex == old(currentQuestionIndex) + 1
      ensures currentQuestionIndex < |questions| ==> Session.Fresh(State()) && summary == Session.None
      ensures currentQuestionIndex >= |questions| ==>
                currentQuestionIndex == |questions| &&
                summary == Session.Some(Scoring.Summarize(score, correctAnswers, |questions|))
    {
      currentQuestionIndex := currentQuestionIndex + 1;
      if currentQuestionIndex < |questions| {
        DisplayQuestion();
        summary := Session.None;
        Session.NextQuestionKeepsInv(questions, old(State()));
      } else {
        Session.NextQuestionKeepsInv(questions, old(State()));
        var results := ShowResults();
        summary := Session.Some(results);
      }
    }

    /** The results screen: final score, rounded percentage, number of
        correct answers and performance tier. */
    method ShowResults() returns (summary: Scoring.Summary)
      requires Valid()
      ensures summary == Scoring.Summarize(score, correctAnswers, |questions|)
      ensures summary.finalScore == Session.PointsPerCorrect * summary.correctAnswers
      ensures summary.percentage == Scoring.Percentage(correctAnswers, |questions|)
      ensures 0 <= summary.percentage <= 100
      ensures summary.correctAnswers <= |questions|
    {
      Session.InvBounds(questions, State());
      summary := Scoring.Summarize(score, correctAnswers, |questions|);
    }

    /** Handle the Restart button: zero the position and counters and display
        the first question. */
    method RestartQuiz()
      requires Valid()
      modifies this
      ensures Valid() && State() == Session.RestartQuiz(questions, old(State()))
      ensures currentQuestionIndex == 0 && score == 0 && correctAnswers == 0
      ensures !isAnswered && timerRunning && timeLeft == Session.TimeLimit
    {
      currentQuestionIndex := 0;
      score := 0;
      correctAnswers := 0;
      DisplayQuestion();
      Session.RestartResets(questions, old(State()));
    }
  }
}
