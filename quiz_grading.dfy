/**
 * Grading a quiz: `submitQuiz` checks the submitted answers, grades those that name
 * a question, stores them with the score and marks the quiz completed;
 * `getQuizResults` lists, for a completed quiz, one row per question with the answer
 * given to it.
 */
module QuizGrading {
  import opened Wrappers
  import ResponseParsing

  type Question = ResponseParsing.QuizQuestion

  /** One element of `req.body.answers`. */
  datatype Answer = Answer(questionIndex: int, selectedAnswer: string)

  /** `req.body.answers`: an array, or any other value. */
  datatype Body = Answers(items: seq<Answer>) | NotAnArray

  /** One entry of `quiz.userAnswers`; its `answeredAt` date is left out. */
  datatype UserAnswer = UserAnswer(questionIndex: nat, selectedAnswer: string, isCorrect: bool)

  /** `quiz.score`: a whole percentage, or what a total of zero questions gives. */
  datatype Score = Percent(value: int) | NaN | Infinity

  /** The refusals of the two handlers, and the error reading `undefined.correctAnswer` raises. */
  datatype Error = AnswersNotArray | AlreadyCompleted | NotCompleted | TypeError

  /** The HTTP status of each refusal; the `TypeError` goes to the error middleware. */
  function Status(e: Error): nat {
    match e
    case AnswersNotArray => 400
    case AlreadyCompleted => 400
    case NotCompleted => 400
    case TypeError => 500
  }

  function Message(e: Error): string {
    match e
    case AnswersNotArray => "Answers should be an array"
    case AlreadyCompleted => "Quiz is already completed"
    case NotCompleted => "Quiz is not completed yet"
    case TypeError => "Cannot read properties of undefined (reading 'correctAnswer')"
  }

  // ---------------------------------------------------------------------------
  // grading the answers

  /** A negative index passes `questionIndex < quiz.questions.length`, and reading
      `correctAnswer` of the `undefined` it selects throws. */
  predicate Throws(answers: seq<Answer>) {
    exists k :: 0 <= k < |answers| && answers[k].questionIndex < 0
  }

  /** The entry an answer to question `a.questionIndex` gives: correct exactly when
      the selected answer is the question's correct answer, character for character. */
  function Entry(questions: seq<Question>, a: Answer): UserAnswer
    requires 0 <= a.questionIndex < |questions|
  {
    UserAnswer(a.questionIndex, a.selectedAnswer, questions[a.questionIndex].correctAnswer == a.selectedAnswer)
  }

  /** The answers that name a question, in order. */
  function InRange(questions: seq<Question>, answers: seq<Answer>): seq<Answer>
    decreases |answers|
  {
    if |answers| == 0 then []
    else
      var a := answers[|answers| - 1];
      InRange(questions, answers[..|answers| - 1]) + (if 0 <= a.questionIndex < |questions| then [a] else [])
  }

  /** The entries the `forEach` pushes onto `userAnswers`. */
  function Graded(questions: seq<Question>, answers: seq<Answer>): seq<UserAnswer>
    decreases |answers|
  {
    if |answers| == 0 then []
    else
      var a := answers[|answers| - 1];
      Graded(questions, answers[..|answers| - 1])
        + (if 0 <= a.questionIndex < |questions| then [Entry(questions, a)] else [])
  }

  /** The number of correct entries. */
  function CountCorrect(entries: seq<UserAnswer>): nat
    decreases |entries|
  {
    if |entries| == 0 then 0
    else CountCorrect(entries[..|entries| - 1]) + (if entries[|entries| - 1].isCorrect then 1 else 0)
  }

  datatype Grading = Grading(userAnswers: seq<UserAnswer>, correctCount: nat)

  /** What the `forEach` computes, or the error it throws. */
  function GradeOf(questions: seq<Question>, answers: seq<Answer>): Result<Grading, Error> {
    if Throws(answers) then Failure(TypeError)
    else
      var entries := Graded(questions, answers);
      Success(Grading(entries, CountCorrect(entries)))
  }

  /** The entries are the answers that name a question, in order, one each; those
      with an index past the last question are dropped. */
  lemma {:induction false} GradedSpec(questions: seq<Question>, answers: seq<Answer>)
    ensures var kept, entries := InRange(questions, answers), Graded(questions, answers);
      && |entries| == |kept| <= |answers|
      && forall k :: 0 <= k < |kept| ==>
        0 <= kept[k].questionIndex < |questions| && entries[k] == Entry(questions, kept[k])
    decreases |answers|
  {
    if |answers| > 0 {
      GradedSpec(questions, answers[..|answers| - 1]);
    }
  }

  /** An answer is kept exactly when it is one of the answers and names a question. */
  lemma {:induction false} InRangeMembers(questions: seq<Question>, answers: seq<Answer>)
    ensures forall a :: a in InRange(questions, answers) <==>
      a in answers && 0 <= a.questionIndex < |questions|
    decreases |answers|
  {
    if |answers| > 0 {
      var init := answers[..|answers| - 1];
      InRangeMembers(questions, init);
      assert answers == init + [answers[|answers| - 1]];
    }
  }

  /** The count is at most the number of entries, equal to it exactly when every
      entry is correct and zero exactly when none is. */
  lemma {:induction false} CountCorrectSpec(entries: seq<UserAnswer>)
    ensures CountCorrect(entries) <= |entries|
    ensures CountCorrect(entries) == |entries| <==> forall k :: 0 <= k < |entries| ==> entries[k].isCorrect
    ensures CountCorrect(entries) == 0 <==> forall k :: 0 <= k < |entries| ==> !entries[k].isCorrect
    decreases |entries|
  {
    if |entries| > 0 {
      var init := entries[..|entries| - 1];
      CountCorrectSpec(init);
      assert forall k :: 0 <= k < |init| ==> init[k] == entries[k];
    }
  }

  /** The `forEach` over the answers, with its early exit on a `TypeError`. */
  method Grade(questions: seq<Question>, answers: seq<Answer>) returns (r: Result<Grading, Error>)
    ensures r == GradeOf(questions, answers)
  {
    var correctCount := 0;
    var userAnswers: seq<UserAnswer> := [];
    for k := 0 to |answers|
      invariant forall j :: 0 <= j < k ==> answers[j].questionIndex >= 0
      invariant userAnswers == Graded(questions, answers[..k])
      invariant correctCount == CountCorrect(userAnswers)
    {
      var answer := answers[k];
      if answer.questionIndex < |questions| {
        if answer.questionIndex < 0 {
          assert Throws(answers) by {
            assert answers[k].questionIndex < 0;
          }
          return Failure(TypeError);
        }
        var question := questions[answer.questionIndex];
        var isCorrect := question.correctAnswer == answer.selectedAnswer;
        if isCorrect {
          correctCount := correctCount + 1;
        }
        var entry := UserAnswer(answer.questionIndex, answer.selectedAnswer, isCorrect);
        assert (userAnswers + [entry])[..|userAnswers|] == userAnswers;
        userAnswers := userAnswers + [entry];
      }
      assert answers[..k + 1][..k] == answers[..k];
    }
    assert answers[..|answers|] == answers;
    return Success(Grading(userAnswers, correctCount));
  }

  /** The questions the kept answers name. */
  function Named(questions: seq<Question>, answers: seq<Answer>): set<nat>
    decreases |answers|
  {
    if |answers| == 0 then {}
    else
      var a := answers[|answers| - 1];
      Named(questions, answers[..|answers| - 1])
        + (if 0 <= a.questionIndex < |questions| then {a.questionIndex as nat} else {})
  }

  /** A named question is a question, named by one of the answers. */
  lemma {:induction false} NamedMembers(questions: seq<Question>, answers: seq<Answer>)
    ensures forall x :: x in Named(questions, answers) ==>
      x < |questions| && exists k :: 0 <= k < |answers| && answers[k].questionIndex == x
    decreases |answers|
  {
    if |answers| > 0 {
      var init := answers[..|answers| - 1];
      NamedMembers(questions, init);
      assert forall k :: 0 <= k < |init| ==> init[k] == answers[k];
    }
  }

  /** No question is named twice. */
  predicate Distinct(answers: seq<Answer>) {
    forall i, j :: 0 <= i < j < |answers| ==> answers[i].questionIndex != answers[j].questionIndex
  }

  /** When no question is named twice, there is one entry per question named. */
  lemma {:induction false} DistinctEntries(questions: seq<Question>, answers: seq<Answer>)
    requires Distinct(answers)
    ensures |Graded(questions, answers)| == |Named(questions, answers)|
    decreases |answers|
  {
    if |answers| > 0 {
      var n := |answers| - 1;
      var init, a := answers[..n], answers[n];
      forall i, j | 0 <= i < j < n
        ensures init[i].questionIndex != init[j].questionIndex
      {
        assert init[i] == answers[i] && init[j] == answers[j];
      }
      DistinctEntries(questions, init);
      if 0 <= a.questionIndex < |questions| {
        NamedMembers(questions, init);
        forall k | 0 <= k < n
          ensures init[k].questionIndex != a.questionIndex
        {
          assert init[k] == answers[k];
        }
        assert a.questionIndex as nat !in Named(questions, init);
      }
    }
  }

  /** The numbers below n. */
  function Below(n: nat): set<nat>
    decreases n
  {
    if n == 0 then {} else Below(n - 1) + {n - 1}
  }

  lemma {:induction false} BelowSpec(n: nat)
    ensures |Below(n)| == n
    ensures forall x: nat :: x in Below(n) <==> x < n
    decreases n
  {
    if n > 0 {
      BelowSpec(n - 1);
      assert n - 1 !in Below(n - 1);
      assert Below(n - 1) * {n - 1} == {};
    }
  }

  /** When each question is answered at most once, there are at most as many correct
      answers as questions, so a quiz whose total is its number of questions scores
      between 0 and 100. */
  lemma DistinctScore(questions: seq<Question>, answers: seq<Answer>)
    requires Distinct(answers) && |questions| > 0
    ensures var g := GradeOf(questions, answers);
      g.Success? ==> var p := RoundPercent(g.value.correctCount, |questions|);
        p.Percent? && 0 <= p.value <= 100
  {
    var entries := Graded(questions, answers);
    DistinctEntries(questions, answers);
    CountCorrectSpec(entries);
    BelowSpec(|questions|);
    NamedMembers(questions, answers);
    SubsetSize(Named(questions, answers), Below(|questions|));
    RoundPercentSpec(CountCorrect(entries), |questions|);
  }

  lemma SubsetSize(a: set<nat>, b: set<nat>)
    requires a <= b
    ensures |a| <= |b|
  {
    assert b == a + (b - a);
  }

  // ---------------------------------------------------------------------------
  // the score

  /** `Math.round((correctCount / totalQuestions) * 100)`, on exact rationals. */
  function RoundPercent(correct: nat, total: nat): Score {
    if total == 0 then (if correct == 0 then NaN else Infinity)
    else Percent((200 * correct + total) / (2 * total))
  }

  /** The score is the whole number nearest to 100·correct/total, halves rounded up;
      it lies in 0..100 when there are at most as many correct answers as questions. */
  lemma RoundPercentSpec(correct: nat, total: nat)
    requires total > 0
    ensures var p := RoundPercent(correct, total);
      && p.Percent?
      && 2 * total * p.value <= 200 * correct + total < 2 * total * p.value + 2 * total
      && (correct <= total ==> 0 <= p.value <= 100)
      && (correct == 0 ==> p.value == 0)
      && (correct == total ==> p.value == 100)
  {
    var n, d := 200 * correct + total, 2 * total;
    var p := n / d;
    assert n == d * p + n % d;
    if correct <= total {
      QuotientAtMost(n, d, p, 100);
    }
    if correct == 0 {
      Quotient(n, d, 0);
    }
    if correct == total {
      Quotient(n, d, 100);
    }
  }

  /** The quotient is the q with d·q <= n < d·q + d. */
  lemma Quotient(n: int, d: int, q: int)
    requires d > 0 && d * q <= n < d * q + d
    ensures n / d == q
  {
    var r := n / d;
    assert n == d * r + n % d;
    assert d * (r - q) > -d && d * (r - q) < d;
    SmallMultiple(d, r - q);
  }

  /** The quotient of n by d is at most q when n < d·q + d. */
  lemma QuotientAtMost(n: int, d: int, p: int, q: int)
    requires d > 0 && n == d * p + n % d && n < d * q + d
    ensures p <= q
  {
    assert d * (p - q) < d;
    SmallMultiple(d, p - q);
  }

  /** A multiple of d below d is at most 0, and one above -d at least 0. */
  lemma SmallMultiple(d: int, x: int)
    requires d > 0
    ensures d * x < d ==> x <= 0
    ensures d * x > -d ==> x >= 0
  {
    if x >= 1 {
      assert d * x == d * (x - 1) + d;
      assert d * (x - 1) >= 0;
    }
    if x <= -1 {
      assert d * x == d * (x + 1) - d;
      assert d * (x + 1) <= 0;
    }
  }

  // ---------------------------------------------------------------------------
  // the quiz record

  /** What a successful submit returns; the quiz id is left out. */
  datatype Submission = Submission(score: Score, correctCount: nat, totalQuestions: nat, userAnswers: seq<UserAnswer>)

  /** One row of `detailedResults`. */
  datatype ResultRow = ResultRow(questionIndex: nat, question: string, options: seq<string>,
                                 correctAnswer: string, explanation: string,
                                 selectedAnswer: Option<string>, isCorrect: bool)

  /** `userAnswers.find(a => a.questionIndex === index)`. */
  function Find(entries: seq<UserAnswer>, index: int): Option<UserAnswer>
    decreases |entries|
  {
    if |entries| == 0 then None
    else
      var first := Find(entries[..|entries| - 1], index);
      if first.Some? then first
      else if entries[|entries| - 1].questionIndex == index then Some(entries[|entries| - 1])
      else None
  }

  /** The row of question i: `selectedAnswer || null` shows an empty answer as null. */
  function Row(questions: seq<Question>, entries: seq<UserAnswer>, i: nat): ResultRow
    requires i < |questions|
  {
    var q := questions[i];
    var found := Find(entries, i);
    ResultRow(i, q.question, q.options, q.correctAnswer, q.explanation,
              if found.Some? && found.value.selectedAnswer != "" then Some(found.value.selectedAnswer) else None,
              found.Some? && found.value.isCorrect)
  }

  /** `quiz.questions.map(...)`. */
  function Rows(questions: seq<Question>, entries: seq<UserAnswer>): seq<ResultRow> {
    seq(|questions|, i requires 0 <= i < |questions| => Row(questions, entries, i))
  }

  /** Find gives the first entry with the index, and nothing exactly when no entry has it. */
  lemma {:induction false} FindSpec(entries: seq<UserAnswer>, index: int)
    ensures Find(entries, index).None? <==> forall k :: 0 <= k < |entries| ==> entries[k].questionIndex != index
    ensures Find(entries, index).Some? ==> exists k :: (0 <= k < |entries|
      && Find(entries, index).value == entries[k] && entries[k].questionIndex == index
      && forall j :: 0 <= j < k ==> entries[j].questionIndex != index)
    decreases |entries|
  {
    if |entries| > 0 {
      var init := entries[..|entries| - 1];
      FindSpec(init, index);
      assert forall k :: 0 <= k < |init| ==> init[k] == entries[k];
    }
  }

  /** There is one row per question, in order, numbered by position, with the
      question's text, options, correct answer and explanation; its answer is the
      first entry for it, and null and false when there is none. */
  lemma RowsSpec(questions: seq<Question>, entries: seq<UserAnswer>)
    ensures var rows := Rows(questions, entries);
      && |rows| == |questions|
      && forall i :: 0 <= i < |rows| ==>
        && rows[i].questionIndex == i
        && rows[i].question == questions[i].question
        && rows[i].options == questions[i].options
        && rows[i].correctAnswer == questions[i].correctAnswer
        && rows[i].explanation == questions[i].explanation
        && ((forall k :: 0 <= k < |entries| ==> entries[k].questionIndex != i) ==>
              rows[i].selectedAnswer == None && !rows[i].isCorrect)
  {
    forall i | 0 <= i < |questions| {
      FindSpec(entries, i);
    }
  }

  /** Find over the entries with one more at the end. */
  lemma FindStep(prev: seq<UserAnswer>, e: UserAnswer, index: int)
    ensures Find(prev + [e], index) ==
      if Find(prev, index).Some? then Find(prev, index)
      else if e.questionIndex == index then Some(e) else None
  {
    assert (prev + [e])[..|prev|] == prev;
  }

  /** The position of the first answer naming question i, or -1. */
  function FirstNaming(answers: seq<Answer>, i: int): (f: int)
    ensures -1 <= f < |answers|
    decreases |answers|
  {
    if |answers| == 0 then -1
    else
      var f := FirstNaming(answers[..|answers| - 1], i);
      if f >= 0 then f
      else if answers[|answers| - 1].questionIndex == i then |answers| - 1
      else -1
  }

  lemma {:induction false} FirstNamingSpec(answers: seq<Answer>, i: int)
    ensures var f := FirstNaming(answers, i);
      && (f == -1 <==> forall k :: 0 <= k < |answers| ==> answers[k].questionIndex != i)
      && (f >= 0 ==> (answers[f].questionIndex == i
            && forall j :: 0 <= j < f ==> answers[j].questionIndex != i))
    decreases |answers|
  {
    if |answers| > 0 {
      var init := answers[..|answers| - 1];
      FirstNamingSpec(init, i);
      assert forall k :: 0 <= k < |init| ==> init[k] == answers[k];
    }
  }

  /** After grading, the entry found for question i is the entry of the first answer
      that names it, and there is none when no answer does. */
  lemma {:induction false} GradedFind(questions: seq<Question>, answers: seq<Answer>, i: nat)
    requires i < |questions|
    ensures var f := FirstNaming(answers, i);
      Find(Graded(questions, answers), i) ==
        if f < 0 then None
        else Some(UserAnswer(i, answers[f].selectedAnswer, questions[i].correctAnswer == answers[f].selectedAnswer))
    decreases |answers|
  {
    if |answers| > 0 {
      var init, a := answers[..|answers| - 1], answers[|answers| - 1];
      GradedFind(questions, init, i);
      var prev := Graded(questions, init);
      var f := FirstNaming(init, i);
      if f >= 0 {
        assert init[f] == answers[f];
      }
      if 0 <= a.questionIndex < |questions| {
        assert Graded(questions, answers) == prev + [Entry(questions, a)];
        FindStep(prev, Entry(questions, a), i);
      } else {
        assert Graded(questions, answers) == prev;
        assert a.questionIndex != i;
      }
    }
  }

  /** After grading, a question's row is correct exactly when the first answer
      submitted for it selected its correct answer, and shows an answer exactly when
      that first answer is not empty. */
  lemma GradedRows(questions: seq<Question>, answers: seq<Answer>, i: nat)
    requires i < |questions|
    ensures var row, f := Row(questions, Graded(questions, answers), i), FirstNaming(answers, i);
      && (f >= 0 ==> (answers[f].questionIndex == i
            && forall j :: 0 <= j < f ==> answers[j].questionIndex != i))
      && (row.isCorrect <==> f >= 0 && answers[f].selectedAnswer == questions[i].correctAnswer)
      && (row.selectedAnswer.Some? <==> f >= 0 && answers[f].selectedAnswer != "")
      && (row.selectedAnswer.Some? ==> row.selectedAnswer.value == answers[f].selectedAnswer)
      && ((forall k :: 0 <= k < |answers| ==> answers[k].questionIndex != i) ==> f == -1)
  {
    GradedFind(questions, answers, i);
    FirstNamingSpec(answers, i);
  }

  class Quiz {
    var questions: seq<Question>
    var totalQuestions: nat
    var userAnswers: seq<UserAnswer>
    var score: Score
    /** Whether `completedAt` is set; the date itself is left out. */
    var completed: bool

    /** A new quiz as stored by `generateQuiz`'s caller: no answers, score 0, not completed. */
    constructor (questions: seq<Question>, totalQuestions: nat)
      ensures this.questions == questions && this.totalQuestions == totalQuestions
      ensures userAnswers == [] && score == Percent(0) && !completed
    {
      this.questions := questions;
      this.totalQuestions := totalQuestions;
      userAnswers := [];
      score := Percent(0);
      completed := false;
    }

    /** `submitQuiz` on this quiz. A refusal or a `TypeError` leaves it as it was;
        a grading stores the entries and the score and completes the quiz. */
    method Submit(answers: Body) returns (r: Result<Submission, Error>)
      modifies this
      ensures answers.NotAnArray? ==> r == Failure(AnswersNotArray) && unchanged(this)
      ensures answers.Answers? && old(completed) ==> r == Failure(AlreadyCompleted) && unchanged(this)
      ensures answers.Answers? && !old(completed) ==>
        match GradeOf(old(questions), answers.items)
        case Failure(e) => r == Failure(e) && unchanged(this)
        case Success(g) =>
          && questions == old(questions) && totalQuestions == old(totalQuestions)
          && userAnswers == g.userAnswers
          && score == RoundPercent(g.correctCount, totalQuestions)
          && completed
          && r == Success(Submission(score, g.correctCount, totalQuestions, userAnswers))
    {
      if answers.NotAnArray? {
        return Failure(AnswersNotArray);
      }
      if completed {
        return Failure(AlreadyCompleted);
      }
      var graded := Grade(questions, answers.items);
      if graded.Failure? {
        return Failure(graded.error);
      }
      var g := graded.value;
      score := RoundPercent(g.correctCount, totalQuestions);
      userAnswers := g.userAnswers;
      completed := true;
      r := Success(Submission(score, g.correctCount, totalQuestions, userAnswers));
    }

    /** `getQuizResults` on this quiz: refused until the quiz is completed. */
    function Results(): (r: Result<seq<ResultRow>, Error>)
      reads this
      ensures r.Failure? <==> !completed
      ensures r.Failure? ==> r.error == NotCompleted
      ensures r.Success? ==> |r.value| == |questions| && r.value == Rows(questions, userAnswers)
    {
      if !completed then Failure(NotCompleted) else Success(Rows(questions, userAnswers))
    }
  }

  /** A quiz is submitted at most once: after a submit that grades it, every later
      submit is refused and leaves it as it was. */
  method SubmitTwice(quiz: Quiz, first: Body, second: Body) returns (r1: Result<Submission, Error>, r2: Result<Submission, Error>)
    modifies quiz
    ensures r1.Success? && second.Answers? ==> r2 == Failure(AlreadyCompleted)
    ensures r1.Success? ==> quiz.completed && quiz.Results().Success?
  {
    r1 := quiz.Submit(first);
    r2 := quiz.Submit(second);
  }

  /** Each question answered twice counts twice: one question, answered correctly
      twice, scores 200. */
  lemma DuplicateAnswers(q: Question)
    ensures var g := GradeOf([q], [Answer(0, q.correctAnswer), Answer(0, q.correctAnswer)]);
      && g.Success? && g.value.correctCount == 2
      && RoundPercent(g.value.correctCount, 1) == Percent(200)
  {
    var answers := [Answer(0, q.correctAnswer), Answer(0, q.correctAnswer)];
    var e := Entry([q], answers[0]);
    assert !Throws(answers) by {
      assert forall k :: 0 <= k < |answers| ==> answers[k].questionIndex == 0;
    }
    GradedTwice(q);
    CountTwice(e);
  }

  lemma GradedTwice(q: Question)
    ensures var a := Answer(0, q.correctAnswer);
      Graded([q], [a, a]) == [Entry([q], a), Entry([q], a)]
  {
    var a := Answer(0, q.correctAnswer);
    assert [a, a][..1] == [a] && [a][..0] == [];
    assert Graded([q], [a]) == [Entry([q], a)];
  }

  lemma CountTwice(e: UserAnswer)
    requires e.isCorrect
    ensures CountCorrect([e, e]) == 2
  {
    assert [e, e][..1] == [e] && [e][..0] == [];
    assert CountCorrect([e]) == 1;
  }

  /** A negative index fails the whole submission, even after answers that grade. */
  lemma NegativeIndex(q: Question)
    ensures GradeOf([q], [Answer(0, q.correctAnswer), Answer(-1, "")]) == Failure(TypeError)
  {
    var answers := [Answer(0, q.correctAnswer), Answer(-1, "")];
    assert answers[1].questionIndex < 0;
  }
}
