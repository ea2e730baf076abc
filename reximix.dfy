/** The mixed-subject "Reximix" quiz page without its rendering: the
    question pool and its shuffle, the append-only answer list, the running
    score, the 30-minute countdown and the two entry points. */
module Reximix {
  import opened QuizData

  /** Time budget of one attempt, in seconds (30 minutes). */
  const TimeBudget: nat := 1800

  /** Questions `generateMixedQuiz(20)` is asked for by `startQuiz`. */
  const QuizLength: int := 20

  // ------------------------------------------------------- question pool

  /** All chapters' questions, chapter after chapter, as the `forEach` with
      `push(...chapter.questions)` collects them. */
  function Flatten(chapters: seq<seq<Question>>): seq<Question>
  {
    if chapters == [] then [] else Flatten(chapters[..|chapters| - 1]) + chapters[|chapters| - 1]
  }

  /** Every geography chapter's questions followed by every history chapter's. */
  function Pool(geographyChapters: seq<seq<Question>>, historyChapters: seq<seq<Question>>): seq<Question>
  {
    Flatten(geographyChapters) + Flatten(historyChapters)
  }

  /** A question is collected exactly when some chapter holds it. */
  lemma {:induction false} FlattenMembers(chapters: seq<seq<Question>>, q: Question)
    ensures q in Flatten(chapters) <==> exists c :: 0 <= c < |chapters| && q in chapters[c]
    decreases |chapters|
  {
    if chapters != [] {
      var init := chapters[..|chapters| - 1];
      FlattenMembers(init, q);
      if q in Flatten(chapters) && q !in chapters[|chapters| - 1] {
        var c :| 0 <= c < |init| && q in init[c];
        assert chapters[c] == init[c];
      }
      if exists c :: 0 <= c < |chapters| && q in chapters[c] {
        var c :| 0 <= c < |chapters| && q in chapters[c];
        if c < |init| {
          assert init[c] == chapters[c];
        }
      }
    }
  }

  /** The pool holds exactly the questions of the geography and the history
      chapters. */
  lemma PoolMembers(geographyChapters: seq<seq<Question>>, historyChapters: seq<seq<Question>>, q: Question)
    ensures q in Pool(geographyChapters, historyChapters) <==>
              || (exists c :: 0 <= c < |geographyChapters| && q in geographyChapters[c])
              || (exists c :: 0 <= c < |historyChapters| && q in historyChapters[c])
  {
    FlattenMembers(geographyChapters, q);
    FlattenMembers(historyChapters, q);
  }

  /** `perm` lists each of 0 .. n-1 exactly once: the order the random
      comparator of `sort` happened to produce. */
  predicate IsPermutation(perm: seq<nat>, n: nat)
  {
    && |perm| == n
    && (forall i :: 0 <= i < n ==> perm[i] < n)
    && (forall i, j :: 0 <= i < j < n ==> perm[i] != perm[j])
  }

  /** End index of `slice(0, count)` on a sequence of length `len`: a
      negative count counts from the end, a large one is cut to `len`. */
  function SliceEnd(count: int, len: nat): (e: nat)
    ensures e <= len
    ensures count >= 0 ==> e == if count <= len then count else len
  {
    if count < 0 then (if len + count >= 0 then len + count else 0)
    else if count <= len then count else len
  }

  /** `generateMixedQuiz(count)`: pool the chapters, shuffle the pool in
      place by `perm`, keep the first `count`. */
  method GenerateMixedQuiz(count: int, geographyChapters: seq<seq<Question>>,
                           historyChapters: seq<seq<Question>>, perm: seq<nat>)
    returns (quiz: seq<Question>)
    requires IsPermutation(perm, |Pool(geographyChapters, historyChapters)|)
    ensures |quiz| == SliceEnd(count, |Pool(geographyChapters, historyChapters)|)
    ensures forall i :: 0 <= i < |quiz| ==> quiz[i] == Pool(geographyChapters, historyChapters)[perm[i]]
  {
    var allQuestions: seq<Question> := [];
    var c := 0;
    while c < |geographyChapters|
      invariant c <= |geographyChapters|
      invariant allQuestions == Flatten(geographyChapters[..c])
    {
      assert geographyChapters[..c + 1][..c] == geographyChapters[..c];
      allQuestions := allQuestions + geographyChapters[c];
      c := c + 1;
    }
    assert geographyChapters[..c] == geographyChapters;
    c := 0;
    while c < |historyChapters|
      invariant c <= |historyChapters|
      invariant allQuestions == Flatten(geographyChapters) + Flatten(historyChapters[..c])
    {
      assert historyChapters[..c + 1][..c] == historyChapters[..c];
      allQuestions := allQuestions + historyChapters[c];
      c := c + 1;
    }
    assert historyChapters[..c] == historyChapters;
    var shuffled := seq(|allQuestions|, i requires 0 <= i < |allQuestions| => allQuestions[perm[i]]);
    quiz := shuffled[..SliceEnd(count, |shuffled|)];
  }

  /** When the pool holds no two questions with the same id, neither does
      the generated quiz, and it never holds more than the pool. */
  lemma MixedQuizDistinct(pool: seq<Question>, perm: seq<nat>, quiz: seq<Question>)
    requires IsPermutation(perm, |pool|)
    requires |quiz| <= |pool|
    requires forall i :: 0 <= i < |quiz| ==> quiz[i] == pool[perm[i]]
    requires forall i, j :: 0 <= i < j < |pool| ==> pool[i].id != pool[j].id
    ensures forall i, j :: 0 <= i < j < |quiz| ==> quiz[i].id != quiz[j].id
  {
    forall i, j | 0 <= i < j < |quiz| ensures quiz[i].id != quiz[j].id {
      var p, q := perm[i], perm[j];
      assert p != q;
      if p < q { assert pool[p].id != pool[q].id; } else { assert pool[q].id != pool[p].id; }
    }
  }

  // --------------------------------------------------------------- scoring

  /** Score earned by the recorded answers: position `i` counts when
      `userAnswers[i]` equals question `i`'s `correct`. */
  function Tally(questions: seq<Question>, userAnswers: seq<string>): (r: nat)
    requires |userAnswers| <= |questions|
    ensures r <= |userAnswers|
  {
    if userAnswers == [] then 0
    else
      var n := |userAnswers| - 1;
      Tally(questions, userAnswers[..n]) + (if userAnswers[n] == questions[n].correct then 1 else 0)
  }

  /** The result screen's breakdown: a check mark per question whose
      answer `userAnswers[index] === question.correct`; an index with no
      answer (`undefined`) gets a cross. */
  function Marks(questions: seq<Question>, userAnswers: seq<string>): (m: seq<bool>)
    ensures |m| == |questions|
  {
    seq(|questions|, i requires 0 <= i < |questions| =>
      i < |userAnswers| && userAnswers[i] == questions[i].correct)
  }

  function CountTrue(bs: seq<bool>): (r: nat)
    ensures r <= |bs|
  {
    if bs == [] then 0 else CountTrue(bs[..|bs| - 1]) + (if bs[|bs| - 1] then 1 else 0)
  }

  lemma {:induction false} MarksPrefix(questions: seq<Question>, userAnswers: seq<string>, n: nat)
    requires |userAnswers| <= |questions| && n <= |questions|
    ensures CountTrue(Marks(questions, userAnswers)[..n])
              == Tally(questions, userAnswers[..if n <= |userAnswers| then n else |userAnswers|])
  {
    var m := Marks(questions, userAnswers);
    if n > 0 {
      MarksPrefix(questions, userAnswers, n - 1);
      assert m[..n][..n - 1] == m[..n - 1];
      if n <= |userAnswers| {
        assert userAnswers[..n][..n - 1] == userAnswers[..n - 1];
      }
    }
  }

  /** The number of check marks on the result screen equals the score. */
  lemma BreakdownMatchesScore(questions: seq<Question>, userAnswers: seq<string>)
    requires |userAnswers| <= |questions|
    ensures CountTrue(Marks(questions, userAnswers)) == Tally(questions, userAnswers)
  {
    var m := Marks(questions, userAnswers);
    MarksPrefix(questions, userAnswers, |questions|);
    assert m[..|questions|] == m;
    assert userAnswers[..|userAnswers|] == userAnswers;
  }

  // --------------------------------------------------------------- session

  class Session {
    var questions: seq<Question>
    var currentQuestionIndex: nat
    var selectedAnswer: string
    var score: nat
    var showResult: bool
    var userAnswers: seq<string>
    var quizStarted: bool
    var timeLeft: nat
    var quizCompleted: bool

    ghost predicate Valid()
      reads this
    {
      && showResult == quizCompleted
      && |userAnswers| <= |questions|
      && score == Tally(questions, userAnswers)
      && timeLeft <= TimeBudget
      && (currentQuestionIndex < |questions| || currentQuestionIndex == 0)
      && (!quizStarted ==> questions == [] && currentQuestionIndex == 0 && userAnswers == [] && !quizCompleted)
      && (quizStarted && !quizCompleted ==> |userAnswers| == currentQuestionIndex)
      && (quizCompleted ==>
            |userAnswers| == currentQuestionIndex || |userAnswers| == currentQuestionIndex + 1 == |questions|)
    }

    /** The page's initial state: not started, 30 minutes on the clock. */
    constructor ()
      ensures Valid()
      ensures questions == [] && currentQuestionIndex == 0 && selectedAnswer == "" && score == 0
      ensures !showResult && userAnswers == [] && !quizStarted && timeLeft == TimeBudget && !quizCompleted
    {
      questions := [];
      currentQuestionIndex := 0;
      selectedAnswer := "";
      score := 0;
      showResult := false;
      userAnswers := [];
      quizStarted := false;
      timeLeft := TimeBudget;
      quizCompleted := false;
    }

    /** `startQuiz`: a fresh mixed quiz of (up to) 20 questions and every
        counter reset, except the pending selection, which it keeps. */
    method StartQuiz(geographyChapters: seq<seq<Question>>, historyChapters: seq<seq<Question>>, perm: seq<nat>)
      requires Valid()
      requires IsPermutation(perm, |Pool(geographyChapters, historyChapters)|)
      modifies this`questions, this`quizStarted, this`currentQuestionIndex, this`score,
               this`userAnswers, this`showResult, this`timeLeft, this`quizCompleted
      ensures Valid()
      ensures |questions| == SliceEnd(QuizLength, |Pool(geographyChapters, historyChapters)|)
      ensures forall i :: 0 <= i < |questions| ==> questions[i] == Pool(geographyChapters, historyChapters)[perm[i]]
      ensures quizStarted && currentQuestionIndex == 0 && score == 0 && userAnswers == []
      ensures !showResult && timeLeft == TimeBudget && !quizCompleted
    {
      var mixedQuestions := GenerateMixedQuiz(QuizLength, geographyChapters, historyChapters, perm);
      questions := mixedQuestions;
      quizStarted := true;
      currentQuestionIndex := 0;
      score := 0;
      userAnswers := [];
      showResult := false;
      timeLeft := TimeBudget;
      quizCompleted := false;
    }

    /** `handleAnswerSelect`. */
    method HandleAnswerSelect(answer: string)
      requires Valid()
      modifies this`selectedAnswer
      ensures Valid() && selectedAnswer == answer
    {
      selectedAnswer := answer;
    }

    /** `handleNextQuestion`, offered while a question is on screen: record
        the selection, score it, then advance or, on the last question,
        complete and show the result. */
    method HandleNextQuestion()
      requires Valid() && quizStarted && !showResult && currentQuestionIndex < |questions|
      modifies this`userAnswers, this`score, this`currentQuestionIndex, this`selectedAnswer,
               this`quizCompleted, this`showResult
      ensures Valid()
      ensures userAnswers == old(userAnswers) + [old(selectedAnswer)]
      ensures score == old(score) + if old(selectedAnswer) == questions[old(currentQuestionIndex)].correct then 1 else 0
      ensures if old(currentQuestionIndex) < |questions| - 1
              then currentQuestionIndex == old(currentQuestionIndex) + 1 && selectedAnswer == ""
                   && !quizCompleted && !showResult
              else currentQuestionIndex == old(currentQuestionIndex) && selectedAnswer == old(selectedAnswer)
                   && quizCompleted && showResult
    {
      var newUserAnswers := userAnswers + [selectedAnswer];
      assert newUserAnswers[..|userAnswers|] == userAnswers;
      userAnswers := newUserAnswers;
      if selectedAnswer == questions[currentQuestionIndex].correct {
        score := score + 1;
      }
      if currentQuestionIndex < |questions| - 1 {
        currentQuestionIndex := currentQuestionIndex + 1;
        selectedAnswer := "";
      } else {
        quizCompleted := true;
        showResult := true;
      }
    }

    /** One firing of the one-second interval, which exists only while the
        quiz is started and not completed. */
    method Tick()
      requires Valid()
      modifies this`timeLeft, this`quizCompleted, this`showResult
      ensures Valid()
      ensures if old(quizStarted && !quizCompleted) then
                if old(timeLeft) <= 1 then timeLeft == 0 && quizCompleted && showResult
                else timeLeft == old(timeLeft) - 1 && !quizCompleted && !showResult
              else timeLeft == old(timeLeft) && quizCompleted == old(quizCompleted) && showResult == old(showResult)
    {
      if quizStarted && !quizCompleted {
        if timeLeft <= 1 {
          quizCompleted := true;
          showResult := true;
          timeLeft := 0;
        } else {
          timeLeft := timeLeft - 1;
        }
      }
    }

    /** `resetQuiz` ("Try Again" and "Exit Quiz"): back to the start screen.
        The clock is left as it was; `startQuiz` sets it again. */
    method ResetQuiz()
      requires Valid()
      modifies this`quizStarted, this`questions, this`currentQuestionIndex, this`selectedAnswer,
               this`score, this`userAnswers, this`showResult, this`quizCompleted
      ensures Valid()
      ensures !quizStarted && questions == [] && currentQuestionIndex == 0 && selectedAnswer == ""
      ensures score == 0 && userAnswers == [] && !showResult && !quizCompleted
    {
      quizStarted := false;
      questions := [];
      currentQuestionIndex := 0;
      selectedAnswer := "";
      score := 0;
      userAnswers := [];
      showResult := false;
      quizCompleted := false;
    }

    /** On the result screen the check marks add up to the score. */
    lemma MarksAddUpToScore()
      requires Valid()
      ensures CountTrue(Marks(questions, userAnswers)) == score
    {
      BreakdownMatchesScore(questions, userAnswers);
    }
  }
}
