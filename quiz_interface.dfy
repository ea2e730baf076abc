/** The standard quiz controller (the `QuizInterface` component) without
    its rendering: scoring, streaks, achievements, the countdown and the
    final score. Each React handler is one atomic method over the fields
    that mirror the component's state slots. */
module QuizInterface {
  import opened QuizData

  function Max(a: int, b: int): int { if a >= b then a else b }
  function Min(a: int, b: int): int { if a <= b then a else b }

  // ---------------------------------------------------------------- points

  function BasePoints(d: Difficulty): nat
  {
    match d
    case Easy => 10
    case Medium => 20
    case Hard => 30
  }

  /** `calculatePoints`: nothing for a wrong answer; for a right one the
      difficulty base, a streak bonus of two points per answer in the
      streak held before this one, capped at 20, and a speed bonus of one
      point per ten seconds of `timeBonus` (`Math.floor(timeBonus * 0.1)`). */
  function CalculatePoints(isCorrect: bool, difficulty: Difficulty, streak: nat, timeBonus: nat): (r: nat)
    ensures !isCorrect ==> r == 0
    ensures isCorrect ==> BasePoints(difficulty) <= r <= BasePoints(difficulty) + 20 + timeBonus / 10
    ensures isCorrect && timeBonus < 90 ==> 10 <= r <= 58
  {
    if isCorrect then BasePoints(difficulty) + Min(streak * 2, 20) + timeBonus / 10 else 0
  }

  /** The streak bonus grows with the streak and stops growing at ten. */
  lemma StreakBonusCapped(difficulty: Difficulty, s1: nat, s2: nat, timeBonus: nat)
    requires s1 <= s2
    ensures CalculatePoints(true, difficulty, s1, timeBonus) <= CalculatePoints(true, difficulty, s2, timeBonus)
    ensures s1 >= 10 ==> CalculatePoints(true, difficulty, s1, timeBonus) == CalculatePoints(true, difficulty, s2, timeBonus)
  {
  }

  /** Harder questions are worth strictly more, all else equal. */
  lemma DifficultyOrdersPoints(streak: nat, timeBonus: nat)
    ensures CalculatePoints(true, Easy, streak, timeBonus) < CalculatePoints(true, Medium, streak, timeBonus)
              < CalculatePoints(true, Hard, streak, timeBonus)
  {
  }

  // ---------------------------------------------------------- achievements

  datatype Achievement = Streak3 | Streak5 | Points100 | Points200

  /** Position of an achievement in the order `checkAchievements` tests them. */
  function Rank(a: Achievement): nat
  {
    match a
    case Streak3 => 0
    case Streak5 => 1
    case Points100 => 2
    case Points200 => 3
  }

  /** The threshold each achievement stands for. */
  predicate Reached(a: Achievement, streak: int, points: int)
  {
    match a
    case Streak3 => streak >= 3
    case Streak5 => streak >= 5
    case Points100 => points >= 100
    case Points200 => points >= 200
  }

  predicate NoDuplicates<T(==)>(s: seq<T>)
  {
    forall i, j :: 0 <= i < j < |s| ==> s[i] != s[j]
  }

  /** `found` holds exactly the achievements the streak and total reach
      that are not among `earned`. */
  predicate Unlocked(found: seq<Achievement>, earned: seq<Achievement>, streak: int, points: int)
  {
    forall a :: a in found <==> Reached(a, streak, points) && a !in earned
  }

  /** `Unlocked` restricted to the first `rank` tests of `checkAchievements`;
      every found achievement ranks below `rank`. */
  ghost predicate UnlockedBelow(found: seq<Achievement>, earned: seq<Achievement>, streak: int, points: int, rank: nat)
  {
    && (forall a :: a in found <==> Rank(a) < rank && Reached(a, streak, points) && a !in earned)
    && (forall a :: a in found ==> Rank(a) < rank)
    && InCheckOrder(found)
  }

  /** `found` lists achievements in the order `checkAchievements` tests them. */
  predicate InCheckOrder(found: seq<Achievement>)
  {
    forall i, j :: 0 <= i < j < |found| ==> Rank(found[i]) < Rank(found[j])
  }

  /** The list `checkAchievements` builds with `push`: every achievement
      whose threshold the new streak or total reaches and that is not yet
      earned, in the fixed order streak_3, streak_5, points_100, points_200. */
  method NewAchievements(earned: seq<Achievement>, currentStreak: int, totalPoints: int)
    returns (newAchievements: seq<Achievement>)
    ensures Unlocked(newAchievements, earned, currentStreak, totalPoints)
    ensures InCheckOrder(newAchievements)
  {
    newAchievements := [];
    ghost var before := newAchievements;
    if currentStreak >= 3 && Streak3 !in earned {
      newAchievements := newAchievements + [Streak3];
    }
    TestAchievement(before, earned, currentStreak, totalPoints, Streak3);
    assert UnlockedBelow(newAchievements, earned, currentStreak, totalPoints, 1);
    before := newAchievements;
    if currentStreak >= 5 && Streak5 !in earned {
      newAchievements := newAchievements + [Streak5];
    }
    TestAchievement(before, earned, currentStreak, totalPoints, Streak5);
    assert UnlockedBelow(newAchievements, earned, currentStreak, totalPoints, 2);
    before := newAchievements;
    if totalPoints >= 100 && Points100 !in earned {
      newAchievements := newAchievements + [Points100];
    }
    TestAchievement(before, earned, currentStreak, totalPoints, Points100);
    assert UnlockedBelow(newAchievements, earned, currentStreak, totalPoints, 3);
    before := newAchievements;
    if totalPoints >= 200 && Points200 !in earned {
      newAchievements := newAchievements + [Points200];
    }
    TestAchievement(before, earned, currentStreak, totalPoints, Points200);
    assert UnlockedBelow(newAchievements, earned, currentStreak, totalPoints, 4);
    AllTested(newAchievements, earned, currentStreak, totalPoints);
  }

  /** After the four tests every achievement has been considered. */
  lemma AllTested(found: seq<Achievement>, earned: seq<Achievement>, streak: int, points: int)
    requires UnlockedBelow(found, earned, streak, points, 4)
    ensures Unlocked(found, earned, streak, points) && InCheckOrder(found)
  {
    forall a ensures Rank(a) < 4 {
    }
  }

  /** One test of `checkAchievements`: pushing the next achievement exactly
      when it is reached and not yet earned extends `UnlockedBelow` by one rank. */
  lemma TestAchievement(found: seq<Achievement>, earned: seq<Achievement>, streak: int, points: int, a: Achievement)
    requires UnlockedBelow(found, earned, streak, points, Rank(a))
    ensures UnlockedBelow(if Reached(a, streak, points) && a !in earned then found + [a] else found,
                          earned, streak, points, Rank(a) + 1)
  {
  }

  /** After a correct answer the earned list, extended by what
      `checkAchievements` found, is still duplicate-free and is exactly the
      set of thresholds reached by the best streak and the new total. */
  lemma AchievementsAfterCorrect(earned: seq<Achievement>, found: seq<Achievement>,
                                 bestStreak: nat, points: nat, newStreak: nat, newPoints: nat)
    requires NoDuplicates(earned) && points <= newPoints
    requires forall a :: a in earned <==> Reached(a, bestStreak, points)
    requires Unlocked(found, earned, newStreak, newPoints)
    requires InCheckOrder(found)
    ensures NoDuplicates(earned + found)
    ensures forall a :: a in earned + found <==> Reached(a, Max(bestStreak, newStreak), newPoints)
  {
    var all := earned + found;
    forall i, j | 0 <= i < j < |all| ensures all[i] != all[j] {
      if j >= |earned| {
        assert all[j] in found;
        if i >= |earned| {
          assert Rank(all[i]) < Rank(all[j]);
        }
      }
    }
  }

  /** The invariant of the reward fields: the combo follows the streak, the
      best streak bounds it, and the earned achievements are exactly the
      thresholds reached, once each, the one on display among them. */
  predicate RewardsHold(combo: nat, streak: nat, bestStreak: nat, achievements: seq<Achievement>,
                        points: nat, showAchievement: Option<Achievement>)
  {
    && combo == streak
    && streak <= bestStreak
    && NoDuplicates(achievements)
    && (forall a :: a in achievements <==> Reached(a, bestStreak, points))
    && (showAchievement.Some? ==> showAchievement.value in achievements)
  }

  /** A correct answer keeps the reward invariant: the streak and combo
      grow by one, the points by what was earned, and the achievements
      `checkAchievements` found are appended, the first of them shown. */
  lemma CorrectAnswerKeepsRewards(streak: nat, bestStreak: nat, achievements: seq<Achievement>, points: nat,
                                  showAchievement: Option<Achievement>, earnedPoints: nat, found: seq<Achievement>)
    requires RewardsHold(streak, streak, bestStreak, achievements, points, showAchievement)
    requires Unlocked(found, achievements, streak + 1, points + earnedPoints)
    requires InCheckOrder(found)
    ensures RewardsHold(streak + 1, streak + 1, Max(bestStreak, streak + 1), achievements + found,
                        points + earnedPoints, if |found| > 0 then Some(found[0]) else showAchievement)
    ensures (achievements + found)[|achievements|..] == found
  {
    AchievementsAfterCorrect(achievements, found, bestStreak, points, streak + 1, points + earnedPoints);
    assert (achievements + found)[|achievements|..] == found;
    if |found| > 0 {
      assert found[0] in found;
    }
  }

  // ----------------------------------------------------------- final score

  /** Position `i` holds a recorded answer equal to the question's `correct`
      (`answers[i] === question.correct`; a missing entry is `undefined`,
      which equals no answer string). */
  predicate AnsweredCorrectly(questions: seq<Question>, answers: map<int, string>, i: int)
    requires 0 <= i < |questions|
  {
    i in answers && answers[i] == questions[i].correct
  }

  /** Number of correctly answered positions among the first `n`. */
  function CorrectUpTo(questions: seq<Question>, answers: map<int, string>, n: nat): (r: nat)
    requires n <= |questions|
    ensures r <= n
  {
    if n == 0 then 0
    else CorrectUpTo(questions, answers, n - 1) + (if AnsweredCorrectly(questions, answers, n - 1) then 1 else 0)
  }

  /** The final score: correctly answered positions over the whole quiz. */
  function Score(questions: seq<Question>, answers: map<int, string>): (r: nat)
    ensures r <= |questions|
  {
    CorrectUpTo(questions, answers, |questions|)
  }

  /** The count is exactly the number of positions answered correctly. */
  lemma {:induction false} CorrectUpToIsCardinality(questions: seq<Question>, answers: map<int, string>, n: nat)
    requires n <= |questions|
    ensures CorrectUpTo(questions, answers, n)
              == |set i | 0 <= i < n && AnsweredCorrectly(questions, answers, i)|
  {
    if n > 0 {
      CorrectUpToIsCardinality(questions, answers, n - 1);
      var before := set i | 0 <= i < n - 1 && AnsweredCorrectly(questions, answers, i);
      var after := set i | 0 <= i < n && AnsweredCorrectly(questions, answers, i);
      if AnsweredCorrectly(questions, answers, n - 1) {
        assert after == before + {n - 1};
        assert n - 1 !in before;
      } else {
        assert after == before;
      }
    }
  }

  /** A session in which nothing was answered scores 0 (for instance when
      the countdown runs out before the first submit). */
  lemma {:induction false} NothingAnsweredScoresZero(questions: seq<Question>, n: nat)
    requires n <= |questions|
    ensures CorrectUpTo(questions, map[], n) == 0
  {
    if n > 0 {
      NothingAnsweredScoresZero(questions, n - 1);
    }
  }

  /** The `forEach` loop of `handleFinishQuiz`. */
  method CountCorrect(questions: seq<Question>, answers: map<int, string>) returns (score: nat)
    ensures score == Score(questions, answers)
  {
    score := 0;
    var index := 0;
    while index < |questions|
      invariant index <= |questions|
      invariant score == CorrectUpTo(questions, answers, index)
    {
      if index in answers && answers[index] == questions[index].correct {
        score := score + 1;
      }
      index := index + 1;
    }
  }

  /** The arguments of one `onComplete(score, total, chapterName, difficulty)` call. */
  datatype Completion = Completion(score: nat, total: nat, chapterName: string, difficulty: Difficulty)

  // --------------------------------------------------------------- session

  /** One mounted quiz. `reports` records the `onComplete` calls in order:
      the component has no finished state of its own, it only calls back. */
  class Session {
    const difficulty: Difficulty
    var questions: seq<Question>
    var chapterName: string
    var currentQuestionIndex: nat
    var selectedAnswer: string
    var answers: map<int, string>
    var showFeedback: bool
    var timeLeft: nat
    var points: nat
    var streak: nat
    var bestStreak: nat
    var combo: nat
    var pointsEarned: nat
    var achievements: seq<Achievement>
    var showAchievement: Option<Achievement>
    var reports: seq<Completion>

    /** The position, the answers, the clock and the reports agree with
        the question list. */
    ghost predicate Progress()
      reads this`questions, this`currentQuestionIndex, this`answers, this`timeLeft, this`reports
    {
      && (|questions| == 0 ==> currentQuestionIndex == 0)
      && (|questions| > 0 ==> currentQuestionIndex < |questions|)
      && (forall k :: k in answers ==> 0 <= k <= currentQuestionIndex)
      && timeLeft <= 90 * |questions|
      && (forall c :: c in reports ==> c.total == |questions| && c.score <= c.total)
    }

    /** The combo follows the streak, the best streak bounds it, and the
        earned achievements are exactly the thresholds reached, once each. */
    ghost predicate Rewards()
      reads this`combo, this`streak, this`bestStreak, this`achievements, this`points, this`showAchievement
    {
      RewardsHold(combo, streak, bestStreak, achievements, points, showAchievement)
    }

    ghost predicate Valid()
      reads this
    {
      Progress() && Rewards()
    }

    /** What `handleFinishQuiz` would report now. */
    function Outcome(): (c: Completion)
      reads this
      ensures c.score <= c.total == |questions|
    {
      Completion(Score(questions, answers), |questions|, chapterName, difficulty)
    }

    /** Mounting with the question list and chapter name the question
        source supplied: the initial state, then the initialisation effect
        (a budget of 90 seconds per question), then the timer effect, which
        finishes at once when the budget is 0, that is for an empty list. */
    constructor (questions: seq<Question>, chapterName: string, difficulty: Difficulty)
      ensures Valid()
      ensures this.questions == questions && this.chapterName == chapterName && this.difficulty == difficulty
      ensures currentQuestionIndex == 0 && selectedAnswer == "" && answers == map[] && !showFeedback
      ensures timeLeft == 90 * |questions|
      ensures points == 0 && streak == 0 && bestStreak == 0 && combo == 0 && pointsEarned == 0
      ensures achievements == [] && showAchievement == None
      ensures reports == if |questions| == 0 then [Completion(0, 0, chapterName, difficulty)] else []
    {
      this.difficulty := difficulty;
      this.questions := questions;
      this.chapterName := chapterName;
      currentQuestionIndex := 0;
      selectedAnswer := "";
      answers := map[];
      showFeedback := false;
      timeLeft := |questions| * 90;
      points, streak, bestStreak, combo, pointsEarned := 0, 0, 0, 0, 0;
      achievements := [];
      showAchievement := None;
      reports := [];
      new;
      TimerEffect();
    }

    /** The timer effect's run after `timeLeft` or `showFeedback` changed:
        at 0 it calls `handleFinishQuiz`; otherwise it only (re)schedules
        the next tick, which `Tick` stands for. */
    method TimerEffect()
      requires Valid()
      modifies this`reports
      ensures Valid()
      ensures reports == old(reports) + if timeLeft == 0 then [Outcome()] else []
    {
      if timeLeft == 0 {
        HandleFinishQuiz();
      }
    }

    /** `handleFinishQuiz`: count the correct answers and call `onComplete`. */
    method HandleFinishQuiz()
      requires Valid()
      modifies this`reports
      ensures Valid()
      ensures reports == old(reports) + [Outcome()]
    {
      var score := CountCorrect(questions, answers);
      reports := reports + [Completion(score, |questions|, chapterName, difficulty)];
    }

    /** A click on an option: `!showFeedback && handleAnswerSelect(option)`. */
    method HandleAnswerSelect(option: string)
      requires Valid()
      modifies this`selectedAnswer
      ensures Valid()
      ensures selectedAnswer == if showFeedback then old(selectedAnswer) else option
    {
      if !showFeedback {
        selectedAnswer := option;
      }
    }

    /** `handleNextQuestion`, the submit button, which is rendered only
        while feedback is hidden and a question is on screen. */
    method HandleNextQuestion()
      requires Valid() && !showFeedback && currentQuestionIndex < |questions|
      modifies this`answers, this`showFeedback, this`streak, this`bestStreak, this`combo,
               this`points, this`pointsEarned, this`achievements, this`showAchievement, this`reports
      ensures Valid()
      ensures old(selectedAnswer) == "" ==> unchanged(this)
      ensures old(selectedAnswer) != "" ==>
                answers == old(answers)[currentQuestionIndex := selectedAnswer] && showFeedback
      ensures old(selectedAnswer) != "" && selectedAnswer == questions[currentQuestionIndex].correct ==>
                && streak == old(streak) + 1 && combo == old(combo) + 1
                && bestStreak == Max(old(bestStreak), streak)
                && pointsEarned == CalculatePoints(true, difficulty, old(streak), timeLeft % 90)
                && points == old(points) + pointsEarned
                && old(achievements) <= achievements
                && Unlocked(achievements[|old(achievements)|..], old(achievements), streak, points)
                && InCheckOrder(achievements[|old(achievements)|..])
                && showAchievement == if |achievements| > |old(achievements)|
                                      then Some(achievements[|old(achievements)|]) else old(showAchievement)
      ensures old(selectedAnswer) != "" && selectedAnswer != questions[currentQuestionIndex].correct ==>
                && streak == 0 && combo == 0 && bestStreak == old(bestStreak)
                && points == old(points) && pointsEarned == old(pointsEarned)
                && achievements == old(achievements) && showAchievement == old(showAchievement)
      ensures reports == old(reports) + if old(selectedAnswer) != "" && timeLeft == 0 then [Outcome()] else []
    {
      if selectedAnswer != "" {
        answers := answers[currentQuestionIndex := selectedAnswer];
        showFeedback := true;
        var isCorrect := selectedAnswer == questions[currentQuestionIndex].correct;
        var timeBonus := timeLeft % 90;
        if isCorrect {
          RewardCorrect(timeBonus);
        } else {
          streak := 0;
          combo := 0;
        }
        TimerEffect();
      }
    }

    /** The correct-answer branch of `handleNextQuestion`: extend the
        streak, award `calculatePoints` (which sees the streak from before
        this answer) and run `checkAchievements` on the new streak and total. */
    method RewardCorrect(timeBonus: nat)
      requires Rewards()
      modifies this`streak, this`bestStreak, this`combo, this`points, this`pointsEarned,
               this`achievements, this`showAchievement
      ensures Rewards()
      ensures streak == old(streak) + 1 && combo == old(combo) + 1
      ensures bestStreak == Max(old(bestStreak), streak)
      ensures pointsEarned == CalculatePoints(true, difficulty, old(streak), timeBonus)
      ensures points == old(points) + pointsEarned
      ensures old(achievements) <= achievements
      ensures Unlocked(achievements[|old(achievements)|..], old(achievements), streak, points)
      ensures InCheckOrder(achievements[|old(achievements)|..])
      ensures showAchievement == if |achievements| > |old(achievements)|
                                 then Some(achievements[|old(achievements)|]) else old(showAchievement)
    {
      var earnedPoints := CalculatePoints(true, difficulty, streak, timeBonus);
      var newStreak, newPoints := streak + 1, points + earnedPoints;
      var newAchievements := NewAchievements(achievements, newStreak, newPoints);
      CorrectAnswerKeepsRewards(streak, bestStreak, achievements, points, showAchievement, earnedPoints, newAchievements);
      ghost var earned := achievements;
      var shown := if |newAchievements| > 0 then Some(newAchievements[0]) else showAchievement;
      streak, bestStreak, combo, points, pointsEarned, achievements, showAchievement :=
        newStreak, Max(bestStreak, newStreak), combo + 1, newPoints, earnedPoints,
        achievements + newAchievements, shown;
      assert achievements[|earned|..] == newAchievements;
    }

    /** `handleContinue`, the button rendered only while feedback is shown:
        hide the feedback, clear the selection, and move to the next
        question or, on the last one, finish. Hiding the feedback re-runs
        the timer effect, which finishes (again) when the clock is at 0. */
    method HandleContinue()
      requires Valid() && showFeedback && currentQuestionIndex < |questions|
      modifies this`showFeedback, this`selectedAnswer, this`currentQuestionIndex, this`reports
      ensures Valid()
      ensures !showFeedback && selectedAnswer == ""
      ensures currentQuestionIndex == if old(currentQuestionIndex) < |questions| - 1
                                      then old(currentQuestionIndex) + 1 else old(currentQuestionIndex)
      ensures reports == old(reports)
                         + (if old(currentQuestionIndex) == |questions| - 1 then [Outcome()] else [])
                         + (if timeLeft == 0 then [Outcome()] else [])
    {
      showFeedback := false;
      selectedAnswer := "";
      if currentQuestionIndex < |questions| - 1 {
        currentQuestionIndex := currentQuestionIndex + 1;
      } else {
        HandleFinishQuiz();
      }
      TimerEffect();
    }

    /** One second of the countdown. A tick is pending only while time is
        left and feedback is hidden; reaching 0 finishes the quiz. */
    method Tick()
      requires Valid()
      modifies this`timeLeft, this`reports
      ensures Valid()
      ensures if old(timeLeft) > 0 && !showFeedback
              then timeLeft == old(timeLeft) - 1 && reports == old(reports) + (if timeLeft == 0 then [Outcome()] else [])
              else timeLeft == old(timeLeft) && reports == old(reports)
    {
      if timeLeft > 0 && !showFeedback {
        timeLeft := timeLeft - 1;
        TimerEffect();
      }
    }
  }
}
