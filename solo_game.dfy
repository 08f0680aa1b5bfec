/**
 * app/game/solo/page.tsx: the solo game's question selection, answer
 * handling and end-of-game reward. React state becomes the fields of
 * `SoloGame`; the 3000 ms timeout scheduled by an answer becomes a
 * `Continuation` value holding what its closure captured, fired later by
 * `FireContinuation`. Database writes are returned as `ProfileUpdate`s.
 */
module SoloGame {
  import opened Wrappers
  import opened QuestionBank
  import Scoring

  /** `categoryMap`: the selected category's name to the bank's category. */
  function CategoryMap(name: string): (c: Option<Category>)
    ensures c.None? <==>
      name !in {"90s Cartoons", "Bollywood", "Hollywood", "Old Gadgets", "Childhood Snacks", "Toys & Games", "Mixed"}
  {
    if name == "90s Cartoons" then Some(Cartoons)
    else if name == "Bollywood" then Some(Bollywood)
    else if name == "Hollywood" then Some(Hollywood)
    else if name == "Old Gadgets" then Some(Gadgets)
    else if name == "Childhood Snacks" then Some(Snacks)
    else if name == "Toys & Games" then Some(Toys)
    else if name == "Mixed" then Some(Cartoons)
    else None
  }

  /** The category the pool is filtered by: none for a missing or empty parameter, for "Mixed" and for an unknown name. */
  function FilterCategory(selected: Option<string>): (c: Option<Category>)
    ensures selected.None? || selected == Some("") || selected == Some("Mixed") ==> c.None?
    ensures selected.Some? && selected.value != "" && selected.value != "Mixed" ==> c == CategoryMap(selected.value)
    ensures c.Some? ==> selected.Some? && CategoryMap(selected.value) == c
  {
    if selected.Some? && selected.value != "" && selected.value != "Mixed" then CategoryMap(selected.value) else None
  }

  /** `questions.filter(q => q.category === c)`. */
  function OfCategory(questions: seq<Question>, c: Category): (r: seq<Question>)
    ensures |r| <= |questions|
    ensures forall q :: q in r <==> q in questions && q.category == c
  {
    if |questions| == 0 then []
    else (if questions[0].category == c then [questions[0]] else []) + OfCategory(questions[1..], c)
  }

  /** Every category has questions in the bank, so the fall-back to the whole bank is never taken. */
  lemma {:induction false} CategoryPoolsNonEmpty(c: Category)
    ensures |OfCategory(SampleQuestions, c)| > 0
  {
    FilterFindsMember(SampleQuestions, Witness(c), c);
  }

  lemma FilterFindsMember(questions: seq<Question>, i: nat, c: Category)
    requires i < |questions| && questions[i].category == c
    ensures |OfCategory(questions, c)| > 0
  {
    assert questions[i] in OfCategory(questions, c);
  }

  /** `loadQuestion`'s pool over a bank: the filtered questions, or the whole bank when the filter is off or finds none. */
  function PoolOf(bank: seq<Question>, c: Option<Category>): (pool: seq<Question>)
    ensures |bank| > 0 ==> |pool| > 0
    ensures forall q :: q in pool ==> q in bank
    ensures c.None? ==> pool == bank
    ensures c.Some? && |OfCategory(bank, c.value)| > 0 ==> forall q :: q in pool <==> q in bank && q.category == c.value
    ensures c.Some? && |OfCategory(bank, c.value)| == 0 ==> pool == bank
  {
    var filtered := if c.Some? then OfCategory(bank, c.value) else bank;
    if |filtered| == 0 then bank else filtered
  }

  /** The questions the page draws from. */
  function Pool(selected: Option<string>): (pool: seq<Question>)
    ensures |pool| > 0
    ensures forall q :: q in pool ==> q in SampleQuestions
    ensures FilterCategory(selected).None? ==> pool == SampleQuestions
    ensures FilterCategory(selected).Some? ==>
      forall q :: q in pool <==> q in SampleQuestions && q.category == FilterCategory(selected).value
  {
    BankSize();
    var c := FilterCategory(selected);
    if c.Some? then CategoryPoolsNonEmpty(c.value); PoolOf(SampleQuestions, c)
    else PoolOf(SampleQuestions, c)
  }

  /** `availableQuestions[index % availableQuestions.length]`. */
  function SelectQuestion(selected: Option<string>, index: nat): (q: Question)
    ensures q in Pool(selected) && q in SampleQuestions && WellFormed(q)
    ensures FilterCategory(selected).Some? ==> q.category == FilterCategory(selected).value
  {
    var pool := Pool(selected);
    BankWellFormed();
    pool[index % |pool|]
  }

  lemma ModShift(a: nat, n: int)
    requires n > 0
    ensures (a + n) % n == a % n
  {
    var q, r := a / n, a % n;
    var d, m := (a + n) / n, (a + n) % n;
    var k := d - q - 1;
    assert k * n == r - m;
  }

  /** The pool is walked cyclically: question `i` and `i + |pool|` are the same. */
  lemma SelectionCycles(selected: Option<string>, index: nat)
    ensures SelectQuestion(selected, index + |Pool(selected)|) == SelectQuestion(selected, index)
  {
    ModShift(index, |Pool(selected)|);
  }

  /** The continue test run when the result timeout fires: 0 means unlimited. */
  function Continues(totalQuestions: int, questionIndex: int): (c: bool)
    ensures totalQuestions == 0 ==> c
    ensures totalQuestions > 0 && questionIndex >= 0 ==> (c <==> questionIndex + 1 < totalQuestions)
    ensures totalQuestions < 0 && questionIndex >= 0 ==> !c
  {
    totalQuestions == 0 || questionIndex < totalQuestions - 1
  }

  /** With a limit of 0 the game never reaches its end. */
  lemma UnlimitedNeverFinishes(questionIndex: int)
    ensures Continues(0, questionIndex)
  {
  }

  /** The indices of the questions shown from index `i` on, when each answer's timeout continues or finishes. */
  function PlayedFrom(totalQuestions: int, i: nat): seq<nat>
    requires totalQuestions > 0 && i < totalQuestions
    decreases totalQuestions - i
  {
    if Continues(totalQuestions, i) then [i] + PlayedFrom(totalQuestions, i + 1) else [i]
  }

  /** A limited game shows exactly the questions 0 .. total-1, once each and in order. */
  lemma {:induction false} PlayedAll(totalQuestions: int, i: nat)
    requires totalQuestions > 0 && i < totalQuestions
    ensures |PlayedFrom(totalQuestions, i)| == totalQuestions - i
    ensures forall k :: 0 <= k < totalQuestions - i ==> PlayedFrom(totalQuestions, i)[k] == i + k
    decreases totalQuestions - i
  {
    if Continues(totalQuestions, i) {
      PlayedAll(totalQuestions, i + 1);
    }
  }

  /** `handleTimeUp` submits index -1 after 10000 ms, which never matches a bank answer and scores nothing. */
  lemma {:induction false} TimeUpScoresNothing(q: Question)
    requires q in SampleQuestions
    ensures -1 != q.correctAnswer
    ensures Scoring.Points(-1 == q.correctAnswer, 10000) == 0
  {
    BankWellFormed();
  }

  /** The attack flags the page passes to the card; solo play only ever clears them. */
  datatype AttackFlags = AttackFlags(blur: bool, reverse: bool, shake: bool, fake: Option<string>, freeze: bool)

  const NoAttacks: AttackFlags := AttackFlags(false, false, false, None, false)

  /** The signed-in profile, with null xp and coins read as 0. */
  datatype Profile = Profile(id: string, xp: int, coins: int)

  /** The `profiles` row written at the end of a game. */
  datatype ProfileUpdate = ProfileUpdate(profileId: string, xp: int, coins: int)

  /** The reward for a final score and a count of correct answers. */
  function Reward(p: Profile, score: int, correctAnswers: int): (u: ProfileUpdate)
    ensures u.profileId == p.id
    ensures u.xp - p.xp == Scoring.XpFloor(score) && u.coins - p.coins == Scoring.CoinsGained(correctAnswers)
  {
    ProfileUpdate(p.id, p.xp + Scoring.XpFloor(score), p.coins + Scoring.CoinsGained(correctAnswers))
  }

  /** What the 3000 ms timeout's closure captured from the render that handled the answer. */
  datatype Continuation = Continuation(questionIndex: nat, score: int, correctAnswers: int, profile: Profile)

  class SoloGame {
    const selectedCategory: Option<string>
    const totalQuestions: int
    var gameId: Option<string>
    var gameStarted: bool
    var currentQuestion: Option<Question>
    var questionIndex: nat
    var score: int
    var correctAnswers: int
    var attacks: AttackFlags
    var showResult: bool

    ghost predicate Valid()
      reads this
    {
      && score >= 0 && correctAnswers >= 0
      && (currentQuestion.Some? ==> currentQuestion.value in SampleQuestions)
    }

    constructor (selectedCategory: Option<string>, totalQuestions: int)
      ensures Valid()
      ensures this.selectedCategory == selectedCategory && this.totalQuestions == totalQuestions
      ensures gameId == None && !gameStarted && currentQuestion == None && questionIndex == 0
      ensures score == 0 && correctAnswers == 0 && attacks == NoAttacks && !showResult
    {
      this.selectedCategory := selectedCategory;
      this.totalQuestions := totalQuestions;
      gameId := None;
      gameStarted := false;
      currentQuestion := None;
      questionIndex := 0;
      score := 0;
      correctAnswers := 0;
      attacks := NoAttacks;
      showResult := false;
    }

    /** The `games` row was inserted: the page now knows its id. */
    method GameCreated(id: string)
      modifies this
      ensures gameId == Some(id)
      ensures gameStarted == old(gameStarted) && currentQuestion == old(currentQuestion) && questionIndex == old(questionIndex)
      ensures score == old(score) && correctAnswers == old(correctAnswers) && attacks == old(attacks) && showResult == old(showResult)
    {
      gameId := Some(id);
    }

    /** `loadQuestion(index)`: shows the selected question with no attacks and no result. */
    method LoadQuestion(index: nat)
      requires Valid()
      modifies this
      ensures Valid()
      ensures currentQuestion == Some(SelectQuestion(selectedCategory, index))
      ensures attacks == NoAttacks && !showResult
      ensures gameId == old(gameId) && gameStarted == old(gameStarted) && questionIndex == old(questionIndex)
      ensures score == old(score) && correctAnswers == old(correctAnswers)
    {
      currentQuestion := Some(SelectQuestion(selectedCategory, index));
      attacks := NoAttacks;
      showResult := false;
    }

    /** `startGame`: the lobby's start button. */
    method StartGame()
      requires Valid()
      modifies this
      ensures Valid()
      ensures gameStarted && currentQuestion == Some(SelectQuestion(selectedCategory, 0))
      ensures attacks == NoAttacks && !showResult
      ensures gameId == old(gameId) && questionIndex == old(questionIndex)
      ensures score == old(score) && correctAnswers == old(correctAnswers)
    {
      gameStarted := true;
      LoadQuestion(0);
    }

    /**
     * `handleAnswer`: ignored without a question, a game id or a profile.
     * Otherwise a correct answer adds its points and one correct answer,
     * the result is shown, and a continuation is scheduled that captured
     * the values of this render, the score before this answer included.
     */
    method HandleAnswer(answerIndex: int, timeTaken: int, profile: Option<Profile>) returns (k: Option<Continuation>)
      requires Valid()
      modifies this
      ensures Valid()
      ensures old(currentQuestion).None? || old(gameId).None? || profile.None? ==>
        && k == None && score == old(score) && correctAnswers == old(correctAnswers) && showResult == old(showResult)
      ensures old(currentQuestion).Some? && old(gameId).Some? && profile.Some? ==>
        var isCorrect := answerIndex == old(currentQuestion).value.correctAnswer;
        && score == old(score) + Scoring.Points(isCorrect, timeTaken)
        && correctAnswers == old(correctAnswers) + (if isCorrect then 1 else 0)
        && showResult
        && k == Some(Continuation(old(questionIndex), old(score), old(correctAnswers), profile.value))
      ensures gameId == old(gameId) && gameStarted == old(gameStarted) && currentQuestion == old(currentQuestion)
      ensures questionIndex == old(questionIndex) && attacks == old(attacks)
    {
      if currentQuestion.None? || gameId.None? || profile.None? {
        return None;
      }
      k := Some(Continuation(questionIndex, score, correctAnswers, profile.value));
      var isCorrect := answerIndex == currentQuestion.value.correctAnswer;
      if isCorrect {
        score := score + Scoring.Points(isCorrect, timeTaken);
        correctAnswers := correctAnswers + 1;
      }
      showResult := true;
    }

    /** `handleTimeUp`: a wrong answer after the full ten seconds, which never changes the score. */
    method HandleTimeUp(profile: Option<Profile>) returns (k: Option<Continuation>)
      requires Valid()
      modifies this
      ensures Valid()
      ensures score == old(score) && correctAnswers == old(correctAnswers)
      ensures k.Some? <==> old(currentQuestion).Some? && old(gameId).Some? && profile.Some?
      ensures k.Some? ==> showResult && k.value.score == score && k.value.questionIndex == questionIndex
      ensures gameId == old(gameId) && currentQuestion == old(currentQuestion) && questionIndex == old(questionIndex)
    {
      if currentQuestion.Some? {
        TimeUpScoresNothing(currentQuestion.value);
      }
      k := HandleAnswer(-1, 10000, profile);
    }

    /**
     * The timeout firing, as written: it hides the result, then either
     * advances (the index from the live state, the question from the
     * captured one) or runs the captured `finishGame`, which rewards the
     * CAPTURED score and count.
     */
    method FireContinuation(k: Continuation) returns (update: Option<ProfileUpdate>)
      requires Valid()
      modifies this
      ensures Valid()
      ensures Continues(totalQuestions, k.questionIndex) ==>
        && update == None
        && questionIndex == old(questionIndex) + 1
        && currentQuestion == Some(SelectQuestion(selectedCategory, k.questionIndex + 1))
        && attacks == NoAttacks && !showResult
      ensures !Continues(totalQuestions, k.questionIndex) ==>
        && update == Some(Reward(k.profile, k.score, k.correctAnswers))
        && questionIndex == old(questionIndex) && currentQuestion == old(currentQuestion)
        && attacks == old(attacks) && !showResult
      ensures gameId == old(gameId) && gameStarted == old(gameStarted)
      ensures score == old(score) && correctAnswers == old(correctAnswers)
    {
      showResult := false;
      if Continues(totalQuestions, k.questionIndex) {
        questionIndex := questionIndex + 1;
        LoadQuestion(k.questionIndex + 1);
        update := None;
      } else {
        update := Some(Reward(k.profile, k.score, k.correctAnswers));
      }
    }

    /** The timeout firing as evidently intended: the reward is computed from the score and count as they are now. */
    method FireContinuationIntended(k: Continuation) returns (update: Option<ProfileUpdate>)
      requires Valid()
      modifies this
      ensures Valid()
      ensures Continues(totalQuestions, k.questionIndex) ==>
        && update == None
        && questionIndex == old(questionIndex) + 1
        && currentQuestion == Some(SelectQuestion(selectedCategory, k.questionIndex + 1))
        && attacks == NoAttacks && !showResult
      ensures !Continues(totalQuestions, k.questionIndex) ==>
        && update == Some(Reward(k.profile, score, correctAnswers))
        && questionIndex == old(questionIndex) && currentQuestion == old(currentQuestion)
        && attacks == old(attacks) && !showResult
      ensures gameId == old(gameId) && gameStarted == old(gameStarted)
      ensures score == old(score) && correctAnswers == old(correctAnswers)
    {
      showResult := false;
      if Continues(totalQuestions, k.questionIndex) {
        questionIndex := questionIndex + 1;
        LoadQuestion(k.questionIndex + 1);
        update := None;
      } else {
        update := Some(Reward(k.profile, score, correctAnswers));
      }
    }

    /** `handleLeaveGame`: once confirmed, the progress so far is rewarded when a game id and a profile exist. */
    method LeaveGame(confirmed: bool, profile: Option<Profile>) returns (update: Option<ProfileUpdate>)
      ensures update.Some? <==> confirmed && gameId.Some? && profile.Some?
      ensures update.Some? ==> update == Some(Reward(profile.value, score, correctAnswers))
    {
      if confirmed && gameId.Some? && profile.Some? {
        update := Some(Reward(profile.value, score, correctAnswers));
      } else {
        update := None;
      }
    }
  }

  /**
   * A one-question game answered correctly after 400 ms: the page shows a
   * score of 600, and the reward written, as the code is written, is 0 xp
   * and 0 coins.
   */
  method StaleRewardScenario() returns (finalScore: int, update: Option<ProfileUpdate>)
    ensures finalScore == 600
    ensures update == Some(ProfileUpdate("p", 0, 0))
  {
    var game := new SoloGame(None, 1);
    game.GameCreated("g");
    game.StartGame();
    var q := game.currentQuestion.value;
    var k := game.HandleAnswer(q.correctAnswer, 400, Some(Profile("p", 0, 0)));
    assert Scoring.Points(true, 400) == 600;
    update := game.FireContinuation(k.value);
    finalScore := game.score;
  }

  /** The same game with the corrected timeout: 600 points earn 60 xp and the one correct answer 5 coins. */
  method IntendedRewardScenario() returns (finalScore: int, update: Option<ProfileUpdate>)
    ensures finalScore == 600
    ensures update == Some(ProfileUpdate("p", 60, 5))
  {
    var game := new SoloGame(None, 1);
    game.GameCreated("g");
    game.StartGame();
    var q := game.currentQuestion.value;
    var k := game.HandleAnswer(q.correctAnswer, 400, Some(Profile("p", 0, 0)));
    assert Scoring.Points(true, 400) == 600;
    update := game.FireContinuationIntended(k.value);
    finalScore := game.score;
  }
}
