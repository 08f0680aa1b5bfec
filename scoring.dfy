/**
 * The scoring and reward rules shared by both servers and the solo page:
 * `Math.max(100, 1000 - timeTaken)` for a correct answer, and at the end of
 * a match `score / 10` experience and `correctAnswers * 5` coins.
 */
module Scoring {

  /** `Math.max(100, 1000 - timeTaken)`: the points a correct answer earns. */
  function CorrectPoints(timeTaken: int): (p: int)
    ensures p >= 100 && p >= 1000 - timeTaken
    ensures p == 100 || p == 1000 - timeTaken
  {
    if 1000 - timeTaken > 100 then 1000 - timeTaken else 100
  }

  /** `isCorrect ? Math.max(100, 1000 - timeTaken) : 0`. */
  function Points(isCorrect: bool, timeTaken: int): (p: int)
    ensures !isCorrect ==> p == 0
    ensures isCorrect ==> p >= 100
    ensures isCorrect && timeTaken >= 0 ==> p <= 1000
    ensures isCorrect && timeTaken <= 900 ==> p == 1000 - timeTaken
    ensures isCorrect && timeTaken >= 900 ==> p == 100
  {
    if isCorrect then CorrectPoints(timeTaken) else 0
  }

  /** Points never grow with the time taken: a faster correct answer earns at least as much. */
  lemma PointsAntitone(isCorrect: bool, fast: int, slow: int)
    requires fast <= slow
    ensures Points(isCorrect, fast) >= Points(isCorrect, slow)
  {
  }

  /** `Math.floor(score / 10)`. */
  function XpFloor(score: int): (xp: int)
    ensures 10 * xp <= score < 10 * xp + 10
  {
    score / 10
  }

  /** `score / 10` in JavaScript's (floating-point) division, taken here as exact. */
  function XpExact(score: int): (xp: real)
    ensures 10.0 * xp == score as real
  {
    score as real / 10.0
  }

  /** The floored reward is the floor of the exact quotient. */
  lemma {:induction false} XpFloorIsFloorOfExact(score: int)
    ensures XpFloor(score) == XpExact(score).Floor
  {
    var q := XpFloor(score);
    var x := XpExact(score);
    assert q as real <= x < q as real + 1.0;
  }

  /** The two agree exactly when the score is a multiple of ten. */
  lemma {:induction false} XpExactIsWholeIff(score: int)
    ensures XpExact(score) == XpFloor(score) as real <==> score % 10 == 0
  {
    var q := XpFloor(score);
    if score % 10 == 0 {
      assert score == 10 * q;
    } else {
      assert 10.0 * XpExact(score) != 10.0 * (q as real);
    }
  }

  /** `correctAnswers * 5`. */
  function CoinsGained(correctAnswers: int): (c: int)
    ensures c % 5 == 0 && c / 5 == correctAnswers
  {
    correctAnswers * 5
  }
}
