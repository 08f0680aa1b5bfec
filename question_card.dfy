/**
 * components/QuestionCard.tsx: the countdown, answer selection and the
 * attack effects on what is displayed. The 100 ms interval and the 2000 ms
 * freeze timeout become methods a driver calls when they fire.
 */
module QuestionCard {
  import opened Wrappers

  const TickMs: int := 100
  const FreezeMs: int := 2000

  /** One firing of the interval: at or below 100 ms left the countdown ends at 0 and reports time-up. */
  datatype TickResult = TickResult(timeLeft: int, timeUp: bool)

  function TickStep(prev: int): (r: TickResult)
    ensures r.timeLeft >= 0 && (r.timeUp <==> r.timeLeft == 0)
    ensures r.timeLeft == if prev - TickMs > 0 then prev - TickMs else 0
  {
    if prev <= TickMs then TickResult(0, true) else TickResult(prev - TickMs, false)
  }

  /** How many firings of the interval elapse from `timeLeft` until time-up is reported. */
  function TicksToTimeUp(timeLeft: int): (n: nat)
    decreases if timeLeft > 0 then timeLeft else 0
    ensures n >= 1
  {
    var step := TickStep(timeLeft);
    if step.timeUp then 1 else 1 + TicksToTimeUp(step.timeLeft)
  }

  /** An uninterrupted countdown lasts the time limit rounded up to whole ticks, and at least one tick. */
  lemma {:induction false} CountdownLength(timeLeft: int)
    requires timeLeft >= 0
    ensures TicksToTimeUp(timeLeft) == if timeLeft == 0 then 1 else (timeLeft + TickMs - 1) / TickMs
  {
    if timeLeft > TickMs {
      CountdownLength(timeLeft - TickMs);
    }
  }

  /** The ten-second question of both game pages ends after exactly one hundred ticks. */
  lemma TenSecondCountdown()
    ensures TicksToTimeUp(10000) == 100
  {
    CountdownLength(10000);
  }

  /** `question.split('').reverse().join('')`, one code unit per character. */
  function Reverse(s: string): (r: string)
    ensures |r| == |s|
  {
    if |s| == 0 then [] else Reverse(s[1..]) + [s[0]]
  }

  lemma {:induction false} ReverseAt(s: string, k: int)
    requires 0 <= k < |s|
    ensures Reverse(s)[k] == s[|s| - 1 - k]
  {
    if k < |s| - 1 {
      ReverseAt(s[1..], k);
    }
  }

  /** Reversing twice gives the question back. */
  lemma {:induction false} ReverseInvolution(s: string)
    ensures Reverse(Reverse(s)) == s
  {
    forall k | 0 <= k < |s|
      ensures Reverse(Reverse(s))[k] == s[k]
    {
      ReverseAt(Reverse(s), k);
      ReverseAt(s, |s| - 1 - k);
    }
  }

  /** The question as shown: under the reverse attack, its characters in the opposite order. */
  function DisplayQuestion(question: string, reverse: bool): (r: string)
    ensures |r| == |question|
    ensures !reverse ==> r == question
    ensures reverse ==> forall k :: 0 <= k < |r| ==> r[k] == question[|question| - 1 - k]
  {
    if reverse then
      var r := Reverse(question);
      assert forall k :: 0 <= k < |r| ==> r[k] == question[|question| - 1 - k] by {
        forall k | 0 <= k < |r| {
          ReverseAt(question, k);
        }
      }
      r
    else question
  }

  /** `fakeOption` is present only when it is a non-empty string. */
  predicate HasFake(fake: Option<string>)
  {
    fake.Some? && fake.value != ""
  }

  /** `fakeOption ? [...options, fakeOption] : options`. */
  function DisplayOptions(options: seq<string>, fake: Option<string>): (r: seq<string>)
    ensures |r| == if HasFake(fake) then |options| + 1 else |options|
    ensures r[..|options|] == options
    ensures HasFake(fake) ==> r[|options|] == fake.value
  {
    if HasFake(fake) then options + [fake.value] else options
  }

  /** The indices `from .. total-1`, leaving out `skip`. */
  function IndicesExcept(total: nat, skip: Option<nat>, from: nat): (r: seq<nat>)
    decreases total - from
    ensures forall k :: k in r <==> from <= k < total && skip != Some(k)
  {
    if from >= total then []
    else (if skip == Some(from) then [] else [from]) + IndicesExcept(total, skip, from + 1)
  }

  /**
   * The option buttons the map renders, as written: the fake option is
   * skipped when a fake is present and results are NOT shown.
   */
  function RenderedIndices(options: seq<string>, fake: Option<string>, showResult: bool): (r: seq<nat>)
    ensures forall k: nat :: k in r <==> k < |options| || (HasFake(fake) && showResult && k == |options|)
  {
    IndicesExcept(|DisplayOptions(options, fake)|,
      if HasFake(fake) && !showResult then Some(|options|) else None, 0)
  }

  /** As written, the fake option is hidden while the player can still answer, and appears only with the results. */
  lemma FakeHiddenWhileAnswering(options: seq<string>, fake: Option<string>, showResult: bool)
    requires HasFake(fake)
    ensures |options| in RenderedIndices(options, fake, showResult) <==> showResult
    ensures forall k :: 0 <= k < |options| ==> k in RenderedIndices(options, fake, showResult)
  {
  }

  /** The fake option is skipped when results are shown, as the comment beside the condition says. */
  function RenderedIndicesIntended(options: seq<string>, fake: Option<string>, showResult: bool): (r: seq<nat>)
    ensures forall k: nat :: k in r <==> k < |options| || (HasFake(fake) && !showResult && k == |options|)
  {
    IndicesExcept(|DisplayOptions(options, fake)|,
      if HasFake(fake) && showResult then Some(|options|) else None, 0)
  }

  /** Corrected: the fake sits among the real options while answering, and is dropped at the results. */
  lemma FakeShownWhileAnsweringIntended(options: seq<string>, fake: Option<string>, showResult: bool)
    requires HasFake(fake)
    ensures |options| in RenderedIndicesIntended(options, fake, showResult) <==> !showResult
    ensures forall k :: 0 <= k < |options| ==> k in RenderedIndicesIntended(options, fake, showResult)
    ensures forall k :: k in RenderedIndicesIntended(options, fake, showResult) ==> k <= |options|
  {
  }

  /** What `onAnswer` receives. */
  datatype AnswerReport = AnswerReport(index: int, timeTaken: int)

  class QuestionCard {
    var timeLimit: int
    var timeLeft: int
    var selected: Option<int>
    var frozen: bool

    ghost predicate Valid()
      reads this
    {
      0 <= timeLeft <= timeLimit
    }

    constructor (timeLimit: int)
      requires timeLimit >= 0
      ensures Valid()
      ensures this.timeLimit == timeLimit && timeLeft == timeLimit && selected == None && !frozen
    {
      this.timeLimit := timeLimit;
      timeLeft := timeLimit;
      selected := None;
      frozen := false;
    }

    /** The reset effect on a new question or time limit. */
    method QuestionChanged(timeLimit: int)
      requires timeLimit >= 0
      modifies this
      ensures Valid()
      ensures this.timeLimit == timeLimit && timeLeft == timeLimit && selected == None && !frozen
    {
      this.timeLimit := timeLimit;
      timeLeft := timeLimit;
      selected := None;
      frozen := false;
    }

    /** The `freeze` prop turning on. */
    method FreezeStarted()
      modifies this
      ensures frozen
      ensures timeLimit == old(timeLimit) && timeLeft == old(timeLeft) && selected == old(selected)
    {
      frozen := true;
    }

    /** The 2000 ms freeze timeout firing. */
    method FreezeExpired()
      modifies this
      ensures !frozen
      ensures timeLimit == old(timeLimit) && timeLeft == old(timeLeft) && selected == old(selected)
    {
      frozen := false;
    }

    /**
     * One firing of the 100 ms interval. No interval runs while the card is
     * disabled, frozen or under the freeze prop; an answer already selected
     * does not stop it.
     */
    method Tick(disabled: bool, freeze: bool) returns (timeUp: bool)
      requires Valid()
      modifies this
      ensures Valid()
      ensures disabled || old(frozen) || freeze ==> !timeUp && timeLeft == old(timeLeft)
      ensures !(disabled || old(frozen) || freeze) ==>
        timeUp == TickStep(old(timeLeft)).timeUp && timeLeft == TickStep(old(timeLeft)).timeLeft
      ensures timeUp ==> timeLeft == 0
      ensures timeLimit == old(timeLimit) && selected == old(selected) && frozen == old(frozen)
    {
      timeUp := false;
      if disabled || frozen || freeze {
        return;
      }
      var step := TickStep(timeLeft);
      timeLeft := step.timeLeft;
      timeUp := step.timeUp;
    }

    /** A click on option `index`: the first click on an enabled card is reported with the time spent so far. */
    method HandleAnswer(index: int, disabled: bool) returns (report: Option<AnswerReport>)
      requires Valid()
      modifies this
      ensures Valid()
      ensures disabled || old(selected).Some? ==> report == None && selected == old(selected)
      ensures !(disabled || old(selected).Some?) ==>
        && selected == Some(index)
        && report == Some(AnswerReport(index, timeLimit - timeLeft))
      ensures report.Some? ==> 0 <= report.value.timeTaken <= timeLimit
      ensures timeLimit == old(timeLimit) && timeLeft == old(timeLeft) && frozen == old(frozen)
    {
      if disabled || selected.Some? {
        return None;
      }
      selected := Some(index);
      report := Some(AnswerReport(index, timeLimit - timeLeft));
    }
  }
}
