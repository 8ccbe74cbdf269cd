/**
 * The countdown of the interview timer component: its state, the effect of
 * one tick of the one-second interval, and the facts that hold of every state
 * the countdown can reach from the initial one.
 *
 * `Step` is the specification of one tick as a pure function; the class
 * `InterviewTimer` holds the component's state fields and its `Tick` method
 * performs the tick the way the interval callback does, branch by branch.
 */
module Timer {
  import opened Wrappers
  import opened Phases
  import opened Scoring
  import opened Clock

  /** The fields a tick reads and writes. */
  datatype State = State(timeLeft: int, phase: Phase, showCodingWindow: bool, score: int, feedback: string)

  /** Ten minutes left, introduction, coding window hidden, no result yet. */
  const Initial: State := State(TotalSeconds, Introduction, false, 0, "")

  /** The two random draws of one scoring: `r` for the base score, `k` for the feedback text. */
  predicate ValidDraws(r: int, k: int)
  {
    0 <= r < 30 && 0 <= k < |Feedbacks|
  }

  /** The interval runs, and so ticks happen, only while this holds. */
  predicate TickEnabled(sessionStarted: bool, s: State)
  {
    sessionStarted && s.timeLeft > 0
  }

  /** One tick: one second less, the phase of the new time, the coding window
      opened when leaving 360 and closed when leaving 120, and a fresh result
      when leaving 60 and when reaching zero. `answer` is the answer the
      interval callback sees. */
  function Step(s: State, answer: string, r: int, k: int): State
    requires ValidDraws(r, k)
  {
    var newTime := s.timeLeft - 1;
    var window := if s.timeLeft == 360 then true
                  else if s.timeLeft == 120 then false
                  else s.showCodingWindow;
    var result := if s.timeLeft == 60 || newTime <= 0 then Generate(answer, r, k)
                  else Outcome(s.score, s.feedback);
    State(newTime, PhaseAfter(newTime), window, result.score, result.feedback)
  }

  /** What holds of every state reachable from `Initial`. */
  ghost predicate Reachable(s: State)
  {
    && 0 <= s.timeLeft <= TotalSeconds
    && s.phase == PhaseAfter(s.timeLeft)
    && (s.showCodingWindow <==> 120 <= s.timeLeft <= 359)
    && (s.timeLeft >= 60 ==> s.score == 0 && s.feedback == "")
    && (s.timeLeft < 60 ==> 60 <= s.score <= 99 && s.feedback in Feedbacks)
  }

  /** The results panel: feedback or completed phase, and a score. */
  predicate ResultsShown(s: State)
  {
    (s.phase == Feedback || s.phase == Completed) && s.score > 0
  }

  lemma InitialReachable()
    ensures Reachable(Initial)
  {
  }

  /** Every tick keeps the state reachable and takes exactly one second off. */
  lemma StepPreservesReachable(s: State, answer: string, r: int, k: int)
    requires Reachable(s) && s.timeLeft > 0 && ValidDraws(r, k)
    ensures Reachable(Step(s, answer, r, k))
    ensures Step(s, answer, r, k).timeLeft == s.timeLeft - 1
  {
  }

  /** The coding window changes only when leaving 360 (opened) or 120 (closed). */
  lemma WindowTogglesOnlyAtBoundaries(s: State, answer: string, r: int, k: int)
    requires ValidDraws(r, k)
    ensures Step(s, answer, r, k).showCodingWindow != s.showCodingWindow ==>
              (s.timeLeft == 360 && Step(s, answer, r, k).showCodingWindow)
              || (s.timeLeft == 120 && !Step(s, answer, r, k).showCodingWindow)
  {
  }

  /** The result changes only when leaving 60 or reaching zero. */
  lemma ResultChangesOnlyAtBoundaries(s: State, answer: string, r: int, k: int)
    requires ValidDraws(r, k)
    ensures (Step(s, answer, r, k).score != s.score || Step(s, answer, r, k).feedback != s.feedback)
            ==> s.timeLeft == 60 || s.timeLeft <= 1
  {
  }

  /** The phase never goes backwards from one tick to the next. */
  lemma PhaseNeverGoesBack(s: State, answer: string, r: int, k: int)
    requires Reachable(s) && ValidDraws(r, k)
    ensures Index(s.phase) <= Index(Step(s, answer, r, k).phase)
  {
    PhaseMonotone(s.timeLeft - 1, s.timeLeft);
  }

  /** The two boundary seconds where phase and window disagree: at 360 the
      coding phase has begun but the window is still hidden; at 120 the
      system-design phase has begun but the window is still shown. */
  lemma WindowLagsPhase(s: State)
    requires Reachable(s)
    ensures s.timeLeft == 360 ==> s.phase == Coding && !s.showCodingWindow
    ensures s.timeLeft == 120 ==> s.phase == SystemDesign && s.showCodingWindow
  {
  }

  /** The coding window is shown exactly for 120 to 359 seconds left: the
      coding phase except its first second (360), plus the first second of
      system design (120). */
  lemma WindowShownExactly(s: State)
    requires Reachable(s)
    ensures s.showCodingWindow <==> 120 <= s.timeLeft <= 359
    ensures s.showCodingWindow ==> s.phase == Coding || (s.phase == SystemDesign && s.timeLeft == 120)
  {
  }

  /** From 119 seconds left on the coding window is closed, so the answer
      text area is gone at both scoring ticks (leaving 60 and reaching zero):
      the answer they score can no longer be edited. */
  lemma WindowClosedWhileScoring(s: State)
    requires Reachable(s)
    ensures s.timeLeft <= 119 ==> !s.showCodingWindow
    ensures s.timeLeft == 60 || s.timeLeft == 1 ==> !s.showCodingWindow
  {
  }

  /** The results panel is shown exactly in the last 59 seconds and at zero. */
  lemma ResultsShownExactly(s: State)
    requires Reachable(s)
    ensures ResultsShown(s) <==> s.timeLeft <= 59
  {
  }

  /** The tick reaching zero scores again and overwrites the result computed
      when leaving 60, with fresh draws. */
  lemma FinalTickRescores(s: State, answer: string, r: int, k: int)
    requires Reachable(s) && s.timeLeft == 1 && ValidDraws(r, k)
    ensures Step(s, answer, r, k).score == FinalScore(r, answer)
    ensures Step(s, answer, r, k).feedback == Feedbacks[k]
    ensures Step(s, answer, r, k).phase == Completed
  {
  }

  /** The inputs of one tick: the answer the callback sees and the two draws. */
  datatype TickInput = TickInput(answer: string, r: int, k: int)

  predicate AllValid(ds: seq<TickInput>)
  {
    forall i :: 0 <= i < |ds| ==> ValidDraws(ds[i].r, ds[i].k)
  }

  /** The state after the ticks `ds`, in order. */
  function Run(s: State, ds: seq<TickInput>): State
    requires AllValid(ds)
    decreases |ds|
  {
    if ds == [] then s
    else Run(Step(s, ds[0].answer, ds[0].r, ds[0].k), ds[1..])
  }

  /** While ticks are enabled, `n` ticks take `n` seconds off and keep the state reachable. */
  lemma {:induction false} RunReachable(s: State, ds: seq<TickInput>)
    requires Reachable(s) && AllValid(ds) && |ds| <= s.timeLeft
    ensures Reachable(Run(s, ds))
    ensures Run(s, ds).timeLeft == s.timeLeft - |ds|
    decreases |ds|
  {
    if ds != [] {
      StepPreservesReachable(s, ds[0].answer, ds[0].r, ds[0].k);
      assert AllValid(ds[1..]) by {
        forall i | 0 <= i < |ds| - 1 ensures ValidDraws(ds[1..][i].r, ds[1..][i].k) {
          assert ds[1..][i] == ds[i + 1];
        }
      }
      RunReachable(Step(s, ds[0].answer, ds[0].r, ds[0].k), ds[1..]);
    }
  }

  /** From the initial state the countdown runs for exactly 600 ticks: before
      that a tick is still enabled, after it the interview is completed, the
      results are shown and no tick is enabled any more. */
  lemma CountdownLasts600Ticks(ds: seq<TickInput>, started: bool)
    requires AllValid(ds) && |ds| <= TotalSeconds
    ensures |ds| < TotalSeconds ==> TickEnabled(started, Run(Initial, ds)) == started
    ensures |ds| == TotalSeconds ==>
              !TickEnabled(started, Run(Initial, ds)) && Run(Initial, ds).phase == Completed
              && ResultsShown(Run(Initial, ds))
  {
    RunReachable(Initial, ds);
    assert Run(Initial, ds).timeLeft == TotalSeconds - |ds|;
    assert PhaseAfter(0) == Completed;
  }

  /** What the component renders. */
  datatype View = Hidden | Shown(clock: string, phaseName: string, codingPanel: bool, resultsPanel: bool)

  class InterviewTimer {
    var sessionStarted: bool
    var timeLeft: int
    var currentPhase: Phase
    var showCodingWindow: bool
    var codingAnswer: string
    var score: int
    var feedback: string
    /** Number of ticks so far. */
    ghost var ticks: nat

    function Snapshot(): State
      reads this
    {
      State(timeLeft, currentPhase, showCodingWindow, score, feedback)
    }

    ghost predicate Valid()
      reads this
    {
      Reachable(Snapshot()) && ticks == TotalSeconds - timeLeft
    }

    constructor (sessionStarted: bool)
      ensures Valid() && Snapshot() == Initial && ticks == 0
      ensures this.sessionStarted == sessionStarted && codingAnswer == ""
    {
      this.sessionStarted := sessionStarted;
      timeLeft := 10 * 60;
      currentPhase := Introduction;
      showCodingWindow := false;
      codingAnswer := "";
      score := 0;
      feedback := "";
      ticks := 0;
    }

    /** The host page starts or stops the session. */
    method SetSessionStarted(started: bool)
      requires Valid()
      modifies this`sessionStarted
      ensures Valid() && sessionStarted == started
    {
      sessionStarted := started;
    }

    /** The candidate edits the answer; the text area exists only while the coding window is shown. */
    method SetCodingAnswer(text: string)
      requires Valid() && sessionStarted && showCodingWindow
      modifies this`codingAnswer
      ensures Valid() && codingAnswer == text
    {
      codingAnswer := text;
    }

    /** `generateScoreAndFeedback`, with the random draws as parameters. In the
        component it is private: only `Tick` calls it, on leaving 60 and on
        reaching zero, which is how `Valid()` survives the call. */
    method GenerateScoreAndFeedback(answer: string, r: int, k: int)
      requires ValidDraws(r, k)
      modifies this`score, this`feedback
      ensures score == Generate(answer, r, k).score && feedback == Generate(answer, r, k).feedback
      ensures 60 <= score <= 99 && feedback in Feedbacks
    {
      var baseScore := r + 60;
      var codingBonus := CodingBonus(answer);
      var finalScore := if 100 < baseScore + codingBonus then 100 else baseScore + codingBonus;
      score := finalScore;
      feedback := Feedbacks[k];
    }

    /** One run of the interval callback. `answer` stands for the value of
        `codingAnswer` that the callback captured when it was created. */
    method Tick(answer: string, r: int, k: int)
      requires Valid() && TickEnabled(sessionStarted, Snapshot()) && ValidDraws(r, k)
      modifies this
      ensures Snapshot() == Step(old(Snapshot()), answer, r, k)
      ensures Valid() && ticks == old(ticks) + 1
      ensures sessionStarted == old(sessionStarted) && codingAnswer == old(codingAnswer)
    {
      var prev := timeLeft;
      var newTime := prev - 1;
      if newTime > 9 * 60 {
        currentPhase := Introduction;
      } else if newTime > 6 * 60 {
        currentPhase := Dsa;
      } else if newTime > 2 * 60 {
        currentPhase := Coding;
        if prev == 6 * 60 {
          showCodingWindow := true;
        }
      } else if newTime > 1 * 60 {
        currentPhase := SystemDesign;
        if prev == 2 * 60 {
          showCodingWindow := false;
        }
      } else if newTime > 0 {
        currentPhase := Feedback;
        if prev == 1 * 60 {
          GenerateScoreAndFeedback(answer, r, k);
        }
      } else {
        currentPhase := Completed;
        GenerateScoreAndFeedback(answer, r, k);
      }
      timeLeft := newTime;
      ticks := ticks + 1;
      StepPreservesReachable(old(Snapshot()), answer, r, k);
    }

    /** What the component renders: nothing before the session starts; then
        the badge with the clock and the phase name, and the two panels. */
    method Render() returns (v: View)
      requires Valid()
      ensures !sessionStarted <==> v.Hidden?
      ensures v.Shown? ==> ParseTime(v.clock) == Some(timeLeft) && |v.clock| == 5
      ensures v.Shown? ==> v.phaseName == InfoFor(currentPhase).name
      ensures v.Shown? ==> (v.codingPanel <==> 120 <= timeLeft <= 359)
      ensures v.Shown? ==> (v.resultsPanel <==> timeLeft <= 59)
    {
      if !sessionStarted {
        return Hidden;
      }
      var info := InfoFor(currentPhase);
      FormatRoundTrip(timeLeft);
      ResultsShownExactly(Snapshot());
      v := Shown(FormatTime(timeLeft), info.name, showCodingWindow,
                 (currentPhase == Feedback || currentPhase == Completed) && score > 0);
    }
  }
}
