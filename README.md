# Interview timer countdown, modelled in Dafny

This project models the countdown of the `InterviewTimer` React component of
the AI mock-interview application. The component runs a ten-minute interview
in five timed phases: introduction, DSA concepts, live coding, system design
and feedback. After these it enters a final `completed` phase. A one-second
interval takes one second off the remaining time. Each tick derives the phase
from the new time, opens the coding window when leaving 360 seconds, closes
it when leaving 120 seconds, and scores the candidate's answer when leaving
60 seconds and again on reaching zero.

Modules (one per concern of `components/interview-timer.tsx`):

- `Wrappers` (`wrappers.dfy`): the `Option` type.
- `Phases` (`phases.dfy`): the six phases, `PhaseAfter` (the threshold chain
  of the tick), the static `phases` table and `getCurrentPhaseInfo`.
- `Clock` (`clock.dfy`): `formatTime`, with JavaScript's `Math.floor`,
  truncating `%`, `toString` and `padStart(2, '0')`. It also has a decoder
  `ParseTime` for the `MM:SS` text, used to state the round trip.
- `Scoring` (`scoring.dfy`): `generateScoreAndFeedback`. This covers ASCII
  lower-casing, `includes`, the keyword bonus, the capped score and the four
  canned feedback texts. The random draws are parameters: `r` in [0, 29] is
  `Math.floor(Math.random() * 30)` and `k` in [0, 3] is the feedback index.
- `Timer` (`timer.dfy`): the tick. `Step` is its specification as a pure
  function over the state `{timeLeft, currentPhase, showCodingWindow, score,
  feedback}`. `Reachable` is the invariant of every state reachable from the
  initial one. The class `InterviewTimer` holds the component's state fields,
  and its `Tick` method follows the callback's branch chain. A ghost counter
  `ticks` counts the ticks taken.

Three consequences of the code that a reader of the component might not
expect:

- Without the bonus, the score lies in [60, 89], not [60, 90], because
  `Math.floor(Math.random() * 30)` is at most 29. With the bonus it lies in
  [70, 99], so `Math.min(100, …)` never caps anything.
- The coding window is shown for remaining times 120 to 359. This is not the
  whole coding phase (121 to 360). At 360 the phase is already `coding` but
  the window is still hidden, and at 120 the phase is `systemDesign` but the
  window is still shown.
- The result is computed twice: once on leaving 60 and again on reaching
  zero. The second result, from fresh draws, overwrites the first
  (`Timer.FinalTickRescores`).

## Model

| member | source | states |
|---|---|---|
| `Phases.Index` | Ai-Automation-Interview/components/interview-timer.tsx:12 | phases have timeline positions 0 to 5, with introduction first and completed last |
| `Phases.PhaseAfter` | Ai-Automation-Interview/components/interview-timer.tsx:82-110 | the threshold chain of the tick: introduction above 540, dsa above 360, coding above 120, system design above 60, feedback above 0, completed otherwise (its properties: `PhaseMonotone`, `CompletedExactlyAtZero`, `ThresholdsFollowDurations`) |
| `Phases.PhaseMonotone` | Ai-Automation-Interview/components/interview-timer.tsx:82-110 | less remaining time never selects an earlier phase |
| `Phases.CompletedExactlyAtZero` | Ai-Automation-Interview/components/interview-timer.tsx:100-110 | the tick selects `completed` exactly when the new time is at most zero |
| `Phases.Find` | Ai-Automation-Interview/components/interview-timer.tsx:68 | `find` returns the first entry whose id matches, or nothing exactly when no entry matches |
| `Phases.Table` | Ai-Automation-Interview/components/interview-timer.tsx:23-59 | the five entries of the `phases` array with their ids, names, durations, descriptions and colours |
| `Phases.InfoFor` | Ai-Automation-Interview/components/interview-timer.tsx:67-69 | the info of a phase is its own table entry; `completed` has none and falls back to the first entry, "Introduction" |
| `Phases.TableIndexedByPhase` | Ai-Automation-Interview/components/interview-timer.tsx:23-59 | every phase except `completed` has exactly one table entry, at its timeline position |
| `Phases.DurationsFillTimeline` | Ai-Automation-Interview/components/interview-timer.tsx:23-59 | the table's durations add up to 10 minutes, the 600 seconds the countdown starts from |
| `Phases.ThresholdsFollowDurations` | Ai-Automation-Interview/components/interview-timer.tsx:82-101 | the tick selects table entry i exactly while the remaining time lies within that entry's slice of the cumulative durations |
| `Clock.NatString` | Ai-Automation-Interview/components/interview-timer.tsx:64 | `toString` of a natural number has one digit below 10 and two digits from 10 to 99; `NatStringValue` states the digits themselves |
| `Clock.NatStringValue` | Ai-Automation-Interview/components/interview-timer.tsx:64 | for every natural number, `toString` consists of digits whose decimal value is that number |
| `Clock.NatStringNoLeadingZero` | Ai-Automation-Interview/components/interview-timer.tsx:64 | `toString` of a number of two or more digits never starts with '0' |
| `Clock.IntString` | Ai-Automation-Interview/components/interview-timer.tsx:64 | `toString` of an integer: a minus sign before the digits of a negative number (stated by `IntStringValue`) |
| `Clock.IntStringValue` | Ai-Automation-Interview/components/interview-timer.tsx:64 | for every integer, `toString` is the digits of a non-negative number, or '-' followed by the digits of the magnitude of a negative one (`NatStringValue` gives their value) |
| `Clock.PadStart` | Ai-Automation-Interview/components/interview-timer.tsx:64 | `padStart` yields a string of at least the requested width; `PadStartContents` states its contents |
| `Clock.PadStartContents` | Ai-Automation-Interview/components/interview-timer.tsx:64 | for every string, width and fill: `padStart` returns a string already at least `width` long unchanged, otherwise exactly `width - |s|` fill characters followed by the string |
| `Clock.JsRem` | Ai-Automation-Interview/components/interview-timer.tsx:63 | JavaScript `%` takes the sign of the dividend and agrees with the Euclidean remainder on non-negative input; `JsRemTruncates` states its value on negative input |
| `Clock.JsRemTruncates` | Ai-Automation-Interview/components/interview-timer.tsx:63 | for a negative dividend JavaScript `%` equals a + b * ((-a) / b), so the quotient is rounded toward zero; and `%` is odd in its dividend |
| `Clock.Pad2` | Ai-Automation-Interview/components/interview-timer.tsx:64 | `toString` of a field followed by `padStart(2, '0')` (its digits below 100: `Pad2Digits`) |
| `Clock.Pad2Digits` | Ai-Automation-Interview/components/interview-timer.tsx:64 | every number below 100 is padded to exactly its tens digit followed by its units digit |
| `Clock.FormatTime` | Ai-Automation-Interview/components/interview-timer.tsx:61-65 | `formatTime`: floored minutes and truncated seconds, each padded to two characters, joined by ':' (its properties: `FormatRoundTrip`, `ParseRoundTrip`, `FormatInjective`) |
| `Clock.FormatSpelled` | Ai-Automation-Interview/components/interview-timer.tsx:61-65 | below 100 minutes, the rendering is the two minute digits, a colon, then the two second digits |
| `Clock.FormatRoundTrip` | Ai-Automation-Interview/components/interview-timer.tsx:61-65 | for 0 to 5999 seconds the rendering is five characters with digits around a colon at index 2, and decoding it returns the seconds |
| `Clock.ParseRoundTrip` | Ai-Automation-Interview/components/interview-timer.tsx:61-65 | every `MM:SS` string the decoder accepts is exactly the rendering of the seconds it decodes to |
| `Clock.FormatInjective` | Ai-Automation-Interview/components/interview-timer.tsx:61-65 | distinct times below 100 minutes render differently |
| `Clock.FormatExamples` | Ai-Automation-Interview/components/interview-timer.tsx:61-65 | 600, 599, 60 and 0 seconds render as "10:00", "09:59", "01:00" and "00:00" |
| `Clock.FormatNegative` | Ai-Automation-Interview/components/interview-timer.tsx:61-65 | one second below zero renders as "-1:-1"; the countdown never reaches such a time |
| `Scoring.Lower` | Ai-Automation-Interview/components/interview-timer.tsx:127 | lower-casing keeps the length of the answer |
| `Scoring.ToLower` | Ai-Automation-Interview/components/interview-timer.tsx:127 | `toLowerCase` on one character: ASCII 'A'..'Z' map to 'a'..'z', every other character is unchanged |
| `Scoring.Includes` | Ai-Automation-Interview/components/interview-timer.tsx:127 | `includes` holds exactly when the keyword occurs at some position of the text |
| `Scoring.CodingBonus` | Ai-Automation-Interview/components/interview-timer.tsx:127 | the bonus is 10 exactly when the lower-cased answer contains "map" or "for", and also "return"; otherwise it is 0 |
| `Scoring.LowerIgnoresCase` | Ai-Automation-Interview/components/interview-timer.tsx:127 | answers that differ only in letter case lower-case to the same text |
| `Scoring.BonusIgnoresCase` | Ai-Automation-Interview/components/interview-timer.tsx:127 | the bonus is the same for answers that differ only in letter case |
| `Scoring.BonusIgnoresUpperCasing` | Ai-Automation-Interview/components/interview-timer.tsx:127 | upper-casing the answer does not change the bonus |
| `Scoring.LowerKeepsLowerCase` | Ai-Automation-Interview/components/interview-timer.tsx:127 | lower-casing leaves text without upper-case letters unchanged |
| `Scoring.NoBonusExample` | Ai-Automation-Interview/components/interview-timer.tsx:127 | the answer "no keys" earns no bonus (the general fact is `CodingBonus`'s contract) |
| `Scoring.BonusExample` | Ai-Automation-Interview/components/interview-timer.tsx:127 | the answer "for return" earns the bonus of 10 |
| `Scoring.BaseScore` | Ai-Automation-Interview/components/interview-timer.tsx:126 | the base score lies in [60, 89] |
| `Scoring.FinalScore` | Ai-Automation-Interview/components/interview-timer.tsx:126-128 | the cap at 100 never applies; the score lies in [70, 99] with the bonus and [60, 89] without |
| `Scoring.Feedbacks` | Ai-Automation-Interview/components/interview-timer.tsx:132-137 | the four canned feedback texts, in order |
| `Scoring.Generate` | Ai-Automation-Interview/components/interview-timer.tsx:124-140 | a scoring gives a positive score in [60, 99], which is base + 10 exactly when the answer mentions a loop and a return, together with feedback text `k` of the four |
| `Timer.InitialReachable` | Ai-Automation-Interview/components/interview-timer.tsx:15-20 | the initial state satisfies the reachability invariant |
| `Timer.Step` | Ai-Automation-Interview/components/interview-timer.tsx:78-113 | one tick as a pure function: one second less, the phase of the new time, the window opened on leaving 360 and closed on leaving 120, a fresh scoring on leaving 60 and on reaching zero (tied to the callback by `Tick`, its invariant by `StepPreservesReachable`) |
| `Timer.TickEnabled` | Ai-Automation-Interview/components/interview-timer.tsx:76 | the interval runs only while the session is started and time is left |
| `Timer.StepPreservesReachable` | Ai-Automation-Interview/components/interview-timer.tsx:78-113 | a tick takes one second off and keeps the invariant: time in [0, 600], phase equal to the threshold phase, window shown exactly for 120 to 359, no result at 60 or more, a result in [60, 99] below 60 |
| `Timer.WindowTogglesOnlyAtBoundaries` | Ai-Automation-Interview/components/interview-timer.tsx:88-99 | the coding window changes only on the tick leaving 360 (opened) or leaving 120 (closed) |
| `Timer.ResultChangesOnlyAtBoundaries` | Ai-Automation-Interview/components/interview-timer.tsx:100-110 | score and feedback change only on the tick leaving 60 or the tick reaching zero |
| `Timer.PhaseNeverGoesBack` | Ai-Automation-Interview/components/interview-timer.tsx:82-110 | the phase index never decreases from one tick to the next |
| `Timer.WindowLagsPhase` | Ai-Automation-Interview/components/interview-timer.tsx:88-99 | at 360 the phase is coding but the window is hidden; at 120 the phase is system design but the window is shown |
| `Timer.WindowShownExactly` | Ai-Automation-Interview/components/interview-timer.tsx:88-99 | in reachable states the window is shown exactly for 120 to 359 seconds left: the coding phase except its first second (360), plus the first second of system design (120) |
| `Timer.WindowClosedWhileScoring` | Ai-Automation-Interview/components/interview-timer.tsx:91-105 | in reachable states the window, and with it the answer's text area, is closed from 119 seconds on, in particular at both scoring ticks |
| `Timer.ResultsShownExactly` | Ai-Automation-Interview/components/interview-timer.tsx:222 | in reachable states the results panel is shown exactly when at most 59 seconds are left |
| `Timer.ResultsShown` | Ai-Automation-Interview/components/interview-timer.tsx:222 | the results panel's condition: feedback or completed phase, and a positive score |
| `Timer.FinalTickRescores` | Ai-Automation-Interview/components/interview-timer.tsx:106-110 | the tick reaching zero sets the phase to completed and overwrites the result with a fresh score and feedback |
| `Timer.RunReachable` | Ai-Automation-Interview/components/interview-timer.tsx:76-113 | while ticks are enabled, n ticks take n seconds off and keep the state reachable |
| `Timer.CountdownLasts600Ticks` | Ai-Automation-Interview/components/interview-timer.tsx:76-117 | from the initial state a tick stays enabled for 600 ticks; after them the phase is completed, the results are shown and no tick is enabled |
| `Timer.InterviewTimer.constructor` | Ai-Automation-Interview/components/interview-timer.tsx:14-20 | starts with 600 seconds, introduction, window hidden, empty answer, score 0 and empty feedback |
| `Timer.InterviewTimer.SetSessionStarted` | Ai-Automation-Interview/components/interview-timer.tsx:14 | the host page's `sessionStarted` flag replaces the stored one |
| `Timer.InterviewTimer.SetCodingAnswer` | Ai-Automation-Interview/components/interview-timer.tsx:209-211 | the text area, present only while the window is shown, replaces the answer |
| `Timer.InterviewTimer.GenerateScoreAndFeedback` | Ai-Automation-Interview/components/interview-timer.tsx:124-140 | sets score and feedback to the scoring of the answer with the given draws |
| `Timer.InterviewTimer.Tick` | Ai-Automation-Interview/components/interview-timer.tsx:76-113 | runs only while the session is started and time is left; the new state is `Step` of the old one, the invariant is kept and one more tick is counted |
| `Timer.InterviewTimer.Render` | Ai-Automation-Interview/components/interview-timer.tsx:142-222 | renders nothing before the session starts; afterwards a clock that decodes to the remaining time, the phase name from the table, the coding panel exactly for 120 to 359 and the results panel exactly for 59 or less |

## Left out

- `getProgressPercentage` (lines 71-73) is floating-point division and is not modelled.
- The `setInterval`/`clearInterval` scheduling of the `useEffect` hook (lines 75-122) is not modelled. Only the effect of one tick is modelled, and the tick's guard `sessionStarted && timeLeft > 0` is a precondition of `Tick`.
- The random draws of lines 126 and 139 are parameters `r` and `k` with their ranges as preconditions.
- React's stale closure over `codingAnswer` is not modelled. The answer that the interval callback sees is passed to `Tick` explicitly.
- Scoring.Lower: only ASCII letters are lower-cased. Full Unicode `toLowerCase` is not modelled, and the keywords are all ASCII.
- Clock.FormatTime: the model takes integer seconds only. Fractional numbers never occur because the countdown only subtracts 1.
- JSX rendering, animations, styling and the problem text (lines 146-252) are not modelled beyond the visibility of the badge and the two panels, which `Render` states.
- `app.py` (agent start-up over speech, language-model and voice services) is not part of this model.
