/**
 * `generateScoreAndFeedback`: a random base score, a keyword bonus read from
 * the candidate's answer, the capped final score and a canned feedback text.
 * The two `Math.random()` draws are parameters: `r` is
 * `Math.floor(Math.random() * 30)` and `k` is
 * `Math.floor(Math.random() * feedbacks.length)`.
 */
module Scoring {

  /** `toLowerCase` on one character, restricted to ASCII letters. */
  function ToLower(c: char): char
  {
    if 'A' <= c <= 'Z' then (c as int + 32) as char else c
  }

  function ToUpper(c: char): char
  {
    if 'a' <= c <= 'z' then (c as int - 32) as char else c
  }

  function Lower(s: string): (r: string)
    ensures |r| == |s|
  {
    if s == [] then [] else [ToLower(s[0])] + Lower(s[1..])
  }

  function Upper(s: string): (r: string)
    ensures |r| == |s|
  {
    if s == [] then [] else [ToUpper(s[0])] + Upper(s[1..])
  }

  /** `sub` appears in `s` starting at position `i`. */
  predicate OccursAt(s: string, sub: string, i: int)
  {
    0 <= i && i + |sub| <= |s| && s[i..i + |sub|] == sub
  }

  /** `String.prototype.includes`: the first window that matches, scanning left to right. */
  function Includes(s: string, sub: string): (b: bool)
    ensures b <==> exists i :: OccursAt(s, sub, i)
    decreases |s|
  {
    if |sub| > |s| then false
    else if s[..|sub|] == sub then
      assert OccursAt(s, sub, 0);
      true
    else
      assert s != [];
      var b := Includes(s[1..], sub);
      ShiftedOccurrences(s, sub);
      b
  }

  /** Past a mismatch at the front, occurrences in `s` are those of its tail, one position later. */
  lemma ShiftedOccurrences(s: string, sub: string)
    requires |sub| <= |s| && s[..|sub|] != sub
    ensures s != []
    ensures forall i :: OccursAt(s, sub, i) <==> i >= 1 && OccursAt(s[1..], sub, i - 1)
    ensures (exists i :: OccursAt(s, sub, i)) <==> exists j :: OccursAt(s[1..], sub, j)
  {
    forall i ensures OccursAt(s, sub, i) <==> i >= 1 && OccursAt(s[1..], sub, i - 1) {
      if i >= 1 && i + |sub| <= |s| {
        assert s[1..][i - 1..i - 1 + |sub|] == s[i..i + |sub|];
      }
    }
    if j :| OccursAt(s[1..], sub, j) {
      assert OccursAt(s, sub, j + 1);
    }
  }

  /** The answer, lower-cased, mentions a loop ("map" or "for") and a "return". */
  ghost predicate MentionsLoopAndReturn(answer: string)
  {
    var a := Lower(answer);
    ((exists i :: OccursAt(a, "map", i)) || (exists i :: OccursAt(a, "for", i)))
    && exists i :: OccursAt(a, "return", i)
  }

  /** The `codingBonus` of `generateScoreAndFeedback`. */
  function CodingBonus(answer: string): (bonus: int)
    ensures bonus == 0 || bonus == 10
    ensures bonus == 10 <==> MentionsLoopAndReturn(answer)
  {
    var a := Lower(answer);
    if (Includes(a, "map") || Includes(a, "for")) && Includes(a, "return") then 10 else 0
  }

  /** Two strings that differ only in the case of ASCII letters. */
  ghost predicate SameIgnoringCase(a: string, b: string)
  {
    |a| == |b| && forall i :: 0 <= i < |a| ==> ToLower(a[i]) == ToLower(b[i])
  }

  lemma {:induction false} LowerIgnoresCase(a: string, b: string)
    requires SameIgnoringCase(a, b)
    ensures Lower(a) == Lower(b)
  {
    if a != [] {
      assert SameIgnoringCase(a[1..], b[1..]) by {
        forall i | 0 <= i < |a| - 1 ensures ToLower(a[1..][i]) == ToLower(b[1..][i]) {
          assert a[1..][i] == a[i + 1] && b[1..][i] == b[i + 1];
        }
      }
      LowerIgnoresCase(a[1..], b[1..]);
      assert ToLower(a[0]) == ToLower(b[0]);
    }
  }

  /** The bonus does not depend on the case of the letters of the answer. */
  lemma BonusIgnoresCase(a: string, b: string)
    requires SameIgnoringCase(a, b)
    ensures CodingBonus(a) == CodingBonus(b)
  {
    LowerIgnoresCase(a, b);
  }

  /** In particular, shouting the answer does not change the bonus. */
  lemma {:induction false} BonusIgnoresUpperCasing(a: string)
    ensures CodingBonus(Upper(a)) == CodingBonus(a)
  {
    assert SameIgnoringCase(Upper(a), a) by {
      UpperKeepsLower(a);
    }
    BonusIgnoresCase(Upper(a), a);
  }

  lemma {:induction false} UpperKeepsLower(a: string)
    ensures SameIgnoringCase(Upper(a), a)
  {
    if a != [] {
      UpperKeepsLower(a[1..]);
      forall i | 0 <= i < |a| ensures ToLower(Upper(a)[i]) == ToLower(a[i]) {
        if i > 0 { assert Upper(a)[i] == Upper(a[1..])[i - 1]; }
      }
    }
  }

  /** The `baseScore` of `generateScoreAndFeedback`, from the draw `r` in [0, 29]. */
  function BaseScore(r: int): (base: int)
    requires 0 <= r < 30
    ensures 60 <= base <= 89
  {
    r + 60
  }

  /** `Math.min(100, baseScore + codingBonus)`: the cap is never reached, the
      score lies in [60, 99], in [70, 99] with the bonus and [60, 89] without. */
  function FinalScore(r: int, answer: string): (score: int)
    requires 0 <= r < 30
    ensures score == BaseScore(r) + CodingBonus(answer) && score < 100
    ensures CodingBonus(answer) == 10 ==> 70 <= score <= 99
    ensures CodingBonus(answer) == 0 ==> 60 <= score <= 89
  {
    var total := BaseScore(r) + CodingBonus(answer);
    if total < 100 then total else 100
  }

  /** The four canned feedback texts. */
  const Feedbacks: seq<string> := [
    "Excellent problem-solving skills and clean code. Strong grasp of fundamental data structures.",
    "Good approach to the problem. Consider optimizing your solution and discussing time/space complexity.",
    "Solid coding foundation. Focus on handling edge cases and writing more descriptive variable names.",
    "A good starting point. Recommend practicing more DSA problems to improve speed and efficiency."
  ]

  /** What one call of `generateScoreAndFeedback` sets. */
  datatype Outcome = Outcome(score: int, feedback: string)

  function Generate(answer: string, r: int, k: int): (o: Outcome)
    requires 0 <= r < 30 && 0 <= k < |Feedbacks|
    ensures 60 <= o.score <= 99 && o.score > 0
    ensures o.feedback in Feedbacks && o.feedback != ""
    ensures o.score == if MentionsLoopAndReturn(answer) then r + 70 else r + 60
    ensures o.feedback == Feedbacks[k]
  {
    Outcome(FinalScore(r, answer), Feedbacks[k])
  }

  /** Text without upper-case ASCII letters is left as it is by lower-casing. */
  lemma {:induction false} LowerKeepsLowerCase(s: string)
    requires forall i :: 0 <= i < |s| ==> !('A' <= s[i] <= 'Z')
    ensures Lower(s) == s
  {
    if s != [] {
      assert forall i :: 0 <= i < |s| - 1 ==> s[1..][i] == s[i + 1];
      LowerKeepsLowerCase(s[1..]);
    }
  }

  /** The answer "for return" mentions a loop and a return, and earns the bonus. */
  lemma BonusExample()
    ensures CodingBonus("for return") == 10
  {
    LowerKeepsLowerCase("for return");
    assert OccursAt("for return", "for", 0);
    assert OccursAt("for return", "return", 4);
  }

  /** The answer "no keys" contains no keyword, and earns no bonus. */
  lemma NoBonusExample()
    ensures CodingBonus("no keys") == 0
  {
    LowerKeepsLowerCase("no keys");
    assert !Includes("no keys", "return");
  }
}
