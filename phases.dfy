/**
 * The fixed ten-minute interview timeline: the six phases, the thresholds on the
 * remaining seconds that select a phase, and the static table of phase
 * descriptions with its lookup (which falls back to the first entry).
 */
module Phases {
  import opened Wrappers

  /** The `InterviewPhase` union of the component. */
  datatype Phase = Introduction | Dsa | Coding | SystemDesign | Feedback | Completed

  /** Total length of the interview, ten minutes, in seconds. */
  const TotalSeconds: int := 10 * 60

  /** Position of a phase on the timeline; used to state that phases never go backwards. */
  function Index(p: Phase): (i: nat)
    ensures i <= 5
    ensures p == Introduction <==> i == 0
    ensures p == Completed <==> i == 5
  {
    match p
    case Introduction => 0
    case Dsa => 1
    case Coding => 2
    case SystemDesign => 3
    case Feedback => 4
    case Completed => 5
  }

  /** The phase a tick selects from the new remaining time. */
  function PhaseAfter(newTime: int): Phase
  {
    if newTime > 9 * 60 then Introduction
    else if newTime > 6 * 60 then Dsa
    else if newTime > 2 * 60 then Coding
    else if newTime > 1 * 60 then SystemDesign
    else if newTime > 0 then Feedback
    else Completed
  }

  /** Less remaining time never selects an earlier phase. */
  lemma PhaseMonotone(later: int, earlier: int)
    requires later <= earlier
    ensures Index(PhaseAfter(earlier)) <= Index(PhaseAfter(later))
  {
  }

  /** The phase reached with no time left is the last one, and only then. */
  lemma CompletedExactlyAtZero(t: int)
    ensures PhaseAfter(t) == Completed <==> t <= 0
  {
  }

  /** One entry of the static `phases` array. */
  datatype PhaseInfo = PhaseInfo(id: Phase, name: string, duration: nat, description: string, color: string)

  /** The static table: five entries, no entry for `completed`. */
  const Table: seq<PhaseInfo> := [
    PhaseInfo(Introduction, "Introduction", 1, "Behavioral & Background", "from-blue-500 to-blue-600"),
    PhaseInfo(Dsa, "DSA Concepts", 3, "Data Structures & Algorithms", "from-green-500 to-green-600"),
    PhaseInfo(Coding, "Live Coding", 4, "Practical Coding Challenge", "from-indigo-500 to-indigo-600"),
    PhaseInfo(SystemDesign, "System Design", 1, "High-Level Architecture", "from-orange-500 to-orange-600"),
    PhaseInfo(Feedback, "Feedback & Score", 1, "Final Results & Feedback", "from-purple-500 to-purple-600")
  ]

  /** `Array.prototype.find` on the id: the first entry whose id matches, if any. */
  function Find(table: seq<PhaseInfo>, p: Phase): (r: Option<PhaseInfo>)
    ensures r.Some? ==> exists i :: 0 <= i < |table| && table[i] == r.value && r.value.id == p
                                    && forall j :: 0 <= j < i ==> table[j].id != p
    ensures r.None? <==> forall j :: 0 <= j < |table| ==> table[j].id != p
  {
    if table == [] then None
    else if table[0].id == p then Some(table[0])
    else
      var rest := Find(table[1..], p);
      if rest.Some? then
        ghost var i :| 0 <= i < |table| - 1 && table[1..][i] == rest.value && rest.value.id == p
                       && forall j :: 0 <= j < i ==> table[1..][j].id != p;
        assert forall j :: 0 <= j < i + 1 ==> table[j].id != p by {
          forall j | 0 <= j < i + 1 ensures table[j].id != p {
            if j > 0 { assert table[j] == table[1..][j - 1]; }
          }
        }
        rest
      else
        assert forall j :: 0 <= j < |table| ==> table[j].id != p by {
          forall j | 0 <= j < |table| ensures table[j].id != p {
            if j > 0 { assert table[j] == table[1..][j - 1]; }
          }
        }
        rest
  }

  /** `getCurrentPhaseInfo`: the matching entry, or the first entry when none matches. */
  function InfoFor(p: Phase): (info: PhaseInfo)
    ensures p != Completed ==> info.id == p && info in Table
    ensures p == Completed ==> info == Table[0] && info.name == "Introduction"
  {
    match Find(Table, p)
    case Some(e) => e
    case None => Table[0]
  }

  /** Every phase except `completed` has exactly one entry, at its timeline position. */
  lemma TableIndexedByPhase(p: Phase)
    requires p != Completed
    ensures Index(p) < |Table| && Table[Index(p)].id == p
    ensures forall j :: 0 <= j < |Table| && j != Index(p) ==> Table[j].id != p
  {
  }

  /** Sum of the durations (in minutes) of a prefix of the table. */
  function Minutes(table: seq<PhaseInfo>): nat
  {
    if table == [] then 0 else Minutes(table[..|table| - 1]) + table[|table| - 1].duration
  }

  /** Remaining seconds at which the entry at position `i` starts. */
  function StartOf(i: nat): int
    requires i <= |Table|
  {
    TotalSeconds - 60 * Minutes(Table[..i])
  }

  /** The durations add up to the ten minutes the countdown starts from. */
  lemma DurationsFillTimeline()
    ensures Minutes(Table) == 10 && TotalSeconds == 60 * Minutes(Table)
  {
    assert Table[..|Table|] == Table;
    assert Table[..1][..0] == [];
    assert Table[..2][..1] == Table[..1];
    assert Table[..3][..2] == Table[..2];
    assert Table[..4][..3] == Table[..3];
    assert Table[..5][..4] == Table[..4];
    assert Minutes(Table[..1]) == 1;
    assert Minutes(Table[..2]) == 4;
    assert Minutes(Table[..3]) == 8;
    assert Minutes(Table[..4]) == 9;
  }

  /** The thresholds of the tick are the cumulative table durations: entry `i`
      is selected exactly while its own slice of the timeline is running. */
  lemma ThresholdsFollowDurations(i: nat, t: int)
    requires i < |Table| && t <= TotalSeconds
    ensures PhaseAfter(t) == Table[i].id <==> StartOf(i + 1) < t <= StartOf(i)
  {
    assert Table[..5][..4] == Table[..4];
    assert Table[..4][..3] == Table[..3];
    assert Table[..3][..2] == Table[..2];
    assert Table[..2][..1] == Table[..1];
    assert Table[..1][..0] == [];
    assert StartOf(0) == 600 && StartOf(1) == 540 && StartOf(2) == 360;
    assert StartOf(3) == 120 && StartOf(4) == 60 && StartOf(5) == 0;
  }
}
