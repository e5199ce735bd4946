/** Scoring of a submitted answer list. */
module Scoring {
  import opened Records

  /** An entry scores when the picked option equals the stored answer exactly. */
  predicate IsCorrect(e: AnswerEntry) {
    e.userAnswer == e.correctAnswer
  }

  /** Number of scoring entries, counted front to back as the scoring loop does. */
  function CountCorrect(entries: seq<AnswerEntry>): (n: nat)
    ensures n <= |entries|
  {
    if entries == [] then 0
    else CountCorrect(entries[..|entries| - 1]) + (if IsCorrect(entries[|entries| - 1]) then 1 else 0)
  }

  /** The positions of the scoring entries: an independent statement of the score. */
  ghost function CorrectPositions(entries: seq<AnswerEntry>): set<int> {
    set i | 0 <= i < |entries| && IsCorrect(entries[i])
  }

  /** The score is the number of positions whose pick equals the answer. */
  lemma {:induction false} CountIsCorrectPositions(entries: seq<AnswerEntry>)
    ensures CountCorrect(entries) == |CorrectPositions(entries)|
  {
    if entries != [] {
      var n := |entries| - 1;
      var init := entries[..n];
      CountIsCorrectPositions(init);
      assert forall i :: 0 <= i < n ==> init[i] == entries[i];
      if IsCorrect(entries[n]) {
        assert CorrectPositions(entries) == CorrectPositions(init) + {n};
      } else {
        assert CorrectPositions(entries) == CorrectPositions(init);
      }
    } else {
      assert CorrectPositions(entries) == {};
    }
  }

  /** Full marks exactly when every pick equals its answer. */
  lemma {:induction false} FullMarks(entries: seq<AnswerEntry>)
    ensures CountCorrect(entries) == |entries| <==> forall i :: 0 <= i < |entries| ==> IsCorrect(entries[i])
  {
    if entries != [] {
      var n := |entries| - 1;
      var init := entries[..n];
      FullMarks(init);
      assert forall i :: 0 <= i < n ==> init[i] == entries[i];
    }
  }

  /** Zero exactly when no pick equals its answer. */
  lemma {:induction false} ZeroMarks(entries: seq<AnswerEntry>)
    ensures CountCorrect(entries) == 0 <==> forall i :: 0 <= i < |entries| ==> !IsCorrect(entries[i])
  {
    if entries != [] {
      var n := |entries| - 1;
      var init := entries[..n];
      ZeroMarks(init);
      assert forall i :: 0 <= i < n ==> init[i] == entries[i];
    }
  }
}
