/** One quiz sitting: the ten answer slots kept in the session, the submit
    gate, and the answer list handed to scoring. */
module Session {
  import opened Records
  import opened Seeding
  import opened Scoring
  import opened Store

  /** Number of answer slots and the most questions shown in one sitting. */
  const SlotCount: nat := 10

  /** How many questions are displayed: the first ten of the shuffled list. */
  function Displayed(shown: seq<Question>): (n: nat)
    ensures n <= SlotCount && n <= |shown|
    ensures n == SlotCount || n == |shown|
  {
    if |shown| < SlotCount then |shown| else SlotCount
  }

  /** The submit gate: every slot holds an answer. */
  predicate AllAnswered(slots: seq<Option<string>>) {
    None !in slots
  }

  /** The slots after one rendering pass: slot `i` takes the radio's value for
      question `i` when question `i` is displayed, and keeps its value otherwise. */
  ghost function Rendered(slots: seq<Option<string>>, shown: seq<Question>, picks: seq<Option<string>>): seq<Option<string>>
    requires |slots| == SlotCount && Displayed(shown) <= |picks|
  {
    seq(SlotCount, i requires 0 <= i < SlotCount => if i < Displayed(shown) then picks[i] else slots[i])
  }

  /** With fewer than ten questions the last slot is never rendered, so from
      the initial all-empty slots no sequence of renderings passes the gate. */
  lemma ShortQuizNeverSubmits(slots: seq<Option<string>>, shown: seq<Question>, picks: seq<Option<string>>)
    requires |slots| == SlotCount && Displayed(shown) <= |picks|
    requires |shown| < SlotCount
    requires slots[SlotCount - 1] == None
    ensures Rendered(slots, shown, picks)[SlotCount - 1] == None
    ensures !AllAnswered(Rendered(slots, shown, picks))
  {
    var r := Rendered(slots, shown, picks);
    assert r[SlotCount - 1] == slots[SlotCount - 1];
  }

  /** With at least ten questions, one rendering in which every radio returns
      an option fills every slot, so the gate passes. */
  lemma FullQuizPassesGate(slots: seq<Option<string>>, shown: seq<Question>, picks: seq<Option<string>>)
    requires |slots| == SlotCount && SlotCount <= |picks|
    requires SlotCount <= |shown|
    requires forall i :: 0 <= i < SlotCount ==> picks[i].Some?
    ensures AllAnswered(Rendered(slots, shown, picks))
  {
    var r := Rendered(slots, shown, picks);
    forall i | 0 <= i < SlotCount ensures r[i] != None {
      assert r[i] == picks[i];
    }
  }

  /** After the start-up seeding, any shuffle of the questions collection
      displays ten questions, so every slot can be filled. */
  lemma SeededQuizShowsTen(stored: seq<Question>, shown: seq<Question>)
    requires multiset(shown) == multiset(Seed(stored, SampleQuestions()))
    ensures Displayed(shown) == SlotCount
  {
    SeededHasTen(stored);
    assert |shown| == |multiset(shown)|;
    assert |Seed(stored, SampleQuestions())| == |multiset(Seed(stored, SampleQuestions()))|;
  }

  /** Builds the answer list: one entry per displayed question, pairing its
      text with the pick in the slot of the same index and its stored answer. */
  method AssembleAnswers(shown: seq<Question>, slots: seq<Option<string>>) returns (entries: seq<AnswerEntry>)
    requires |slots| == SlotCount && AllAnswered(slots)
    ensures |entries| == Displayed(shown)
    ensures forall i :: 0 <= i < |entries| ==>
              entries[i] == AnswerEntry(shown[i].text, slots[i].value, shown[i].answer)
  {
    entries := [];
    for i := 0 to Displayed(shown)
      invariant |entries| == i
      invariant forall j :: 0 <= j < i ==>
                  entries[j] == AnswerEntry(shown[j].text, slots[j].value, shown[j].answer)
    {
      assert slots[i] in slots;
      entries := entries + [AnswerEntry(shown[i].text, slots[i].value, shown[i].answer)];
    }
  }

  /** Score obtained by an answer list whose every pick is the stored answer:
      one point per displayed question. */
  lemma AllRightScoresDisplayed(shown: seq<Question>, entries: seq<AnswerEntry>)
    requires |entries| == Displayed(shown)
    requires forall i :: 0 <= i < |entries| ==> entries[i].userAnswer == shown[i].answer
    requires forall i :: 0 <= i < |entries| ==> entries[i].correctAnswer == shown[i].answer
    ensures CountCorrect(entries) == Displayed(shown)
  {
    FullMarks(entries);
  }

  datatype SubmitOutcome =
    | Refused            // some slot is still empty: nothing is stored
    | Scored(score: nat) // the attempt was stored with this score

  class QuizSession {
    /** The per-session answer slots, all empty at the start of a session. */
    var slots: array<Option<string>>

    constructor ()
      ensures fresh(slots) && slots.Length == SlotCount
      ensures forall i :: 0 <= i < SlotCount ==> slots[i] == None
    {
      slots := new Option<string>[SlotCount](_ => None);
    }

    /** One rendering pass: the radio for question `i` returns `picks[i]`,
        which is stored in slot `i`. */
    method Render(shown: seq<Question>, picks: seq<Option<string>>)
      requires slots.Length == SlotCount && Displayed(shown) <= |picks|
      modifies slots
      ensures slots[..] == Rendered(old(slots[..]), shown, picks)
    {
      for i := 0 to Displayed(shown)
        invariant forall j :: 0 <= j < i ==> slots[j] == picks[j]
        invariant forall j :: i <= j < SlotCount ==> slots[j] == old(slots[j])
      {
        slots[i] := picks[i];
      }
    }

    /** Submit: refused while a slot is empty; otherwise the answer list for
        the displayed questions is scored and stored. */
    method Submit(store: Store, username: string, shown: seq<Question>) returns (outcome: SubmitOutcome)
      requires slots.Length == SlotCount
      modifies store
      ensures outcome.Refused? <==> !AllAnswered(slots[..])
      ensures outcome.Refused? ==> store.answers == old(store.answers)
      ensures outcome.Scored? ==>
                && |store.answers| == |old(store.answers)| + 1
                && store.answers[..|old(store.answers)|] == old(store.answers)
                && var attempt := store.answers[|old(store.answers)|];
                && attempt.username == username
                && attempt.score == outcome.score == CountCorrect(attempt.answers)
                && |attempt.answers| == Displayed(shown)
                && forall i :: 0 <= i < |attempt.answers| ==>
                     attempt.answers[i] == AnswerEntry(shown[i].text, slots[i].value, shown[i].answer)
      ensures store.users == old(store.users) && store.questions == old(store.questions)
    {
      if None in slots[..] {
        outcome := Refused;
      } else {
        var entries := AssembleAnswers(shown, slots[..]);
        var score := store.SaveUserAnswers(username, entries);
        outcome := Scored(score);
        assert store.answers[..|old(store.answers)|] == old(store.answers);
      }
    }
  }

  /** One call of the quiz page function for a signed-in user: the stored questions in
      the shuffled order `shown`, one rendering pass with the radio values
      `picks`, and, when the submit button was pressed, the submit step. */
  method Quiz(store: Store, session: QuizSession, username: string, shown: seq<Question>,
              picks: seq<Option<string>>, submitPressed: bool) returns (outcome: Option<SubmitOutcome>)
    requires session.slots.Length == SlotCount
    requires multiset(shown) == multiset(store.questions)
    requires Displayed(shown) <= |picks|
    modifies store, session.slots
    ensures session.slots[..] == Rendered(old(session.slots[..]), shown, picks)
    ensures outcome.None? <==> !submitPressed
    ensures outcome == Some(Refused) <==> submitPressed && !AllAnswered(session.slots[..])
    ensures outcome.None? || outcome == Some(Refused) ==> store.answers == old(store.answers)
    ensures outcome.Some? && outcome.value.Scored? ==>
              && |store.answers| == |old(store.answers)| + 1
              && store.answers[..|old(store.answers)|] == old(store.answers)
              && var attempt := store.answers[|old(store.answers)|];
              && attempt.username == username
              && attempt.score == outcome.value.score == CountCorrect(attempt.answers)
              && |attempt.answers| == Displayed(shown)
              && forall i :: 0 <= i < |attempt.answers| ==>
                   attempt.answers[i] == AnswerEntry(shown[i].text, session.slots[i].value, shown[i].answer)
    ensures store.users == old(store.users) && store.questions == old(store.questions)
  {
    session.Render(shown, picks);
    if submitPressed {
      var o := session.Submit(store, username, shown);
      outcome := Some(o);
    } else {
      outcome := None;
    }
  }
}
