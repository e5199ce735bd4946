/** The quiz database: its three collections held as in-memory document
    sequences, with the operations that write to them. */
module Store {
  import opened Records
  import opened Queries
  import opened Seeding
  import opened Auth
  import opened Scoring

  class Store {
    var users: seq<User>
    var questions: seq<Question>
    var answers: seq<Attempt>

    /** Usernames are unique. A fresh database has this property and sign-up
        keeps it; the database itself does not enforce it. */
    ghost predicate Valid()
      reads this
    {
      UniqueUsernames(users)
    }

    /** In a store with unique usernames, a username signs in with at most
        one password. */
    lemma SignInDeterminesPassword(u: string, p: string, p': string)
      requires Valid()
      requires Authenticate(users, u, p) && Authenticate(users, u, p')
      ensures p == p'
    {
      PasswordDetermined(users, u, p, p');
    }

    /** A fresh, empty database. */
    constructor ()
      ensures Valid()
      ensures users == [] && questions == [] && answers == []
    {
      users, questions, answers := [], [], [];
    }

    /** Start-up seeding: inserts each sample question whose text is not yet
        in the collection. */
    method InsertSampleQuestions()
      modifies this
      ensures questions == Seed(old(questions), SampleQuestions())
      ensures forall q :: q in SampleQuestions() ==> HasQuestion(questions, q.text)
      ensures |questions| >= 10
      ensures users == old(users) && answers == old(answers)
    {
      InsertQuestionsIfAbsent(SampleQuestions());
      SeedCovers(old(questions), SampleQuestions());
      SeededHasTen(old(questions));
    }

    /** The seeding loop: one insert-if-absent per element of `seeds`, in order. */
    method InsertQuestionsIfAbsent(seeds: seq<Question>)
      modifies this
      ensures questions == Seed(old(questions), seeds)
      ensures users == old(users) && answers == old(answers)
    {
      for i := 0 to |seeds|
        invariant Seed(questions, seeds[i..]) == Seed(old(questions), seeds)
        invariant users == old(users) && answers == old(answers)
      {
        SeedStep(questions, seeds, i);
        CountQuestionZero(questions, seeds[i].text);
        if CountQuestion(questions, seeds[i].text) == 0 {
          questions := questions + [seeds[i]];
        }
      }
      assert seeds[|seeds|..] == [];
    }

    /** Sign-up: inserts `{u, p}` and returns true when no document has the
        username `u`; otherwise returns false and inserts nothing. */
    method RegisterUser(u: string, p: string) returns (ok: bool)
      modifies this
      ensures old(Valid()) ==> Valid()
      ensures Registration(users, ok) == Register(old(users), u, p)
      ensures ok ==> Authenticate(users, u, p)
      ensures questions == old(questions) && answers == old(answers)
    {
      if Valid() {
        RegisterKeepsUnique(users, u, p);
      }
      if CountUsername(users, u) == 0 {
        users := users + [User(u, p)];
        assert users[|users| - 1] == User(u, p);
        ok := true;
      } else {
        ok := false;
      }
    }

    /** Counts the entries whose pick equals the stored answer, appends one
        attempt record and returns the count. */
    method SaveUserAnswers(username: string, entries: seq<AnswerEntry>) returns (score: nat)
      modifies this
      ensures score == CountCorrect(entries) && score <= |entries|
      ensures answers == old(answers) + [Attempt(username, score, entries)]
      ensures users == old(users) && questions == old(questions)
    {
      var correct := 0;
      for k := 0 to |entries|
        invariant correct == CountCorrect(entries[..k])
      {
        assert entries[..k + 1][..k] == entries[..k];
        if entries[k].userAnswer == entries[k].correctAnswer {
          correct := correct + 1;
        }
      }
      assert entries[..|entries|] == entries;
      score := correct;
      answers := answers + [Attempt(username, score, entries)];
    }
  }
}
