/** The sample questions inserted at start-up, and the insert-if-absent
    pass that puts them into the questions collection. */
module Seeding {
  import opened Records
  import opened Queries

  /** No two questions share a question text. */
  ghost predicate DistinctTexts(questions: seq<Question>) {
    forall i, j :: 0 <= i < j < |questions| ==> questions[i].text != questions[j].text
  }

  /** The ten fixed questions of the seed set, in the order they are inserted. */
  function SampleQuestions(): (qs: seq<Question>)
    ensures |qs| == 10
    ensures DistinctTexts(qs)
  {
    var qs := [
      Question("What is the capital of France?", ["Paris", "Berlin", "Madrid", "Rome"], "Paris"),
      Question("Which planet is known as the Red Planet?", ["Earth", "Mars", "Venus", "Jupiter"], "Mars"),
      Question("What is the largest ocean on Earth?", ["Atlantic", "Indian", "Arctic", "Pacific"], "Pacific"),
      Question("Who wrote 'To Kill a Mockingbird'?", ["Harper Lee", "J.K. Rowling", "Ernest Hemingway", "Jane Austen"], "Harper Lee"),
      Question("What is the boiling point of water?", ["90°C", "95°C", "100°C", "105°C"], "100°C"),
      Question("Which country is known as the Land of Rising Sun?", ["China", "Japan", "South Korea", "Vietnam"], "Japan"),
      Question("Who discovered gravity?", ["Isaac Newton", "Albert Einstein", "Galileo", "Marie Curie"], "Isaac Newton"),
      Question("What is the chemical symbol for gold?", ["Go", "G", "Au", "Ag"], "Au"),
      Question("Which is the smallest continent?", ["Asia", "Europe", "Australia", "Antarctica"], "Australia"),
      Question("What is the square root of 64?", ["6", "7", "8", "9"], "8")
    ];
    qs
  }

  /** One pass of the seeding loop: `q` is inserted only when no document
      has its question text yet. */
  function SeedOne(questions: seq<Question>, q: Question): (r: seq<Question>)
    ensures HasQuestion(r, q.text)
    ensures HasQuestion(questions, q.text) ==> r == questions
    ensures !HasQuestion(questions, q.text) ==> r == questions + [q]
  {
    CountQuestionZero(questions, q.text);
    if CountQuestion(questions, q.text) == 0 then
      var r := questions + [q];
      assert r[|questions|].text == q.text;
      r
    else questions
  }

  /** The seeding loop over `seeds`, one insert-if-absent per seed in order.
      The existing documents are kept as a prefix and at most one document is
      added per seed. */
  function Seed(questions: seq<Question>, seeds: seq<Question>): (r: seq<Question>)
    ensures |questions| <= |r| <= |questions| + |seeds|
    ensures r[..|questions|] == questions
    decreases |seeds|
  {
    if seeds == [] then questions
    else
      var next := SeedOne(questions, seeds[0]);
      var r := Seed(next, seeds[1..]);
      assert r[..|next|][..|questions|] == questions;
      r
  }

  /** Every document the seeding loop adds is one of the seeds. */
  lemma {:induction false} SeedAddsOnlySeeds(questions: seq<Question>, seeds: seq<Question>)
    ensures forall k :: |questions| <= k < |Seed(questions, seeds)| ==> Seed(questions, seeds)[k] in seeds
    decreases |seeds|
  {
    if seeds != [] {
      var next := SeedOne(questions, seeds[0]);
      var r := Seed(next, seeds[1..]);
      SeedAddsOnlySeeds(next, seeds[1..]);
      forall k | |questions| <= k < |r| ensures r[k] in seeds {
        if k < |next| {
          assert r[k] == r[..|next|][k] == next[k] == seeds[0];
        } else {
          assert r[k] in seeds[1..];
        }
      }
    }
  }

  /** After the seeding loop every seed's question text is present. */
  lemma {:induction false} SeedCovers(questions: seq<Question>, seeds: seq<Question>)
    ensures forall q :: q in seeds ==> HasQuestion(Seed(questions, seeds), q.text)
    decreases |seeds|
  {
    if seeds != [] {
      var next := SeedOne(questions, seeds[0]);
      var r := Seed(next, seeds[1..]);
      SeedCovers(next, seeds[1..]);
      assert HasQuestion(r, seeds[0].text) by {
        var i :| 0 <= i < |next| && next[i].text == seeds[0].text;
        assert r[i] == r[..|next|][i];
      }
      forall q | q in seeds ensures HasQuestion(r, q.text) {
        if q != seeds[0] {
          assert q in seeds[1..];
        }
      }
    }
  }

  /** One step of the seeding loop at position `i` of the seed list. */
  lemma SeedStep(questions: seq<Question>, seeds: seq<Question>, i: nat)
    requires i < |seeds|
    ensures Seed(questions, seeds[i..]) == Seed(SeedOne(questions, seeds[i]), seeds[i + 1..])
  {
    assert seeds[i..][1..] == seeds[i + 1..];
  }

  /** Once every seed text is present, the seeding loop inserts nothing. */
  lemma {:induction false} SeedNoop(questions: seq<Question>, seeds: seq<Question>)
    requires forall q :: q in seeds ==> HasQuestion(questions, q.text)
    ensures Seed(questions, seeds) == questions
    decreases |seeds|
  {
    if seeds != [] {
      assert seeds[0] in seeds;
      assert SeedOne(questions, seeds[0]) == questions;
      forall q | q in seeds[1..] ensures HasQuestion(questions, q.text) {
        assert q in seeds;
      }
      SeedNoop(questions, seeds[1..]);
    }
  }

  /** Seeding is idempotent: a second pass leaves the collection unchanged. */
  lemma SeedIdempotent(questions: seq<Question>, seeds: seq<Question>)
    ensures Seed(Seed(questions, seeds), seeds) == Seed(questions, seeds)
  {
    SeedCovers(questions, seeds);
    SeedNoop(Seed(questions, seeds), seeds);
  }

  /** No document of `questions` has the text of any of `seeds`. */
  ghost predicate TextsAbsent(questions: seq<Question>, seeds: seq<Question>) {
    forall i, j :: 0 <= i < |questions| && 0 <= j < |seeds| ==> questions[i].text != seeds[j].text
  }

  /** When no seed text is present and the seeds have distinct texts, every
      seed is appended, in order. */
  lemma {:induction false} SeedAllAbsent(questions: seq<Question>, seeds: seq<Question>)
    requires DistinctTexts(seeds)
    requires TextsAbsent(questions, seeds)
    ensures Seed(questions, seeds) == questions + seeds
    decreases |seeds|
  {
    if seeds != [] {
      var next := questions + [seeds[0]];
      assert !HasQuestion(questions, seeds[0].text);
      assert SeedOne(questions, seeds[0]) == next;
      StillAbsent(questions, seeds);
      SeedAllAbsent(next, seeds[1..]);
      assert next + seeds[1..] == questions + seeds;
    }
  }

  /** Appending the first seed keeps the remaining seed texts absent. */
  lemma StillAbsent(questions: seq<Question>, seeds: seq<Question>)
    requires seeds != []
    requires DistinctTexts(seeds)
    requires TextsAbsent(questions, seeds)
    ensures DistinctTexts(seeds[1..])
    ensures TextsAbsent(questions + [seeds[0]], seeds[1..])
  {
    var next := questions + [seeds[0]];
    var rest := seeds[1..];
    forall i, j | 0 <= i < |next| && 0 <= j < |rest| ensures next[i].text != rest[j].text {
      assert rest[j] == seeds[j + 1];
      if i < |questions| {
        assert next[i] == questions[i];
      }
    }
    forall i, j | 0 <= i < j < |rest| ensures rest[i].text != rest[j].text {
      assert rest[i] == seeds[i + 1] && rest[j] == seeds[j + 1];
    }
  }

  /** Seeding adds at most one document per text: exactly one for a seed
      text that was absent, none otherwise. A seed whose text repeats an
      earlier seed finds that text present and is skipped. */
  lemma {:induction false} SeedCount(questions: seq<Question>, seeds: seq<Question>, t: string)
    ensures CountQuestion(Seed(questions, seeds), t) ==
            CountQuestion(questions, t) + (if HasQuestion(seeds, t) && CountQuestion(questions, t) == 0 then 1 else 0)
    decreases |seeds|
  {
    if seeds != [] {
      var s0 := seeds[0];
      var rest := seeds[1..];
      var next := SeedOne(questions, s0);
      SeedCount(next, rest, t);
      CountQuestionZero(questions, s0.text);
      if CountQuestion(questions, s0.text) == 0 {
        CountQuestionAppend(questions, [s0], t);
        assert CountQuestion([s0], t) == (if s0.text == t then 1 else 0);
      }
      if t == s0.text {
        CountQuestionZero(next, t);
        assert HasQuestion(seeds, t) by { assert seeds[0].text == t; }
      } else if HasQuestion(seeds, t) {
        var i :| 0 <= i < |seeds| && seeds[i].text == t;
        assert rest[i - 1] == seeds[i];
      } else {
        forall i | 0 <= i < |rest| ensures rest[i].text != t {
          assert rest[i] == seeds[i + 1];
        }
      }
    }
  }

  /** Seeding an empty collection leaves exactly one document per sample
      question, in the order of the seed list. */
  lemma SeedEmptyStore()
    ensures Seed([], SampleQuestions()) == SampleQuestions()
    ensures forall i :: 0 <= i < 10 ==> CountQuestion(Seed([], SampleQuestions()), SampleQuestions()[i].text) == 1
  {
    var s := SampleQuestions();
    SeedAllAbsent([], s);
    assert [] + s == s;
    forall i | 0 <= i < 10 ensures CountQuestion(s, s[i].text) == 1 {
      SeedCount([], s, s[i].text);
    }
  }

  /** A collection that holds every text of a distinct-text list has at
      least as many documents as the list. */
  lemma {:induction false} CoverSize(questions: seq<Question>, seeds: seq<Question>)
    requires DistinctTexts(seeds)
    requires forall q :: q in seeds ==> HasQuestion(questions, q.text)
    ensures |seeds| <= |questions|
    decreases |seeds|
  {
    if seeds != [] {
      assert seeds[0] in seeds;
      var i :| 0 <= i < |questions| && questions[i].text == seeds[0].text;
      var rest := questions[..i] + questions[i + 1..];
      forall q | q in seeds[1..] ensures HasQuestion(rest, q.text) {
        var j :| 0 <= j < |seeds[1..]| && seeds[1..][j] == q;
        assert q == seeds[j + 1] && q.text != seeds[0].text;
        assert q in seeds;
        var k :| 0 <= k < |questions| && questions[k].text == q.text;
        if k < i {
          assert rest[k] == questions[k];
        } else {
          assert k > i && rest[k - 1] == questions[k];
        }
      }
      CoverSize(rest, seeds[1..]);
    }
  }

  /** After the start-up seeding the collection holds at least ten documents. */
  lemma SeededHasTen(questions: seq<Question>)
    ensures |Seed(questions, SampleQuestions())| >= 10
  {
    SeedCovers(questions, SampleQuestions());
    CoverSize(Seed(questions, SampleQuestions()), SampleQuestions());
  }
}
