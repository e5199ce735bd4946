/** The two database queries the quiz issues, over a collection held as a
    sequence of documents: `count_documents` with an equality filter on one
    field, and `find_one` with an equality filter on two fields. */
module Queries {
  import opened Records

  /** Number of user documents whose username is `u`. */
  function CountUsername(users: seq<User>, u: string): (n: nat)
    ensures n <= |users|
  {
    if users == [] then 0
    else CountUsername(users[1..], u) + (if users[0].username == u then 1 else 0)
  }

  ghost predicate HasUsername(users: seq<User>, u: string) {
    exists i :: 0 <= i < |users| && users[i].username == u
  }

  /** The registration guard `count_documents(...) == 0` holds exactly when
      no document carries the username. */
  lemma {:induction false} CountUsernameZero(users: seq<User>, u: string)
    ensures CountUsername(users, u) == 0 <==> !HasUsername(users, u)
  {
    if users != [] {
      CountUsernameZero(users[1..], u);
      if HasUsername(users[1..], u) {
        var i :| 0 <= i < |users[1..]| && users[1..][i].username == u;
        assert users[i + 1].username == u;
      }
      if HasUsername(users, u) && users[0].username != u {
        var i :| 0 <= i < |users| && users[i].username == u;
        assert users[1..][i - 1].username == u;
      }
    }
  }

  /** Number of question documents whose question text is `t`. */
  function CountQuestion(questions: seq<Question>, t: string): (n: nat)
    ensures n <= |questions|
  {
    if questions == [] then 0
    else CountQuestion(questions[1..], t) + (if questions[0].text == t then 1 else 0)
  }

  ghost predicate HasQuestion(questions: seq<Question>, t: string) {
    exists i :: 0 <= i < |questions| && questions[i].text == t
  }

  /** The seeding guard `count_documents(...) == 0` holds exactly when no
      document carries the question text. */
  lemma {:induction false} CountQuestionZero(questions: seq<Question>, t: string)
    ensures CountQuestion(questions, t) == 0 <==> !HasQuestion(questions, t)
  {
    if questions != [] {
      CountQuestionZero(questions[1..], t);
      if HasQuestion(questions[1..], t) {
        var i :| 0 <= i < |questions[1..]| && questions[1..][i].text == t;
        assert questions[i + 1].text == t;
      }
      if HasQuestion(questions, t) && questions[0].text != t {
        var i :| 0 <= i < |questions| && questions[i].text == t;
        assert questions[1..][i - 1].text == t;
      }
    }
  }

  lemma {:induction false} CountQuestionAppend(a: seq<Question>, b: seq<Question>, t: string)
    ensures CountQuestion(a + b, t) == CountQuestion(a, t) + CountQuestion(b, t)
  {
    if a != [] {
      assert (a + b)[1..] == a[1..] + b;
      CountQuestionAppend(a[1..], b, t);
    } else {
      assert a + b == b;
    }
  }

  /** `find_one` with a filter on username and password: the first document
      that matches both fields, or None. */
  function FindUser(users: seq<User>, u: string, p: string): (r: Option<User>)
    ensures r.Some? <==> exists i :: 0 <= i < |users| && users[i].username == u && users[i].password == p
    ensures r.Some? ==> r.value == User(u, p) && r.value in users
  {
    if users == [] then None
    else if users[0].username == u && users[0].password == p then Some(users[0])
    else
      var r := FindUser(users[1..], u, p);
      assert forall i :: 1 <= i < |users| ==> users[i] == users[1..][i - 1];
      r
  }
}
