/** Sign-up and sign-in against the users collection. */
module Auth {
  import opened Records
  import opened Queries

  /** No two user documents share a username. */
  ghost predicate UniqueUsernames(users: seq<User>) {
    forall i, j :: 0 <= i < j < |users| ==> users[i].username != users[j].username
  }

  /** The users collection after a sign-up attempt, and whether it succeeded. */
  datatype Registration = Registration(users: seq<User>, ok: bool)

  /** Sign-up: the account is inserted only when no document has the username. */
  function Register(users: seq<User>, u: string, p: string): (r: Registration)
    ensures r.ok <==> !HasUsername(users, u)
    ensures r.ok ==> r.users == users + [User(u, p)]
    ensures !r.ok ==> r.users == users
  {
    CountUsernameZero(users, u);
    if CountUsername(users, u) == 0 then Registration(users + [User(u, p)], true)
    else Registration(users, false)
  }

  /** Sign-in: true exactly when some document matches both the username and
      the password, character for character. */
  function Authenticate(users: seq<User>, u: string, p: string): (ok: bool)
    ensures ok <==> exists i :: 0 <= i < |users| && users[i] == User(u, p)
  {
    FindUser(users, u, p).Some?
  }

  /** Sign-up keeps usernames unique. */
  lemma RegisterKeepsUnique(users: seq<User>, u: string, p: string)
    requires UniqueUsernames(users)
    ensures UniqueUsernames(Register(users, u, p).users)
  {
    var r := Register(users, u, p);
    if r.ok {
      forall i, j | 0 <= i < j < |r.users| ensures r.users[i].username != r.users[j].username {
        if j == |users| {
          assert r.users[i] == users[i];
        }
      }
    }
  }

  /** Signing up the same username twice: the first attempt succeeds exactly
      when the name is new, the second always fails, and the collection grows
      by at most the one record of the first attempt. */
  lemma RegisterTwice(users: seq<User>, u: string, p: string, p': string)
    ensures var first := Register(users, u, p);
            var second := Register(first.users, u, p');
            && !second.ok
            && second.users == first.users
            && |second.users| == |users| + (if HasUsername(users, u) then 0 else 1)
  {
    var first := Register(users, u, p);
    if first.ok {
      assert first.users[|users|].username == u;
    }
  }

  /** After a successful sign-up the new account signs in with exactly the
      password it was registered with. */
  lemma RegisterThenAuthenticate(users: seq<User>, u: string, p: string, q: string)
    requires Register(users, u, p).ok
    ensures Authenticate(Register(users, u, p).users, u, q) <==> q == p
  {
    var r := Register(users, u, p);
    assert r.users[|users|] == User(u, p);
    forall i | 0 <= i < |users| ensures r.users[i].username != u {
      assert r.users[i] == users[i];
    }
  }

  /** Sign-up never revokes an existing account. */
  lemma RegisterKeepsAccounts(users: seq<User>, u: string, p: string, u': string, p': string)
    requires Authenticate(users, u', p')
    ensures Authenticate(Register(users, u, p).users, u', p')
  {
    var i :| 0 <= i < |users| && users[i] == User(u', p');
    assert Register(users, u, p).users[i] == User(u', p');
  }

  /** With unique usernames, a username signs in with at most one password. */
  lemma PasswordDetermined(users: seq<User>, u: string, p: string, p': string)
    requires UniqueUsernames(users)
    requires Authenticate(users, u, p) && Authenticate(users, u, p')
    ensures p == p'
  {
    var i :| 0 <= i < |users| && users[i] == User(u, p);
    var j :| 0 <= j < |users| && users[j] == User(u, p');
    assert i == j;
  }
}
