# Quiz bookkeeping, modelled in Dafny

This project models the bookkeeping logic of the quiz application in `quiz.py`.
It is a sign-up/sign-in page, then a ten-question multiple-choice quiz whose
attempts are stored with their score. The three MongoDB collections (`users`,
`questions`, `user_answers`) are held as in-memory document sequences in the
class `Store.Store`. The per-session answer slots are a ten-element array in
`Session.QuizSession`.

Modules, one per part of the program:

- `Records`: the documents of the three collections, and `Option`.
- `Queries`: the two database queries the code issues. `count_documents` with
  an equality filter is `CountUsername`/`CountQuestion`; `find_one` on username
  and password is `FindUser`.
- `Seeding`: the ten sample questions and the insert-if-absent seeding pass.
  The pass is the recursive function `Seed`, with its idempotence and counting
  lemmas.
- `Auth`: sign-up (`Register`, as a function of the users collection) and
  sign-in (`Authenticate`), with the uniqueness invariant and the
  register-then-authenticate lemmas.
- `Scoring`: the count of correct answers (`CountCorrect`). It is tied to an
  independent set-of-positions definition, with its bounds.
- `Store`: the `Store` class. Its methods change the collections in place. Each
  method's postcondition equates the new collection with the specification
  function applied to the old one, and says which collections stay unchanged.
- `Session`: the answer slots, the rendering pass, the submit gate, the
  answer-list assembly and one call of `quiz`.

The order of the questions after `random.shuffle` is an input, `shown`. It is
required to be a permutation of the stored questions. The values returned by
the radio widgets are an input too, `picks`, one per displayed question.

The seed set in `quiz.py` has ten questions. Every question has exactly one
answer, and a pick scores when it equals that answer by exact, case-sensitive
string equality.

## Model

| member | source | states |
|---|---|---|
| `Queries.CountUsername` | quiz.py:80 | the number of user documents with a username is at most the collection size |
| `Queries.CountUsernameZero` | quiz.py:80 | the sign-up guard `count == 0` holds iff no user document has the username |
| `Queries.CountQuestion` | quiz.py:75 | the number of question documents with a text is at most the collection size |
| `Queries.CountQuestionZero` | quiz.py:75 | the seeding guard `count == 0` holds iff no question document has the text |
| `Queries.CountQuestionAppend` | quiz.py:75-76 | the count of a text over two concatenated collections is the sum of the two counts |
| `Queries.FindUser` | quiz.py:87 | `find_one` finds a document iff one matches both username and password; what it finds is that account, taken from the collection |
| `Seeding.SampleQuestions` | quiz.py:22-73 | the seed list has ten questions with pairwise distinct texts |
| `Seeding.SeedOne` | quiz.py:75-76 | one seeding step inserts the question iff its text is absent; afterwards the text is present |
| `Seeding.Seed` | quiz.py:74-76 | seeding keeps the existing documents as a prefix and adds at most one document per seed |
| `Seeding.SeedAddsOnlySeeds` | quiz.py:74-76 | every document the seeding pass adds is one of the seeds |
| `Seeding.SeedCovers` | quiz.py:74-76 | after the seeding pass every seed text is present |
| `Seeding.SeedStep` | quiz.py:74-76 | the seeding pass from position i is one step followed by the pass from i+1 |
| `Seeding.SeedNoop` | quiz.py:74-76 | when every seed text is already present, seeding inserts nothing |
| `Seeding.SeedIdempotent` | quiz.py:74-76 | a second seeding pass leaves the questions collection unchanged |
| `Seeding.SeedAllAbsent` | quiz.py:74-76 | when no seed text is present and the seed texts are distinct, every seed is appended, in order |
| `Seeding.StillAbsent` | quiz.py:74-76 | after inserting the first absent seed, the other seed texts are still absent and still distinct |
| `Seeding.SeedCount` | quiz.py:74-76 | per text, seeding adds exactly one document if it is a seed text that was absent, and none otherwise |
| `Seeding.SeedEmptyStore` | quiz.py:21-76 | seeding an empty collection yields exactly the ten samples, one document per sample text |
| `Seeding.CoverSize` | quiz.py:74-76 | a collection that holds every text of a distinct-text list is at least as long as the list |
| `Seeding.SeededHasTen` | quiz.py:21-76 | after seeding, the questions collection holds at least ten documents |
| `Auth.Register` | quiz.py:79-83 | sign-up succeeds iff no document has the username; on success exactly `{u, p}` is appended, otherwise the collection is unchanged |
| `Auth.Authenticate` | quiz.py:86-88 | sign-in is true iff some user document equals `{u, p}` exactly |
| `Auth.RegisterKeepsUnique` | quiz.py:79-83 | sign-up preserves the uniqueness of usernames |
| `Auth.RegisterTwice` | quiz.py:79-83 | signing up a username twice: the second attempt fails and the collection grows by one record only if the name was new |
| `Auth.RegisterThenAuthenticate` | quiz.py:79-88 | after a successful sign-up, sign-in with that username succeeds iff the password is the registered one |
| `Auth.RegisterKeepsAccounts` | quiz.py:79-88 | sign-up never makes an existing account fail to sign in |
| `Auth.PasswordDetermined` | quiz.py:79-88 | with unique usernames, a username signs in with at most one password |
| `Scoring.CountCorrect` | quiz.py:92-97 | the score is between 0 and the number of entries |
| `Scoring.CountIsCorrectPositions` | quiz.py:94-97 | the score equals the number of positions whose pick equals the stored answer |
| `Scoring.FullMarks` | quiz.py:94-97 | the score equals the number of entries iff every pick is correct |
| `Scoring.ZeroMarks` | quiz.py:94-97 | the score is zero iff no pick is correct |
| `Store.Store.constructor` | quiz.py:14-18 | a fresh database has three empty collections and unique usernames |
| `Store.Store.InsertSampleQuestions` | quiz.py:21-76 | the questions collection becomes `Seed` of the old one and holds every sample text and at least ten documents; users and answers unchanged |
| `Store.Store.InsertQuestionsIfAbsent` | quiz.py:74-76 | the seeding loop leaves the questions collection equal to `Seed` of the old one; users and answers unchanged |
| `Store.Store.RegisterUser` | quiz.py:79-83 | the result and new users collection are those of `Register`; on success the account signs in; uniqueness is preserved; questions and answers unchanged |
| `Store.Store.SignInDeterminesPassword` | quiz.py:79-88 | in a store with unique usernames, a username signs in with at most one password |
| `Store.Store.SaveUserAnswers` | quiz.py:91-106 | returns the number of correct entries (at most their number) and appends exactly `{username, score, answers}`; users and questions unchanged |
| `Session.Displayed` | quiz.py:125 | the number of displayed questions is the smaller of ten and the number of questions |
| `Session.ShortQuizNeverSubmits` | quiz.py:122-138 | with fewer than ten questions the last slot stays empty after rendering, so the gate refuses |
| `Session.FullQuizPassesGate` | quiz.py:125-138 | with at least ten questions and an answer from every radio, every slot is filled and the gate passes |
| `Session.SeededQuizShowsTen` | quiz.py:117-125 | any shuffle of a seeded questions collection displays exactly ten questions |
| `Session.AssembleAnswers` | quiz.py:140-146 | one entry per displayed question; entry i pairs question i's text with slot i's pick and question i's stored answer |
| `Session.AllRightScoresDisplayed` | quiz.py:140-146 | answering every displayed question with its stored answer scores one point per displayed question |
| `Session.QuizSession.constructor` | quiz.py:121-122 | a new session has ten empty answer slots |
| `Session.QuizSession.Render` | quiz.py:125-133 | slot i takes radio value i for each displayed question; the other slots keep their values |
| `Session.QuizSession.Submit` | quiz.py:136-148 | refused iff some slot is empty, and then nothing is stored; otherwise exactly one attempt is appended, pairing question i with slot i, with its score |
| `Session.Quiz` | quiz.py:113-148 | one call of `quiz` renders the slots and submits iff the button was pressed; a refused or absent submit stores nothing; a scored one keeps the old attempts and appends exactly one attempt with the username, its score and question i paired with slot i and its stored answer; users and questions unchanged |

## Left out

- The Streamlit rendering (titles, subheaders, radio labels, sidebar,
  messages; quiz.py:113-115, 126-128, 149-151) is presentation only.
- The `quiz_app` control flow (quiz.py:166-196) is left out. `Session.Quiz`
  models `quiz` called on its own. In the source, `quiz` is reached only inside
  `if st.sidebar.button("Login"):` (quiz.py:186-192). A Streamlit button is
  true only on the rerun that its own click starts. The rerun started by a
  click on "Submit Quiz" (quiz.py:136) therefore sees the Login button false
  and never calls `quiz`, so `save_user_answers` (quiz.py:148) is never
  reached from the page.
- The MongoDB connection and the `dotenv` loading (quiz.py:1-18) are foreign
  I/O. The collections are sequences of documents, and `fetch_questions` is
  the questions sequence itself.
- `random.shuffle` (quiz.py:118) is library randomness. The shuffled order is
  the input `shown`, required to be a permutation of the stored questions.
- `st.radio` (quiz.py:129-133) is a widget. Its return values are the input
  `picks`. Its default index is not modelled: it comes from
  `options.index(slot)`, which raises an error when a kept slot value is not
  among the options of the question now at that index.
- Slots persist across page runs while the questions are reshuffled on each
  run. The model covers one call of `quiz` (`Session.Quiz`). It does not model that
  slot i can hold an answer picked for a different question in an earlier run.
- `view_score` (quiz.py:154-163) is a database sort and display query that uses
  the driver's `cursor.count()`.
- The `_id` field that `insert_one` adds to each inserted document is not
  modelled.
- The read-then-write race in sign-up is concurrency and is not modelled. The
  database has no unique index: `Store.Store.Valid` (unique usernames) holds for
  a database created empty and changed only through these operations.
