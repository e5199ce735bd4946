/** The documents stored in the three collections of the quiz database, and
    the Option type used for the session's answer slots and for lookups. */
module Records {

  datatype Option<+T> = None | Some(value: T)

  /** A document of the `users` collection. The password is stored as plain text. */
  datatype User = User(username: string, password: string)

  /** A document of the `questions` collection. */
  datatype Question = Question(text: string, options: seq<string>, answer: string)

  /** One element of the answer list built at submission: the question text,
      the option the user picked and the question's stored answer. */
  datatype AnswerEntry = AnswerEntry(question: string, userAnswer: string, correctAnswer: string)

  /** A document of the `user_answers` collection: one per submitted attempt. */
  datatype Attempt = Attempt(username: string, score: nat, answers: seq<AnswerEntry>)
}
