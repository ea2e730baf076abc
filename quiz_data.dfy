/** Values shared by the two quiz controllers. */
module QuizData {

  datatype Option<+T> = None | Some(value: T)

  /** The difficulty prop of the standard quiz ('easy' | 'medium' | 'hard'). */
  datatype Difficulty = Easy | Medium | Hard

  /** One multiple-choice item. Only `correct` takes part in scoring; the
      other fields are carried along for the presentation layer. */
  datatype Question = Question(id: string, text: string, options: seq<string>, correct: string)
}
