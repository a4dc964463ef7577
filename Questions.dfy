/** The records the quiz engine works on: questions as loaded from a pack
    file, the answer records of the history log, and the user settings. */
module Questions {
  import opened Text

  datatype Option<T> = None | Some(value: T)

  /** One question of a pack. A field missing from the pack file is the empty
      string or the empty list here (the engine only ever tests them for
      truthiness or iterates them); `wrongAnswerNotes` is None when the
      question has no notes object at all. */
  datatype Question = Question(
    id: String,
    stem: String,
    choices: seq<String>,
    answerIndex: int,
    domain: String,
    tags: seq<String>,
    rationale: String,
    wrongAnswerNotes: Option<map<String, String>>)

  /** One entry of the history log: snapshots taken when the answer was given. */
  datatype AnswerRecord = AnswerRecord(
    id: String,
    stem: String,
    choices: seq<String>,
    selected: int,
    correctIndex: int,
    correct: bool,
    rationale: String,
    time: String)

  datatype Settings = Settings(shuffle: bool, persist: bool, dark: bool)

  const DefaultSettings := Settings(true, true, true)

  /** Reading a stored record: None stands for a missing key, unreadable JSON
      or a stored null, all of which give the fallback. */
  function Load<T>(stored: Option<T>, fallback: T): T {
    match stored
    case Some(v) => v
    case None => fallback
  }
}
