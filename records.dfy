/**
 * The two tables of the board and the messages read from them.
 *
 * `subject(id, title, enabled)` rows are returned to clients as they are, so one
 * datatype serves as both row and `Subject` message. A `question` row also
 * carries `subject_id`; the `Question` message holds only the three columns the
 * service selects (`id, question, likes`).
 */
module Records {

  datatype Subject = Subject(id: int, title: string, enabled: bool)

  datatype QuestionRow = QuestionRow(id: int, text: string, subjectId: int, likes: int)

  datatype Question = Question(id: int, question: string, likesCount: int)

  /** `&Subject{}`: what a lookup that matched no row hands back. */
  const ZeroSubject := Subject(0, "", false)

  /** `&Question{}`: what a lookup that matched no row hands back. */
  const ZeroQuestion := Question(0, "", 0)

  /** The columns `SELECT id, question, likes FROM question` yields for a row. */
  function Project(row: QuestionRow): (q: Question)
    ensures q.id == row.id && q.question == row.text && q.likesCount == row.likes
  {
    Question(row.id, row.text, row.likes)
  }
}
