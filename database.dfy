/**
 * The relational store the board talks to: the `subject` and `question` tables,
 * the answers its queries give, and the begin/exec/rollback/commit scope each
 * mutating statement runs in.
 *
 * Where the store can fail is an explicit argument (`ReadFault`, `WriteFault`)
 * rather than something the model decides.
 */
module Database {
  import opened Results
  import opened Errors
  import opened Records
  import opened Ordering

  /** How a read -- a query followed by a `rows.Next()`/`rows.Scan` loop -- can go wrong. */
  datatype ReadFault =
    | NoReadFault
      /** the query itself returns an error */
    | QueryFails(message: string)
      /** scanning the row with this id into Go values fails (a NULL column, say) */
    | ScanFails(rowId: int, message: string)
      /** the result stream breaks just before the row with this id: `rows.Next()`
          answers false and the error is only kept in `rows.Err()` */
    | NextFails(rowId: int)

  predicate ScanFailsAt(f: ReadFault, id: int) {
    f.ScanFails? && f.rowId == id
  }

  predicate StopsAt(f: ReadFault, id: int) {
    f.NextFails? && f.rowId == id
  }

  /** How a one-statement transaction can go wrong, step by step. */
  datatype WriteFault =
    | NoWriteFault
    | PrepareFails(message: string)
    | BeginFails(message: string)
    | ExecFails(message: string)
    | CommitFails(message: string)

  /** What a write helper returns: prepare, begin and exec errors; the commit's error is dropped. */
  function WriteError(f: WriteFault): (err: Option<Error>)
    ensures err.None? <==> f.NoWriteFault? || f.CommitFails?
    ensures err.Some? ==> err.value == Plain(f.message)
  {
    match f
    case PrepareFails(m) => Some(Plain(m))
    case BeginFails(m) => Some(Plain(m))
    case ExecFails(m) => Some(Plain(m))
    case _ => None
  }

  /** The mutating statements the service issues. */
  datatype Statement =
      /** INSERT INTO question(question, subject_id) VALUES ($1, $2) */
    | InsertQuestion(text: string, subjectId: int)
      /** UPDATE question SET likes = likes + delta WHERE id = $1 */
    | AddLikes(questionId: int, delta: int)

  /** The row of the subject table with this id, if there is one. */
  function FindSubject(rows: seq<Subject>, id: int): (r: Option<Subject>)
    ensures r.Some? ==> r.value in rows && r.value.id == id
    ensures r.None? ==> forall s :: s in rows ==> s.id != id
  {
    if rows == [] then None
    else if rows[0].id == id then Some(rows[0])
    else FindSubject(rows[1..], id)
  }

  /** The row of the question table with this id, if there is one. */
  function FindQuestion(rows: seq<QuestionRow>, id: int): (r: Option<QuestionRow>)
    ensures r.Some? ==> r.value in rows && r.value.id == id
    ensures r.None? ==> forall q :: q in rows ==> q.id != id
  {
    if rows == [] then None
    else if rows[0].id == id then Some(rows[0])
    else FindQuestion(rows[1..], id)
  }

  /** No two rows share an id (`id` is the primary key). */
  ghost predicate UniqueSubjectIds(rows: seq<Subject>) {
    forall i, j :: 0 <= i < j < |rows| ==> rows[i].id != rows[j].id
  }

  ghost predicate UniqueQuestionIds(rows: seq<QuestionRow>) {
    forall i, j :: 0 <= i < j < |rows| ==> rows[i].id != rows[j].id
  }

  ghost predicate NonNegative(rows: seq<QuestionRow>) {
    forall i :: 0 <= i < |rows| ==> rows[i].likes >= 0
  }

  /** The question table after the UPDATE: only the likes of the row with this id move, by `delta`. */
  function LikesAdded(rows: seq<QuestionRow>, id: int, delta: int): (r: seq<QuestionRow>)
    ensures |r| == |rows|
    ensures forall i :: 0 <= i < |rows| && rows[i].id != id ==> r[i] == rows[i]
    ensures forall i :: 0 <= i < |rows| && rows[i].id == id ==> r[i] == rows[i].(likes := rows[i].likes + delta)
  {
    seq(|rows|, i requires 0 <= i < |rows| =>
      if rows[i].id == id then rows[i].(likes := rows[i].likes + delta) else rows[i])
  }

  /** `(id, question, likes)` of the rows filed under a subject, in table order (no ORDER BY). */
  function QuestionsOf(rows: seq<QuestionRow>, subjectId: int): (r: seq<Question>)
    ensures forall i :: 0 <= i < |rows| && rows[i].subjectId == subjectId ==> Project(rows[i]) in r
  {
    if rows == [] then []
    else
      var init := rows[..|rows| - 1];
      var last := rows[|rows| - 1];
      var r := QuestionsOf(init, subjectId) + (if last.subjectId == subjectId then [Project(last)] else []);
      assert forall i :: 0 <= i < |init| ==> rows[i] == init[i];
      r
  }

  /** A question selected for a subject is the projection of the table row found under its id. */
  lemma {:induction false} SelectedIsFound(rows: seq<QuestionRow>, subjectId: int, q: Question)
    requires UniqueQuestionIds(rows)
    requires q in QuestionsOf(rows, subjectId)
    ensures FindQuestion(rows, q.id).Some?
    ensures FindQuestion(rows, q.id).value.subjectId == subjectId
    ensures Project(FindQuestion(rows, q.id).value) == q
  {
    var init := rows[..|rows| - 1];
    var last := rows[|rows| - 1];
    if q in QuestionsOf(init, subjectId) {
      SelectedIsFound(init, subjectId, q);
      FindInPrefix(rows, |rows| - 1, q.id);
    } else {
      assert last.subjectId == subjectId && Project(last) == q;
      FindLast(rows, q.id);
    }
  }

  /** Under unique ids, a row found in a prefix is the row found in the whole table. */
  lemma {:induction false} FindInPrefix(rows: seq<QuestionRow>, n: nat, id: int)
    requires n <= |rows|
    requires FindQuestion(rows[..n], id).Some?
    ensures FindQuestion(rows, id) == FindQuestion(rows[..n], id)
  {
    assert rows[0] == rows[..n][0];
    if rows[0].id != id {
      assert rows[..n][1..] == rows[1..][..n - 1];
      FindInPrefix(rows[1..], n - 1, id);
    }
  }

  /** Under unique ids, the last row is the one found under its id. */
  lemma FindLast(rows: seq<QuestionRow>, id: int)
    requires UniqueQuestionIds(rows)
    requires rows != [] && rows[|rows| - 1].id == id
    ensures FindQuestion(rows, id) == Some(rows[|rows| - 1])
  {
  }

  class Store {
    /** the subject table, in storage order */
    var subjects: seq<Subject>
    /** the question table, in storage order */
    var questions: seq<QuestionRow>
    /** the id the next inserted question receives */
    var nextQuestionId: int
    /** the column default `likes` takes when an INSERT does not name it */
    const likesDefault: int

    /** Ids are unique in both tables; every question id was handed out already. */
    ghost predicate Valid()
      reads this
    {
      UniqueSubjectIds(subjects) && UniqueQuestionIds(questions) &&
      (forall i :: 0 <= i < |questions| ==> questions[i].id < nextQuestionId)
    }

    /** The counter invariant the operations keep in a sequential run. */
    ghost predicate LikesNonNegative()
      reads this
    {
      NonNegative(questions)
    }

    constructor (subjects: seq<Subject>, likesDefault: int)
      requires UniqueSubjectIds(subjects)
      ensures Valid()
      ensures this.subjects == subjects && questions == [] && this.likesDefault == likesDefault
    {
      this.subjects := subjects;
      this.questions := [];
      this.nextQuestionId := 1;
      this.likesDefault := likesDefault;
    }

    /** SELECT id, title, enabled FROM subject ORDER BY id */
    method SelectSubjectsOrderById() returns (rows: seq<Subject>)
      requires Valid()
      ensures OrderedById(rows)
      ensures multiset(rows) == multiset(subjects)
    {
      rows := [];
      for i := 0 to |subjects|
        invariant OrderedById(rows)
        invariant multiset(rows) == multiset(subjects[..i])
      {
        var row := subjects[i];
        forall y | y in rows ensures y.id != row.id {
          assert y in multiset(subjects[..i]);
          var j :| 0 <= j < i && subjects[..i][j] == y;
        }
        InsertByIdOrdered(row, rows);
        rows := InsertById(row, rows);
        assert subjects[..i + 1] == subjects[..i] + [row];
      }
      assert subjects[..|subjects|] == subjects;
    }

    /** SELECT id, title, enabled FROM subject WHERE id = $1 */
    method SelectSubjectById(id: int) returns (rows: seq<Subject>)
      requires Valid()
      ensures rows == match FindSubject(subjects, id) case Some(s) => [s] case None => []
    {
      rows := match FindSubject(subjects, id) case Some(s) => [s] case None => [];
    }

    /** SELECT id, question, likes FROM question WHERE subject_id = $1 ORDER BY likes DESC, question ASC */
    method SelectQuestionsOfSubject(subjectId: int) returns (rows: seq<Question>)
      requires Valid()
      ensures Ranked(rows)
      ensures multiset(rows) == multiset(QuestionsOf(questions, subjectId))
    {
      rows := [];
      for i := 0 to |questions|
        invariant Ranked(rows)
        invariant multiset(rows) == multiset(QuestionsOf(questions[..i], subjectId))
      {
        assert questions[..i + 1][..i] == questions[..i];
        if questions[i].subjectId == subjectId {
          var q := Project(questions[i]);
          InsertRankedRanked(q, rows);
          rows := InsertRanked(q, rows);
        }
      }
      assert questions[..|questions|] == questions;
    }

    /** SELECT id, question, likes FROM question WHERE id = $1 */
    method SelectQuestionById(id: int) returns (rows: seq<Question>)
      requires Valid()
      ensures rows == match FindQuestion(questions, id) case Some(row) => [Project(row)] case None => []
    {
      rows := match FindQuestion(questions, id) case Some(row) => [Project(row)] case None => [];
    }

    /**
     * Runs one statement inside begin/exec/commit. A failing exec is rolled
     * back and its error returned. The commit's own result is not looked at:
     * a failed commit leaves the tables as they were and still reports success.
     */
    method Execute(stmt: Statement, fault: WriteFault) returns (err: Option<Error>)
      requires Valid()
      modifies this
      ensures Valid()
      ensures err == WriteError(fault)
      ensures subjects == old(subjects)
      ensures !fault.NoWriteFault? ==> questions == old(questions) && nextQuestionId == old(nextQuestionId)
      ensures fault.NoWriteFault? && stmt.InsertQuestion? ==>
        questions == old(questions) + [QuestionRow(old(nextQuestionId), stmt.text, stmt.subjectId, likesDefault)] &&
        nextQuestionId == old(nextQuestionId) + 1
      ensures fault.NoWriteFault? && stmt.AddLikes? ==>
        questions == LikesAdded(old(questions), stmt.questionId, stmt.delta) &&
        nextQuestionId == old(nextQuestionId)
    {
      if fault.PrepareFails? {
        return Some(Plain(fault.message));
      }
      if fault.BeginFails? {
        return Some(Plain(fault.message));
      }
      // The statement runs against the transaction's own view of the table.
      var staged, stagedNext;
      match stmt {
        case InsertQuestion(text, subjectId) =>
          staged := questions + [QuestionRow(nextQuestionId, text, subjectId, likesDefault)];
          stagedNext := nextQuestionId + 1;
        case AddLikes(id, delta) =>
          staged := LikesAdded(questions, id, delta);
          stagedNext := nextQuestionId;
      }
      if fault.ExecFails? {
        // Rollback: the staged view is dropped.
        return Some(Plain(fault.message));
      }
      if fault.CommitFails? {
        // The commit did not happen, and nobody looks at its error.
        return None;
      }
      questions, nextQuestionId := staged, stagedNext;
      return None;
    }
  }

  /** The tables and the id counter are as they were before the call. */
  twostate predicate TablesUnchanged(db: Store)
    reads db
  {
    db.subjects == old(db.subjects) && db.questions == old(db.questions) &&
    db.nextQuestionId == old(db.nextQuestionId)
  }
}
