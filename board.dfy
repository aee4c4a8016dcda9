/**
 * The Board service: list and look up subjects, list and create questions,
 * like and unlike a question. Every operation is a short sequence of store
 * round trips; the store is passed in explicitly.
 */
module Board {
  import opened Results
  import opened Errors
  import opened Records
  import opened Ordering
  import opened Database

  /** The message of the only error the service makes itself. */
  const NegativeLikes := "like count can not be negative"

  // ---------------------------------------------------------------------------
  // What a point lookup (`WHERE id = $1` and a scan into a zero-valued record) yields

  /** The lookup reports an error: the query fails, or scanning the matching row does. */
  predicate SubjectLookupFails(subjects: seq<Subject>, id: int, f: ReadFault) {
    f.QueryFails? || (ScanFailsAt(f, id) && FindSubject(subjects, id).Some?)
  }

  /** The record a successful lookup hands back: the row, or `Subject{}` when no row was read. */
  function LookedUpSubject(subjects: seq<Subject>, id: int, f: ReadFault): (s: Subject)
    ensures FindSubject(subjects, id).None? || StopsAt(f, id) ==> s == ZeroSubject
    ensures FindSubject(subjects, id).Some? && !StopsAt(f, id) ==> s == FindSubject(subjects, id).value
    ensures s != ZeroSubject ==> s in subjects && s.id == id
  {
    match FindSubject(subjects, id)
    case Some(row) => if StopsAt(f, id) then ZeroSubject else row
    case None => ZeroSubject
  }

  predicate QuestionLookupFails(questions: seq<QuestionRow>, id: int, f: ReadFault) {
    f.QueryFails? || (ScanFailsAt(f, id) && FindQuestion(questions, id).Some?)
  }

  /** The record a successful lookup hands back: the selected columns of the row, or `Question{}`. */
  function LookedUpQuestion(questions: seq<QuestionRow>, id: int, f: ReadFault): (q: Question)
    ensures FindQuestion(questions, id).None? || StopsAt(f, id) ==> q == ZeroQuestion
    ensures FindQuestion(questions, id).Some? && !StopsAt(f, id) ==> q == Project(FindQuestion(questions, id).value)
    ensures q != ZeroQuestion ==> exists row :: row in questions && row.id == id && Project(row) == q
  {
    match FindQuestion(questions, id)
    case Some(row) => if StopsAt(f, id) then ZeroQuestion else Project(row)
    case None => ZeroQuestion
  }

  /** Unlike's guard: the looked-up counter is positive. */
  predicate UnlikeAllowed(questions: seq<QuestionRow>, id: int, f: ReadFault) {
    LookedUpQuestion(questions, id, f).likesCount > 0
  }

  // ---------------------------------------------------------------------------
  // Read helpers

  /** selectSubject: never nil -- a missing row gives the zero-valued record. */
  method SelectSubject(db: Store, id: int, fault: ReadFault) returns (r: Result<Subject, Error>)
    requires db.Valid()
    ensures r.Failure? <==> SubjectLookupFails(db.subjects, id, fault)
    ensures r.Failure? ==> r.error == Plain(fault.message)
    ensures r.Success? ==> r.value == LookedUpSubject(db.subjects, id, fault)
  {
    if fault.QueryFails? {
      return Failure(Plain(fault.message));
    }
    var rows := db.SelectSubjectById(id);
    var subject := ZeroSubject;
    var i := 0;
    while i < |rows| && !StopsAt(fault, rows[i].id)
      invariant 0 <= i <= |rows|
      invariant subject == if i == 0 then ZeroSubject else rows[i - 1]
      invariant forall j :: 0 <= j < i ==> !ScanFailsAt(fault, rows[j].id) && !StopsAt(fault, rows[j].id)
    {
      if ScanFailsAt(fault, rows[i].id) {
        return Failure(Plain(fault.message));
      }
      subject := rows[i];
      i := i + 1;
    }
    assert rows != [] ==> rows == [FindSubject(db.subjects, id).value];
    return Success(subject);
  }

  /** selectQuestion: never nil -- a missing row gives the zero-valued record. */
  method SelectQuestion(db: Store, id: int, fault: ReadFault) returns (r: Result<Question, Error>)
    requires db.Valid()
    ensures r.Failure? <==> QuestionLookupFails(db.questions, id, fault)
    ensures r.Failure? ==> r.error == Plain(fault.message)
    ensures r.Success? ==> r.value == LookedUpQuestion(db.questions, id, fault)
  {
    if fault.QueryFails? {
      return Failure(Plain(fault.message));
    }
    var rows := db.SelectQuestionById(id);
    var question := ZeroQuestion;
    var i := 0;
    while i < |rows| && !StopsAt(fault, rows[i].id)
      invariant 0 <= i <= |rows|
      invariant question == if i == 0 then ZeroQuestion else rows[i - 1]
      invariant forall j :: 0 <= j < i ==> !ScanFailsAt(fault, rows[j].id) && !StopsAt(fault, rows[j].id)
    {
      if ScanFailsAt(fault, rows[i].id) {
        return Failure(Plain(fault.message));
      }
      question := rows[i];
      i := i + 1;
    }
    assert rows != [] ==> rows == [Project(FindQuestion(db.questions, id).value)];
    return Success(question);
  }

  // ---------------------------------------------------------------------------
  // Write helpers: one statement each, in its own transaction

  method InsertQuestion(db: Store, question: string, subjectId: int, fault: WriteFault) returns (err: Option<Error>)
    requires db.Valid()
    modifies db
    ensures db.Valid() && db.subjects == old(db.subjects)
    ensures err == WriteError(fault)
    ensures fault.NoWriteFault? ==>
      db.questions == old(db.questions) + [QuestionRow(old(db.nextQuestionId), question, subjectId, db.likesDefault)] &&
      db.nextQuestionId == old(db.nextQuestionId) + 1
    ensures !fault.NoWriteFault? ==> TablesUnchanged(db)
  {
    err := db.Execute(Statement.InsertQuestion(question, subjectId), fault);
  }

  method AddQuestionLikes(db: Store, questionId: int, fault: WriteFault) returns (err: Option<Error>)
    requires db.Valid()
    modifies db
    ensures db.Valid() && db.subjects == old(db.subjects) && db.nextQuestionId == old(db.nextQuestionId)
    ensures err == WriteError(fault)
    ensures db.questions == if fault.NoWriteFault? then LikesAdded(old(db.questions), questionId, 1) else old(db.questions)
  {
    err := db.Execute(AddLikes(questionId, 1), fault);
  }

  method SubQuestionLikes(db: Store, questionId: int, fault: WriteFault) returns (err: Option<Error>)
    requires db.Valid()
    modifies db
    ensures db.Valid() && db.subjects == old(db.subjects) && db.nextQuestionId == old(db.nextQuestionId)
    ensures err == WriteError(fault)
    ensures db.questions == if fault.NoWriteFault? then LikesAdded(old(db.questions), questionId, -1) else old(db.questions)
  {
    err := db.Execute(AddLikes(questionId, -1), fault);
  }

  // ---------------------------------------------------------------------------
  // The service operations

  method ListSubjects(db: Store, fault: ReadFault) returns (r: Result<seq<Subject>, Error>)
    requires db.Valid()
    ensures r.Failure? <==> fault.QueryFails? || (fault.ScanFails? && FindSubject(db.subjects, fault.rowId).Some?)
    ensures r.Failure? ==> r.error == Plain(fault.message)
    ensures r.Success? ==> OrderedById(r.value)
    ensures r.Success? && !(fault.NextFails? && FindSubject(db.subjects, fault.rowId).Some?) ==>
      multiset(r.value) == multiset(db.subjects)
    ensures r.Success? && fault.NextFails? && FindSubject(db.subjects, fault.rowId).Some? ==>
      forall s :: s in r.value <==> s in db.subjects && s.id < fault.rowId
  {
    if fault.QueryFails? {
      return Failure(Plain(fault.message));
    }
    var rows := db.SelectSubjectsOrderById();
    var list: seq<Subject> := [];
    var i := 0;
    while i < |rows| && !StopsAt(fault, rows[i].id)
      invariant 0 <= i <= |rows|
      invariant list == rows[..i]
      invariant forall j :: 0 <= j < i ==> !ScanFailsAt(fault, rows[j].id) && !StopsAt(fault, rows[j].id)
    {
      var subject := rows[i];
      if ScanFailsAt(fault, subject.id) {
        assert subject in multiset(db.subjects);
        return Failure(Plain(fault.message));
      }
      list := list + [subject];
      i := i + 1;
    }
    if i < |rows| {
      // The stream stopped at rows[i]: the list holds exactly the rows ordered before it.
      assert rows[i] in multiset(db.subjects);
      SubjectsBeforeStop(rows, db.subjects, i);
    } else {
      assert list == rows;
      SubjectsWalked(rows, db.subjects, fault);
    }
    return Success(list);
  }

  /** A walk over a permutation of the table that met no faulty row leaves no faulty row in the table. */
  lemma SubjectsWalked(rows: seq<Subject>, subjects: seq<Subject>, fault: ReadFault)
    requires multiset(rows) == multiset(subjects)
    requires forall j :: 0 <= j < |rows| ==> !ScanFailsAt(fault, rows[j].id) && !StopsAt(fault, rows[j].id)
    ensures fault.ScanFails? || fault.NextFails? ==> FindSubject(subjects, fault.rowId).None?
  {
    forall s | s in subjects ensures !ScanFailsAt(fault, s.id) && !StopsAt(fault, s.id) {
      assert s in multiset(rows);
      var j :| 0 <= j < |rows| && rows[j] == s;
    }
  }

  /** In the id-ordered listing, the rows before position i are the table's rows with smaller ids. */
  lemma SubjectsBeforeStop(rows: seq<Subject>, subjects: seq<Subject>, i: nat)
    requires OrderedById(rows) && multiset(rows) == multiset(subjects) && i < |rows|
    ensures forall s :: s in rows[..i] <==> s in subjects && s.id < rows[i].id
  {
    forall s | s in rows[..i] ensures s in subjects && s.id < rows[i].id {
      var j :| 0 <= j < i && rows[..i][j] == s;
      assert s in multiset(rows);
    }
    forall s | s in subjects && s.id < rows[i].id ensures s in rows[..i] {
      assert s in multiset(rows);
      var j :| 0 <= j < |rows| && rows[j] == s;
      assert rows[..i][j] == s;
    }
  }

  method GetSubject(db: Store, id: int, fault: ReadFault) returns (r: Result<Subject, Error>)
    requires db.Valid()
    ensures r.Failure? <==> SubjectLookupFails(db.subjects, id, fault)
    ensures r.Failure? ==> r.error == Plain(fault.message)
    ensures r.Success? ==> r.value == LookedUpSubject(db.subjects, id, fault)
  {
    // The same query and scan loop as selectSubject.
    r := SelectSubject(db, id, fault);
  }

  /** The question table has a row with this id, filed under the subject. */
  predicate Selects(questions: seq<QuestionRow>, subjectId: int, id: int) {
    FindQuestion(questions, id).Some? && FindQuestion(questions, id).value.subjectId == subjectId
  }

  method ListQuestions(db: Store, subjectId: int, fault: ReadFault) returns (r: Result<seq<Question>, Error>)
    requires db.Valid()
    ensures r.Failure? <==> fault.QueryFails? || (fault.ScanFails? && Selects(db.questions, subjectId, fault.rowId))
    ensures r.Failure? ==> r.error == Plain(fault.message)
    ensures r.Success? ==> Ranked(r.value) && multiset(r.value) <= multiset(QuestionsOf(db.questions, subjectId))
    ensures r.Success? && !(fault.NextFails? && Selects(db.questions, subjectId, fault.rowId)) ==>
      multiset(r.value) == multiset(QuestionsOf(db.questions, subjectId))
    ensures r.Success? && fault.NextFails? && Selects(db.questions, subjectId, fault.rowId) ==>
      (forall q :: q in r.value ==>
         q.id != fault.rowId && RankLe(q, Project(FindQuestion(db.questions, fault.rowId).value))) &&
      (forall q :: (q in QuestionsOf(db.questions, subjectId) &&
                    !RankLe(Project(FindQuestion(db.questions, fault.rowId).value), q)) ==> q in r.value)
  {
    if fault.QueryFails? {
      return Failure(Plain(fault.message));
    }
    var rows := db.SelectQuestionsOfSubject(subjectId);
    var list: seq<Question> := [];
    var i := 0;
    while i < |rows| && !StopsAt(fault, rows[i].id)
      invariant 0 <= i <= |rows|
      invariant list == rows[..i]
      invariant forall j :: 0 <= j < i ==> !ScanFailsAt(fault, rows[j].id) && !StopsAt(fault, rows[j].id)
    {
      var question := rows[i];
      if ScanFailsAt(fault, question.id) {
        assert question in multiset(QuestionsOf(db.questions, subjectId));
        SelectedIsFound(db.questions, subjectId, question);
        return Failure(Plain(fault.message));
      }
      list := list + [question];
      i := i + 1;
    }
    if i < |rows| {
      // The stream stopped at rows[i]: every listed question ranks no later than it.
      QuestionsBeforeStop(rows, db.questions, subjectId, i);
    } else {
      assert list == rows;
      QuestionsWalked(rows, db.questions, subjectId, fault);
    }
    return Success(list);
  }

  /** A row filed under the subject is among the questions selected for it. */
  lemma FoundIsSelected(questions: seq<QuestionRow>, subjectId: int, id: int)
    ensures Selects(questions, subjectId, id) ==>
      Project(FindQuestion(questions, id).value) in QuestionsOf(questions, subjectId)
  {
  }

  /** A walk over the selected questions that met no faulty row: the table files no faulty row under the subject. */
  lemma QuestionsWalked(rows: seq<Question>, questions: seq<QuestionRow>, subjectId: int, fault: ReadFault)
    requires multiset(rows) == multiset(QuestionsOf(questions, subjectId))
    requires forall j :: 0 <= j < |rows| ==> !ScanFailsAt(fault, rows[j].id) && !StopsAt(fault, rows[j].id)
    ensures fault.ScanFails? || fault.NextFails? ==> !Selects(questions, subjectId, fault.rowId)
  {
    forall q | q in QuestionsOf(questions, subjectId) ensures !ScanFailsAt(fault, q.id) && !StopsAt(fault, q.id) {
      assert q in multiset(rows);
      var j :| 0 <= j < |rows| && rows[j] == q;
    }
    if fault.ScanFails? || fault.NextFails? {
      FoundIsSelected(questions, subjectId, fault.rowId);
    }
  }

  /** In the ranked listing, what comes before position i ranks no later than rows[i], which is a row of the table. */
  lemma QuestionsBeforeStop(rows: seq<Question>, questions: seq<QuestionRow>, subjectId: int, i: nat)
    requires UniqueQuestionIds(questions)
    requires Ranked(rows) && multiset(rows) == multiset(QuestionsOf(questions, subjectId)) && i < |rows|
    requires forall j :: 0 <= j < i ==> rows[j].id != rows[i].id
    ensures Selects(questions, subjectId, rows[i].id)
    ensures Project(FindQuestion(questions, rows[i].id).value) == rows[i]
    ensures forall q :: q in rows[..i] ==> q.id != rows[i].id && RankLe(q, rows[i])
    ensures forall q :: q in QuestionsOf(questions, subjectId) && !RankLe(rows[i], q) ==> q in rows[..i]
    ensures multiset(rows[..i]) <= multiset(QuestionsOf(questions, subjectId))
  {
    assert rows[i] in multiset(QuestionsOf(questions, subjectId));
    SelectedIsFound(questions, subjectId, rows[i]);
    RankedPrefix(rows, i);
    forall q | q in QuestionsOf(questions, subjectId) && !RankLe(rows[i], q) ensures q in rows[..i] {
      assert q in multiset(rows);
      StrictlyAheadListed(rows, i, q);
    }
    PrefixSubMultiset(rows, i);
  }

  /** In a ranked listing, a question that must come before rows[i] does come before it. */
  lemma StrictlyAheadListed(rows: seq<Question>, i: nat, q: Question)
    requires Ranked(rows) && i < |rows| && q in rows && !RankLe(rows[i], q)
    ensures q in rows[..i]
  {
    var k :| 0 <= k < |rows| && rows[k] == q;
    RankLeTotal(rows[i], rows[i]);
    // Everything from position i on ranks no earlier than rows[i].
    assert forall j :: i <= j < |rows| ==> RankLe(rows[i], rows[j]);
    assert rows[..i][k] == q;
  }

  lemma RankedPrefix(rows: seq<Question>, i: nat)
    requires Ranked(rows) && i < |rows|
    requires forall j :: 0 <= j < i ==> rows[j].id != rows[i].id
    ensures forall q :: q in rows[..i] ==> q.id != rows[i].id && RankLe(q, rows[i])
  {
  }

  lemma PrefixSubMultiset<T>(rows: seq<T>, i: nat)
    requires i <= |rows|
    ensures multiset(rows[..i]) <= multiset(rows)
  {
    assert rows == rows[..i] + rows[i..];
  }

  method CreateQuestion(db: Store, subjectId: int, question: string, lookup: ReadFault, write: WriteFault)
    returns (err: Option<Error>)
    requires db.Valid()
    modifies db
    ensures db.Valid() && db.subjects == old(db.subjects)
    ensures SubjectLookupFails(old(db.subjects), subjectId, lookup) ==>
      err == Some(Plain(lookup.message)) && TablesUnchanged(db)
    ensures (!SubjectLookupFails(old(db.subjects), subjectId, lookup) &&
             (!LookedUpSubject(old(db.subjects), subjectId, lookup).enabled || |question| == 0)) ==>
      err.None? && TablesUnchanged(db)
    ensures (!SubjectLookupFails(old(db.subjects), subjectId, lookup) &&
             LookedUpSubject(old(db.subjects), subjectId, lookup).enabled && |question| > 0) ==>
      err == WriteError(write) &&
      if write.NoWriteFault? then
        db.questions == old(db.questions) + [QuestionRow(old(db.nextQuestionId), question, subjectId, db.likesDefault)] &&
        db.nextQuestionId == old(db.nextQuestionId) + 1
      else TablesUnchanged(db)
    ensures old(db.LikesNonNegative()) && db.likesDefault >= 0 ==> db.LikesNonNegative()
  {
    var subject := SelectSubject(db, subjectId, lookup);
    if subject.Failure? {
      return Some(subject.error);
    }
    // selectSubject never yields nil, so the source's "subject is not exists" branch has no counterpart.
    if !subject.value.enabled {
      // Rejected, but the error variable is still nil.
      return None;
    }
    if |question| == 0 {
      // Rejected, but the error variable is still nil.
      return None;
    }
    err := InsertQuestion(db, question, subjectId, write);
  }

  method Like(db: Store, questionId: int, write: WriteFault) returns (err: Option<Error>)
    requires db.Valid()
    modifies db
    ensures db.Valid() && db.subjects == old(db.subjects) && db.nextQuestionId == old(db.nextQuestionId)
    ensures err == WriteError(write)
    ensures db.questions == if write.NoWriteFault? then LikesAdded(old(db.questions), questionId, 1) else old(db.questions)
    ensures old(db.LikesNonNegative()) ==> db.LikesNonNegative()
  {
    err := AddQuestionLikes(db, questionId, write);
  }

  method Unlike(db: Store, questionId: int, read: ReadFault, write: WriteFault) returns (err: Option<Error>)
    requires db.Valid()
    modifies db
    ensures db.Valid() && db.subjects == old(db.subjects) && db.nextQuestionId == old(db.nextQuestionId)
    ensures QuestionLookupFails(old(db.questions), questionId, read) ==>
      err == Some(Plain(read.message)) && TablesUnchanged(db)
    ensures !QuestionLookupFails(old(db.questions), questionId, read) && !UnlikeAllowed(old(db.questions), questionId, read) ==>
      err == Some(Plain(NegativeLikes)) && TablesUnchanged(db)
    ensures !QuestionLookupFails(old(db.questions), questionId, read) && UnlikeAllowed(old(db.questions), questionId, read) ==>
      err == WriteError(write) &&
      db.questions == if write.NoWriteFault? then LikesAdded(old(db.questions), questionId, -1) else old(db.questions)
    ensures old(db.LikesNonNegative()) ==> db.LikesNonNegative()
  {
    var question := SelectQuestion(db, questionId, read);
    if question.Failure? {
      return Some(question.error);
    }
    if question.value.likesCount <= 0 {
      return Some(Plain(NegativeLikes));
    }
    ghost var before := db.questions;
    err := SubQuestionLikes(db, questionId, write);
    if write.NoWriteFault? && NonNegative(before) {
      UnlikeKeepsNonNegative(before, questionId);
    }
  }

  // ---------------------------------------------------------------------------
  // Properties of the counter updates

  /** The guarded decrement keeps every counter non-negative. */
  lemma UnlikeKeepsNonNegative(rows: seq<QuestionRow>, id: int)
    requires UniqueQuestionIds(rows) && NonNegative(rows)
    requires FindQuestion(rows, id).Some? && FindQuestion(rows, id).value.likes > 0
    ensures NonNegative(LikesAdded(rows, id, -1))
  {
  }

  /** After the UPDATE, the row found under an id is the old one with its counter moved. */
  lemma {:induction false} FindAfterLikesAdded(rows: seq<QuestionRow>, id: int, delta: int)
    ensures FindQuestion(LikesAdded(rows, id, delta), id) ==
      match FindQuestion(rows, id)
      case Some(row) => Some(row.(likes := row.likes + delta))
      case None => None
  {
    if rows != [] {
      assert LikesAdded(rows, id, delta)[1..] == LikesAdded(rows[1..], id, delta);
      FindAfterLikesAdded(rows[1..], id, delta);
    }
  }

  /** An UPDATE whose WHERE matches no row leaves the table as it was. */
  lemma LikesAddedToMissingRow(rows: seq<QuestionRow>, id: int, delta: int)
    requires FindQuestion(rows, id).None?
    ensures LikesAdded(rows, id, delta) == rows
  {
  }

  /** Like then Unlike: the guard passes on the liked row and the table returns to what it was. */
  lemma LikeThenUnlikeRestores(rows: seq<QuestionRow>, id: int)
    requires FindQuestion(rows, id).Some? && FindQuestion(rows, id).value.likes >= 0
    ensures UnlikeAllowed(LikesAdded(rows, id, 1), id, NoReadFault)
    ensures LikesAdded(LikesAdded(rows, id, 1), id, -1) == rows
  {
    FindAfterLikesAdded(rows, id, 1);
  }

  /**
   * The check and the decrement are separate round trips: two Unlikes that both
   * read a counter of 1 before either decrements pass the guard and leave -1.
   */
  lemma InterleavedUnlikesGoNegative(rows: seq<QuestionRow>, id: int)
    requires FindQuestion(rows, id).Some? && FindQuestion(rows, id).value.likes == 1
    ensures UnlikeAllowed(rows, id, NoReadFault)
    ensures FindQuestion(LikesAdded(LikesAdded(rows, id, -1), id, -1), id).value.likes == -1
  {
    FindAfterLikesAdded(rows, id, -1);
    FindAfterLikesAdded(LikesAdded(rows, id, -1), id, -1);
  }

  /** A question inserted under a subject is among those listed for it, with the default counter. */
  lemma InsertedIsListed(rows: seq<QuestionRow>, freshId: int, question: string, subjectId: int, likes: int)
    ensures Question(freshId, question, likes) in QuestionsOf(rows + [QuestionRow(freshId, question, subjectId, likes)], subjectId)
  {
  }

  /**
   * The listing order on a fixture: likes {3, 3, 1} and texts {"b", "a", "c"}
   * admit exactly one ranked arrangement, a(3), b(3), c(1).
   */
  lemma FixtureOrder(list: seq<Question>)
    requires Ranked(list)
    requires multiset(list) == multiset{Question(1, "b", 3), Question(2, "a", 3), Question(3, "c", 1)}
    ensures list == [Question(2, "a", 3), Question(1, "b", 3), Question(3, "c", 1)]
  {
  }
}
