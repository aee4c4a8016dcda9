/**
 * The orders of the two list queries: `ORDER BY id` on subjects and
 * `ORDER BY likes DESC, question ASC` on questions. Text is compared
 * character by character (no collation).
 */
module Ordering {
  import opened Records

  /** Lexicographic "a comes no later than b". */
  predicate TextLe(a: string, b: string)
    decreases |a|
  {
    |a| == 0 || (|b| > 0 && (a[0] < b[0] || (a[0] == b[0] && TextLe(a[1..], b[1..]))))
  }

  lemma {:induction false} TextLeTotal(a: string, b: string)
    ensures TextLe(a, b) || TextLe(b, a)
    decreases |a|
  {
    if |a| > 0 && |b| > 0 && a[0] == b[0] {
      TextLeTotal(a[1..], b[1..]);
    }
  }

  lemma {:induction false} TextLeTransitive(a: string, b: string, c: string)
    requires TextLe(a, b) && TextLe(b, c)
    ensures TextLe(a, c)
    decreases |a|
  {
    if |a| > 0 && a[0] == b[0] && b[0] == c[0] {
      TextLeTransitive(a[1..], b[1..], c[1..]);
    }
  }

  /** `ORDER BY likes DESC, question ASC`: q may be listed before r. */
  predicate RankLe(q: Question, r: Question) {
    q.likesCount > r.likesCount || (q.likesCount == r.likesCount && TextLe(q.question, r.question))
  }

  lemma RankLeTotal(q: Question, r: Question)
    ensures RankLe(q, r) || RankLe(r, q)
  {
    TextLeTotal(q.question, r.question);
  }

  lemma RankLeTransitive(p: Question, q: Question, r: Question)
    requires RankLe(p, q) && RankLe(q, r)
    ensures RankLe(p, r)
  {
    if p.likesCount == q.likesCount == r.likesCount {
      TextLeTransitive(p.question, q.question, r.question);
    }
  }

  ghost predicate Ranked(s: seq<Question>) {
    forall i, j :: 0 <= i < j < |s| ==> RankLe(s[i], s[j])
  }

  ghost predicate OrderedById(s: seq<Subject>) {
    forall i, j :: 0 <= i < j < |s| ==> s[i].id < s[j].id
  }

  /** Inserts a subject into a list ordered by id, before the first larger id. */
  function InsertById(x: Subject, s: seq<Subject>): (r: seq<Subject>)
    ensures multiset(r) == multiset(s) + multiset{x}
  {
    if s == [] || x.id < s[0].id then [x] + s
    else
      assert s == [s[0]] + s[1..];
      [s[0]] + InsertById(x, s[1..])
  }

  lemma {:induction false} InsertByIdOrdered(x: Subject, s: seq<Subject>)
    requires OrderedById(s)
    requires forall y :: y in s ==> y.id != x.id
    ensures OrderedById(InsertById(x, s))
  {
    if s != [] && x.id >= s[0].id {
      var tail := InsertById(x, s[1..]);
      InsertByIdOrdered(x, s[1..]);
      forall j | 0 <= j < |tail| ensures s[0].id < tail[j].id {
        assert tail[j] in multiset(tail);
        if tail[j] != x {
          assert tail[j] in s[1..];
        }
      }
    }
  }

  /** Inserts a question into a ranked list, after every row it does not rank before. */
  function InsertRanked(x: Question, s: seq<Question>): (r: seq<Question>)
    ensures multiset(r) == multiset(s) + multiset{x}
  {
    if s == [] || RankLe(x, s[0]) then [x] + s
    else
      assert s == [s[0]] + s[1..];
      [s[0]] + InsertRanked(x, s[1..])
  }

  lemma {:induction false} InsertRankedRanked(x: Question, s: seq<Question>)
    requires Ranked(s)
    ensures Ranked(InsertRanked(x, s))
  {
    if s == [] {
    } else if RankLe(x, s[0]) {
      forall j | 0 < j < |s| ensures RankLe(x, s[j]) {
        RankLeTransitive(x, s[0], s[j]);
      }
    } else {
      RankLeTotal(x, s[0]);
      var tail := InsertRanked(x, s[1..]);
      InsertRankedRanked(x, s[1..]);
      forall j | 0 <= j < |tail| ensures RankLe(s[0], tail[j]) {
        assert tail[j] in multiset(tail);
        if tail[j] != x {
          assert tail[j] in s[1..];
        }
      }
    }
  }

}
