/** Student queries (backend/src/students/repositories/student.repository.ts):
    lookups by registration number (sbd), the paginated listing, the count,
    and the group-A ranking (mathematics, physics, chemistry). */
module StudentRepository {
  import opened Base
  import opened Database
  import ScoreEntity
  import StudentEntity
  import ScoreRepository

  function RowSbd(row: StudentRow): string
  {
    row.sbd
  }

  function StudentSbd(s: StudentEntity.Student): string
  {
    s.sbd
  }

  /** A student selected without its scores (`id`, `sbd`, `ma_ngoai_ngu`). */
  function Plain(row: StudentRow): StudentEntity.Student
  {
    StudentEntity.FromDatabase(StudentEntity.StudentData(row.id, row.sbd, row.maNgoaiNgu, None))
  }

  /** `findUnique({ where: { sbd } })`: the row stored under `sbd`, if any. */
  function FindRow(rows: seq<StudentRow>, sbd: string): (r: Option<StudentRow>)
    ensures r.None? <==> !HasSbd(rows, sbd)
    ensures r.Some? ==> r.value in rows && r.value.sbd == sbd
  {
    if |rows| == 0 then None
    else if rows[0].sbd == sbd then Some(rows[0])
    else
      var r := FindRow(rows[1..], sbd);
      assert HasSbd(rows, sbd) ==> HasSbd(rows[1..], sbd) by {
        if HasSbd(rows, sbd) {
          var i :| 0 <= i < |rows| && rows[i].sbd == sbd;
          assert rows[1..][i - 1] == rows[i];
        }
      }
      assert HasSbd(rows[1..], sbd) ==> HasSbd(rows, sbd) by {
        if HasSbd(rows[1..], sbd) {
          var i :| 0 <= i < |rows[1..]| && rows[1..][i].sbd == sbd;
          assert rows[i + 1] == rows[1..][i];
        }
      }
      r
  }

  /** `findBySbd(sbd, includeScores)`; `findBySbdWithScores` is the call with
      `includeScores` set. The scores, when asked for, are the student's
      stored scores joined with their subjects, ordered by subject code. */
  function FindBySbd(db: Db, sbd: string, includeScores: bool): (r: Option<StudentEntity.Student>)
    ensures r.None? <==> !HasSbd(db.students.rows, sbd)
    ensures r.Some? ==> r.value.sbd == sbd
    ensures r.Some? ==> exists row :: row in db.students.rows && row.sbd == sbd && r.value.id == row.id && r.value.maNgoaiNgu == row.maNgoaiNgu
    ensures r.Some? && !includeScores ==> r.value.scores == []
    ensures r.Some? && includeScores ==> SortedOn(r.value.scores, ScoreRepository.ScoreCode)
    ensures r.Some? && includeScores ==> r.value.scores == ScoreRepository.FindByStudentId(db, r.value.id)
  {
    match FindRow(db.students.rows, sbd)
    case None => None
    case Some(row) =>
      var scores := if includeScores then Some(ScoreRepository.ScoresByCode(db, row.id)) else None;
      Some(StudentEntity.FromDatabase(StudentEntity.StudentData(row.id, row.sbd, row.maNgoaiNgu, scores)))
  }

  /** With scores, exactly the student's joined scores are attached. */
  lemma FindBySbdScores(db: Db, sbd: string)
    requires HasSbd(db.students.rows, sbd)
    ensures forall s :: s in FindBySbd(db, sbd, true).value.scores <==>
      exists d :: ScoreRepository.IsJoinedScore(db.subjects.rows, db.scores, FindBySbd(db, sbd, true).value.id, d)
               && s == ScoreEntity.FromDatabase(d)
  {
  }

  /** `findMany({ where: { sbd: { in: sbds } } })`, in table order. */
  function FindBySbds(db: Db, sbds: seq<string>): (r: seq<StudentEntity.Student>)
    ensures |r| <= |db.students.rows|
    ensures forall s :: s in r <==> exists row :: row in db.students.rows && row.sbd in sbds && s == Plain(row)
  {
    FilterSbds(db.students.rows, sbds)
  }

  function FilterSbds(rows: seq<StudentRow>, sbds: seq<string>): (r: seq<StudentEntity.Student>)
    ensures |r| <= |rows|
    ensures forall s :: s in r <==> exists row :: row in rows && row.sbd in sbds && s == Plain(row)
  {
    if |rows| == 0 then []
    else
      assert forall row :: row in rows <==> row == rows[0] || row in rows[1..] by {
        assert rows == [rows[0]] + rows[1..];
      }
      (if rows[0].sbd in sbds then [Plain(rows[0])] else []) + FilterSbds(rows[1..], sbds)
  }

  predicate DistinctSbds(xs: seq<StudentEntity.Student>)
  {
    forall i, j :: 0 <= i < j < |xs| ==> xs[i].sbd != xs[j].sbd
  }

  /** With unique registration numbers each requested one occurs at most once. */
  lemma {:induction false} FilterSbdsDistinct(rows: seq<StudentRow>, sbds: seq<string>)
    requires forall i, j :: 0 <= i < j < |rows| ==> rows[i].sbd != rows[j].sbd
    ensures DistinctSbds(FilterSbds(rows, sbds))
  {
    if |rows| > 0 {
      assert forall i, j :: 0 <= i < j < |rows[1..]| ==> rows[1..][i].sbd != rows[1..][j].sbd by {
        assert forall i :: 0 <= i < |rows[1..]| ==> rows[1..][i] == rows[i + 1];
      }
      FilterSbdsDistinct(rows[1..], sbds);
      var rest := FilterSbds(rows[1..], sbds);
      forall x | x in rest
        ensures x.sbd != rows[0].sbd
      {
        var row :| row in rows[1..] && row.sbd in sbds && x == Plain(row);
        var k :| 0 <= k < |rows[1..]| && rows[1..][k] == row;
        assert rows[k + 1] == row;
      }
    }
  }

  /** `findBySbds` returns at most one student per registration number. */
  lemma FindBySbdsDistinct(db: Db, sbds: seq<string>)
    requires StudentTableOk(db.students)
    ensures DistinctSbds(FindBySbds(db, sbds))
  {
    FilterSbdsDistinct(db.students.rows, sbds);
  }

  function LoadPlain(rows: seq<StudentRow>): (r: seq<StudentEntity.Student>)
    ensures |r| == |rows|
    ensures forall i :: 0 <= i < |rows| ==> r[i] == Plain(rows[i])
  {
    seq(|rows|, i requires 0 <= i < |rows| => Plain(rows[i]))
  }

  /** The students ordered by registration number. */
  function SortedStudents(db: Db): (r: seq<StudentEntity.Student>)
    ensures |r| == |db.students.rows|
    ensures SortedOn(r, StudentSbd)
    ensures forall s :: s in r <==> exists row :: row in db.students.rows && s == Plain(row)
  {
    var sorted := SortOn(db.students.rows, RowSbd);
    SortOnMembers(db.students.rows, RowSbd);
    var r := LoadPlain(sorted);
    assert forall i :: 0 <= i < |r| ==> StudentSbd(r[i]) == RowSbd(sorted[i]);
    forall s | s in r
      ensures exists row :: row in db.students.rows && s == Plain(row)
    {
      var k :| 0 <= k < |r| && r[k] == s;
      assert sorted[k] in sorted;
    }
    forall row | row in db.students.rows
      ensures Plain(row) in r
    {
      var k :| 0 <= k < |sorted| && sorted[k] == row;
      assert r[k] == Plain(row);
    }
    r
  }

  /** `findAll(skip, take)`: ordered by sbd ascending, the window of at most
      `take` students after the first `skip`. */
  function FindAll(db: Db, skip: nat, take: nat): (r: seq<StudentEntity.Student>)
    ensures |r| == if skip >= |db.students.rows| then 0 else Min(take, |db.students.rows| - skip)
    ensures SortedOn(r, StudentSbd)
    ensures forall s :: s in r ==> exists row :: row in db.students.rows && s == Plain(row)
  {
    var all := SortedStudents(db);
    var lo := Min(skip, |all|);
    var hi := Min(skip + take, |all|);
    assert forall s :: s in all[lo..hi] ==> s in all;
    all[lo..hi]
  }

  /** Consecutive pages concatenate to the page that spans both, and one page
      as large as the table lists every student. */
  lemma FindAllPages(db: Db, skip: nat, a: nat, b: nat)
    ensures FindAll(db, skip, a) + FindAll(db, skip + a, b) == FindAll(db, skip, a + b)
    ensures forall s :: s in FindAll(db, 0, |db.students.rows|) <==> exists row :: row in db.students.rows && s == Plain(row)
  {
    var all := SortedStudents(db);
    var n := |all|;
    assert all[Min(skip, n)..Min(skip + a + b, n)] == all[Min(skip, n)..Min(skip + a, n)] + all[Min(skip + a, n)..Min(skip + a + b, n)];
    assert all[0..n] == all;
  }

  /** `count()`. */
  function Count(db: Db): (n: nat)
    ensures n == |FindAll(db, 0, n)|
    ensures forall s :: s in FindAll(db, 0, n) <==> exists row :: row in db.students.rows && s == Plain(row)
  {
    FindAllPages(db, 0, 0, 0);
    |db.students.rows|
  }

  // ---- findTopGroupA ------------------------------------------------------

  /** The three subject codes of a ranking group. */
  datatype Trio = Trio(first: string, second: string, third: string)

  const GroupA: Trio := Trio("TOAN", "VAT_LI", "HOA_HOC")

  function TrioCodes(t: Trio): set<string>
  {
    {t.first, t.second, t.third}
  }

  /** One result row: `toan`, `vat_li`, `hoa_hoc` and `totalScore`. */
  datatype TopRow = TopRow(sbd: string, maNgoaiNgu: Option<string>, first: Option<real>, second: Option<real>,
                           third: Option<real>, totalScore: real)

  function Total(r: TopRow): real
  {
    r.totalScore
  }

  /** The code of a score's subject (`INNER JOIN "Subject"`). */
  function CodeOf(subjects: seq<SubjectRow>, x: ScoreRow): Option<string>
  {
    match ScoreRepository.SubjectById(subjects, x.subjectId)
    case None => None
    case Some(sub) => Some(sub.code)
  }

  /** Does score `x` enter the group of student `id` under the `WHERE`
      clause, with its subject's code among `codes`? */
  predicate Counts(subjects: seq<SubjectRow>, x: ScoreRow, id: nat, codes: set<string>)
  {
    x.studentId == id && x.score.Some? && CodeOf(subjects, x).Some? && CodeOf(subjects, x).value in codes
  }

  /** The student's non-null scores whose subject code is among `codes`, in table order. */
  function ScoresWhere(subjects: seq<SubjectRow>, scores: seq<ScoreRow>, id: nat, codes: set<string>): (r: seq<real>)
    ensures |r| <= |scores|
  {
    if |scores| == 0 then []
    else
      (if Counts(subjects, scores[0], id, codes) then [scores[0].score.value] else [])
        + ScoresWhere(subjects, scores[1..], id, codes)
  }

  function CodeScores(db: Db, id: nat, code: string): seq<real>
  {
    ScoresWhere(db.subjects.rows, db.scores, id, {code})
  }

  function TrioScores(db: Db, id: nat, t: Trio): seq<real>
  {
    ScoresWhere(db.subjects.rows, db.scores, id, TrioCodes(t))
  }

  function SumOf(xs: seq<real>): real
  {
    if |xs| == 0 then 0.0 else xs[0] + SumOf(xs[1..])
  }

  /** `MAX(...)`: `None` (SQL NULL) for no values. */
  function MaxOf(xs: seq<real>): (m: Option<real>)
    ensures m.None? <==> |xs| == 0
    ensures m.Some? ==> m.value in xs && forall x :: x in xs ==> x <= m.value
  {
    if |xs| == 0 then None
    else
      var rest := MaxOf(xs[1..]);
      assert forall x :: x in xs ==> x == xs[0] || x in xs[1..] by {
        assert xs == [xs[0]] + xs[1..];
      }
      if rest.None? || rest.value <= xs[0] then Some(xs[0]) else rest
  }

  /** The `HAVING COUNT(DISTINCT ...) = 3` test: three different codes, each
      with a non-null score. */
  predicate Qualifies(db: Db, id: nat, t: Trio)
  {
    t.first != t.second && t.second != t.third && t.first != t.third
    && |CodeScores(db, id, t.first)| > 0 && |CodeScores(db, id, t.second)| > 0 && |CodeScores(db, id, t.third)| > 0
  }

  /** The aggregated row of one student. */
  function RowOf(db: Db, row: StudentRow, t: Trio): TopRow
  {
    TopRow(row.sbd, row.maNgoaiNgu, MaxOf(CodeScores(db, row.id, t.first)), MaxOf(CodeScores(db, row.id, t.second)),
           MaxOf(CodeScores(db, row.id, t.third)), SumOf(TrioScores(db, row.id, t)))
  }

  /** The groups that survive `HAVING`, one per student, in table order. */
  function Candidates(db: Db, rows: seq<StudentRow>, t: Trio): (r: seq<TopRow>)
    ensures forall x :: x in r <==> exists row :: row in rows && Qualifies(db, row.id, t) && x == RowOf(db, row, t)
  {
    if |rows| == 0 then []
    else
      assert forall row :: row in rows <==> row == rows[0] || row in rows[1..] by {
        assert rows == [rows[0]] + rows[1..];
      }
      (if Qualifies(db, rows[0].id, t) then [RowOf(db, rows[0], t)] else []) + Candidates(db, rows[1..], t)
  }

  /** The ranking for any three codes: `ORDER BY total_score DESC LIMIT limit`.
      A negative limit makes the query fail. */
  function TopOf(db: Db, t: Trio, limit: int): (r: Option<seq<TopRow>>)
    ensures r.None? <==> limit < 0
    ensures r.Some? ==> |r.value| <= limit
    ensures r.Some? ==> SortedDescOn(r.value, Total)
    ensures r.Some? ==> forall x :: x in r.value ==> x in Candidates(db, db.students.rows, t)
    ensures r.Some? ==> |r.value| == Min(limit, |Candidates(db, db.students.rows, t)|)
    ensures r.Some? ==> multiset(r.value) <= multiset(Candidates(db, db.students.rows, t))
  {
    if limit < 0 then None
    else
      var sorted := SortDescOn(Candidates(db, db.students.rows, t), Total);
      var k := Min(limit, |sorted|);
      SortDescOnMembers(Candidates(db, db.students.rows, t), Total);
      assert forall x :: x in sorted[..k] ==> x in sorted;
      PrefixSubMultiset(sorted, k);
      Some(sorted[..k])
  }

  /** `findTopGroupA(limit)`. */
  function FindTopGroupA(db: Db, limit: int): (r: Option<seq<TopRow>>)
    ensures r.None? <==> limit < 0
    ensures r.Some? ==> |r.value| <= limit && SortedDescOn(r.value, Total)
  {
    TopOf(db, GroupA, limit)
  }

  /** A ranked row belongs to a stored student who has a non-null score in
      each of the three subjects; its per-subject columns are the largest such
      scores and its total the sum of the student's scores in the three. */
  lemma TopRowsQualify(db: Db, t: Trio, limit: int)
    requires limit >= 0
    ensures forall x :: x in TopOf(db, t, limit).value ==>
      exists row :: row in db.students.rows && Qualifies(db, row.id, t) && x == RowOf(db, row, t)
  {
  }

  /** Nobody left out outranks anybody listed: a qualifying student not in
      the result has a total no higher than every listed one. */
  lemma TopIsTop(db: Db, t: Trio, limit: int)
    requires limit >= 0
    ensures forall c, x :: (c in Candidates(db, db.students.rows, t) && c !in TopOf(db, t, limit).value
                            && x in TopOf(db, t, limit).value) ==> x.totalScore >= c.totalScore
  {
    var cands := Candidates(db, db.students.rows, t);
    var sorted := SortDescOn(cands, Total);
    var k := Min(limit, |sorted|);
    PrefixIsTop(sorted, Total, k);
    SortDescOnMembers(cands, Total);
  }

  // ---- totals under the schema's constraints ------------------------------

  /** A score counted for the trio is counted for exactly one of its codes. */
  lemma {:induction false} TrioSplits(subjects: seq<SubjectRow>, scores: seq<ScoreRow>, id: nat, t: Trio)
    requires t.first != t.second && t.second != t.third && t.first != t.third
    ensures SumOf(ScoresWhere(subjects, scores, id, TrioCodes(t)))
         == SumOf(ScoresWhere(subjects, scores, id, {t.first}))
          + SumOf(ScoresWhere(subjects, scores, id, {t.second}))
          + SumOf(ScoresWhere(subjects, scores, id, {t.third}))
  {
    if |scores| > 0 {
      TrioSplits(subjects, scores[1..], id, t);
      var h := scores[0];
      var tail := scores[1..];
      var head := if Counts(subjects, h, id, TrioCodes(t)) then [h.score.value] else [];
      SumOfAppend(head, ScoresWhere(subjects, tail, id, TrioCodes(t)));
      var h1 := if Counts(subjects, h, id, {t.first}) then [h.score.value] else [];
      var h2 := if Counts(subjects, h, id, {t.second}) then [h.score.value] else [];
      var h3 := if Counts(subjects, h, id, {t.third}) then [h.score.value] else [];
      SumOfAppend(h1, ScoresWhere(subjects, tail, id, {t.first}));
      SumOfAppend(h2, ScoresWhere(subjects, tail, id, {t.second}));
      SumOfAppend(h3, ScoresWhere(subjects, tail, id, {t.third}));
    }
  }

  lemma {:induction false} SumOfAppend(a: seq<real>, b: seq<real>)
    ensures SumOf(a + b) == SumOf(a) + SumOf(b)
  {
    if |a| > 0 {
      assert (a + b)[1..] == a[1..] + b;
      SumOfAppend(a[1..], b);
    } else {
      assert a + b == b;
    }
  }

  /** With unique subject codes and ids and unique (student, subject) pairs,
      a student has at most one score per subject code. */
  lemma {:induction false} OnePerCode(subjects: seq<SubjectRow>, scores: seq<ScoreRow>, id: nat, code: string)
    requires forall i, j :: 0 <= i < j < |subjects| ==> subjects[i].code != subjects[j].code
    requires UniqueScoreKeys(scores)
    ensures |ScoresWhere(subjects, scores, id, {code})| <= 1
  {
    if |scores| > 0 {
      assert UniqueScoreKeys(scores[1..]) by {
        assert forall i :: 0 <= i < |scores[1..]| ==> scores[1..][i] == scores[i + 1];
      }
      OnePerCode(subjects, scores[1..], id, code);
      if Counts(subjects, scores[0], id, {code}) {
        NoLaterCode(subjects, scores, id, code);
      }
    }
  }

  /** After a counted score no later score of the same student has that code. */
  lemma NoLaterCode(subjects: seq<SubjectRow>, scores: seq<ScoreRow>, id: nat, code: string)
    requires |scores| > 0
    requires forall i, j :: 0 <= i < j < |subjects| ==> subjects[i].code != subjects[j].code
    requires UniqueScoreKeys(scores)
    requires Counts(subjects, scores[0], id, {code})
    ensures |ScoresWhere(subjects, scores[1..], id, {code})| == 0
  {
    var rest := scores[1..];
    forall j | 0 <= j < |rest|
      ensures !Counts(subjects, rest[j], id, {code})
    {
      assert rest[j] == scores[j + 1];
      assert ScoreKey(scores[0]) != ScoreKey(scores[j + 1]);
      if rest[j].studentId == id && CodeOf(subjects, rest[j]).Some? {
        var a := ScoreRepository.SubjectById(subjects, scores[0].subjectId).value;
        var b := ScoreRepository.SubjectById(subjects, rest[j].subjectId).value;
        assert a.id != b.id;
        SameCodeSameRow(subjects, a, b);
      }
    }
    NoneCounted(subjects, rest, id, {code});
  }

  lemma SameCodeSameRow(subjects: seq<SubjectRow>, a: SubjectRow, b: SubjectRow)
    requires forall i, j :: 0 <= i < j < |subjects| ==> subjects[i].code != subjects[j].code
    requires a in subjects && b in subjects && a.id != b.id
    ensures a.code != b.code
  {
    var p :| 0 <= p < |subjects| && subjects[p] == a;
    var q :| 0 <= q < |subjects| && subjects[q] == b;
    assert p != q;
  }

  lemma {:induction false} NoneCounted(subjects: seq<SubjectRow>, scores: seq<ScoreRow>, id: nat, codes: set<string>)
    requires forall j :: 0 <= j < |scores| ==> !Counts(subjects, scores[j], id, codes)
    ensures |ScoresWhere(subjects, scores, id, codes)| == 0
  {
    if |scores| > 0 {
      assert forall j :: 0 <= j < |scores[1..]| ==> scores[1..][j] == scores[j + 1];
      NoneCounted(subjects, scores[1..], id, codes);
    }
  }

  /** In a valid store every ranked row has all three subject columns and its
      total is their sum. */
  lemma TopTotalIsSum(db: Db, t: Trio, limit: int)
    requires Valid(db) && limit >= 0
    ensures forall x :: x in TopOf(db, t, limit).value ==>
      x.first.Some? && x.second.Some? && x.third.Some? && x.totalScore == x.first.value + x.second.value + x.third.value
  {
    forall x | x in TopOf(db, t, limit).value
      ensures x.first.Some? && x.second.Some? && x.third.Some?
      ensures x.totalScore == x.first.value + x.second.value + x.third.value
    {
      TopRowsQualify(db, t, limit);
      var row :| row in db.students.rows && Qualifies(db, row.id, t) && x == RowOf(db, row, t);
      Singleton(db, row.id, t.first);
      Singleton(db, row.id, t.second);
      Singleton(db, row.id, t.third);
      TrioSplits(db.subjects.rows, db.scores, row.id, t);
    }
  }

  /** In a valid store a present per-code score list is a single value, which
      is both its maximum and its sum. */
  lemma Singleton(db: Db, id: nat, code: string)
    requires Valid(db) && |CodeScores(db, id, code)| > 0
    ensures MaxOf(CodeScores(db, id, code)) == Some(SumOf(CodeScores(db, id, code)))
  {
    OnePerCode(db.subjects.rows, db.scores, id, code);
    var xs := CodeScores(db, id, code);
    assert xs == [xs[0]];
  }
}
