/** The persistent store as the import script and the repositories see it:
    three tables with their unique keys, surrogate ids handed out by a
    per-table counter, and Prisma's `createMany({ skipDuplicates: true })`
    as insert-if-absent applied record by record (the first record for a key
    wins, later ones and already stored keys are skipped). */
module Database {
  import opened Base

  datatype SubjectRow = SubjectRow(id: nat, code: string, name: string)
  datatype StudentRow = StudentRow(id: nat, sbd: string, maNgoaiNgu: Option<string>)
  /** A score references its student and subject by id; `None` is SQL NULL. */
  datatype ScoreRow = ScoreRow(studentId: nat, subjectId: nat, score: Option<real>)

  /** Insert payloads: what `createMany` receives before ids exist. */
  datatype NewSubject = NewSubject(code: string, name: string)
  datatype NewStudent = NewStudent(sbd: string, maNgoaiNgu: Option<string>)

  datatype SubjectTable = SubjectTable(rows: seq<SubjectRow>, nextId: nat)
  datatype StudentTable = StudentTable(rows: seq<StudentRow>, nextId: nat)
  datatype Db = Db(subjects: SubjectTable, students: StudentTable, scores: seq<ScoreRow>)

  const EmptyDb := Db(SubjectTable([], 1), StudentTable([], 1), [])

  // ---- keys and lookups -------------------------------------------------

  predicate HasCode(rows: seq<SubjectRow>, code: string)
  {
    exists i :: 0 <= i < |rows| && rows[i].code == code
  }

  predicate HasSubjectId(rows: seq<SubjectRow>, id: nat)
  {
    exists i :: 0 <= i < |rows| && rows[i].id == id
  }

  predicate HasSbd(rows: seq<StudentRow>, sbd: string)
  {
    exists i :: 0 <= i < |rows| && rows[i].sbd == sbd
  }

  predicate HasStudentId(rows: seq<StudentRow>, id: nat)
  {
    exists i :: 0 <= i < |rows| && rows[i].id == id
  }

  function ScoreKey(r: ScoreRow): (nat, nat)
  {
    (r.studentId, r.subjectId)
  }

  predicate HasScoreKey(rows: seq<ScoreRow>, key: (nat, nat))
  {
    exists i :: 0 <= i < |rows| && ScoreKey(rows[i]) == key
  }

  // ---- integrity constraints of the schema --------------------------------

  predicate SubjectTableOk(t: SubjectTable)
  {
    && (forall i, j :: 0 <= i < j < |t.rows| ==> t.rows[i].code != t.rows[j].code)
    && (forall i, j :: 0 <= i < j < |t.rows| ==> t.rows[i].id != t.rows[j].id)
    && (forall i :: 0 <= i < |t.rows| ==> t.rows[i].id < t.nextId)
  }

  predicate StudentTableOk(t: StudentTable)
  {
    && (forall i, j :: 0 <= i < j < |t.rows| ==> t.rows[i].sbd != t.rows[j].sbd)
    && (forall i, j :: 0 <= i < j < |t.rows| ==> t.rows[i].id != t.rows[j].id)
    && (forall i :: 0 <= i < |t.rows| ==> t.rows[i].id < t.nextId)
  }

  predicate UniqueScoreKeys(rows: seq<ScoreRow>)
  {
    forall i, j :: 0 <= i < j < |rows| ==> ScoreKey(rows[i]) != ScoreKey(rows[j])
  }

  /** Every score references a stored student and a stored subject. */
  predicate Referential(db: Db)
  {
    forall i :: 0 <= i < |db.scores| ==>
      HasStudentId(db.students.rows, db.scores[i].studentId) && HasSubjectId(db.subjects.rows, db.scores[i].subjectId)
  }

  /** The unique indexes and foreign keys of the schema. */
  predicate Valid(db: Db)
  {
    SubjectTableOk(db.subjects) && StudentTableOk(db.students) && UniqueScoreKeys(db.scores) && Referential(db)
  }

  // ---- createMany({ skipDuplicates: true }) -----------------------------

  function InsertSubject(t: SubjectTable, x: NewSubject): SubjectTable
  {
    if HasCode(t.rows, x.code) then t
    else SubjectTable(t.rows + [SubjectRow(t.nextId, x.code, x.name)], t.nextId + 1)
  }

  /** `subject.createMany({ data, skipDuplicates: true })`. */
  function CreateManySubjects(t: SubjectTable, xs: seq<NewSubject>): (r: SubjectTable)
    ensures |t.rows| <= |r.rows| && r.rows[..|t.rows|] == t.rows
    ensures forall j :: 0 <= j < |xs| ==> HasCode(r.rows, xs[j].code)
    ensures SubjectTableOk(t) ==> SubjectTableOk(r)
    ensures (forall j :: 0 <= j < |xs| ==> HasCode(t.rows, xs[j].code)) ==> r == t
    decreases |xs|
  {
    if |xs| == 0 then t
    else
      var t1 := InsertSubject(t, xs[0]);
      var r := CreateManySubjects(t1, xs[1..]);
      assert HasCode(t1.rows, xs[0].code) by {
        if !HasCode(t.rows, xs[0].code) {
          assert t1.rows[|t.rows|].code == xs[0].code;
        }
      }
      assert HasCode(r.rows, xs[0].code) by {
        var i :| 0 <= i < |t1.rows| && t1.rows[i].code == xs[0].code;
        assert r.rows[i] == r.rows[..|t1.rows|][i];
      }
      assert forall j :: 1 <= j < |xs| ==> HasCode(r.rows, xs[j].code) by {
        forall j | 1 <= j < |xs|
          ensures HasCode(r.rows, xs[j].code)
        {
          assert xs[j] == xs[1..][j - 1];
        }
      }
      assert SubjectTableOk(t) ==> SubjectTableOk(t1);
      r
  }

  function InsertStudent(t: StudentTable, x: NewStudent): StudentTable
  {
    if HasSbd(t.rows, x.sbd) then t
    else StudentTable(t.rows + [StudentRow(t.nextId, x.sbd, x.maNgoaiNgu)], t.nextId + 1)
  }

  /** `xs[j]` is the first payload for `row`'s sbd and carries its values. */
  predicate FirstStudentFor(xs: seq<NewStudent>, j: int, row: StudentRow)
  {
    && 0 <= j < |xs|
    && xs[j].sbd == row.sbd && xs[j].maNgoaiNgu == row.maNgoaiNgu
    && forall j' :: 0 <= j' < j ==> xs[j'].sbd != row.sbd
  }

  /** `student.createMany({ data, skipDuplicates: true })`. */
  function CreateManyStudents(t: StudentTable, xs: seq<NewStudent>): (r: StudentTable)
    ensures |t.rows| <= |r.rows| && r.rows[..|t.rows|] == t.rows
    ensures t.nextId <= r.nextId
    ensures forall j :: 0 <= j < |xs| ==> HasSbd(r.rows, xs[j].sbd)
    ensures (forall j :: 0 <= j < |xs| ==> HasSbd(t.rows, xs[j].sbd)) ==> r == t
    decreases |xs|
  {
    if |xs| == 0 then t
    else
      var t1 := InsertStudent(t, xs[0]);
      var r := CreateManyStudents(t1, xs[1..]);
      assert HasSbd(t1.rows, xs[0].sbd) by {
        if !HasSbd(t.rows, xs[0].sbd) {
          assert t1.rows[|t.rows|].sbd == xs[0].sbd;
        }
      }
      assert HasSbd(r.rows, xs[0].sbd) by {
        var i :| 0 <= i < |t1.rows| && t1.rows[i].sbd == xs[0].sbd;
        assert r.rows[i] == r.rows[..|t1.rows|][i];
      }
      assert forall j :: 1 <= j < |xs| ==> HasSbd(r.rows, xs[j].sbd) by {
        forall j | 1 <= j < |xs|
          ensures HasSbd(r.rows, xs[j].sbd)
        {
          assert xs[j] == xs[1..][j - 1];
        }
      }
      assert r.rows[..|t.rows|] == t.rows by {
        assert r.rows[..|t.rows|] == r.rows[..|t1.rows|][..|t.rows|];
      }
      r
  }

  /** Rows the insert adds are for sbds not stored before, take fresh ids,
      and carry the values of the first payload with their sbd. */
  lemma {:induction false} CreateManyStudentsNewRows(t: StudentTable, xs: seq<NewStudent>)
    ensures forall k :: |t.rows| <= k < |CreateManyStudents(t, xs).rows| ==>
      && !HasSbd(t.rows, CreateManyStudents(t, xs).rows[k].sbd)
      && t.nextId <= CreateManyStudents(t, xs).rows[k].id < CreateManyStudents(t, xs).nextId
      && exists j :: FirstStudentFor(xs, j, CreateManyStudents(t, xs).rows[k])
    decreases |xs|
  {
    if |xs| > 0 {
      var t1 := InsertStudent(t, xs[0]);
      var r := CreateManyStudents(t1, xs[1..]);
      assert r == CreateManyStudents(t, xs);
      CreateManyStudentsNewRows(t1, xs[1..]);
      forall k | |t.rows| <= k < |r.rows|
        ensures !HasSbd(t.rows, r.rows[k].sbd)
        ensures t.nextId <= r.rows[k].id < r.nextId
        ensures exists j :: FirstStudentFor(xs, j, r.rows[k])
      {
        if k >= |t1.rows| {
          var j :| FirstStudentFor(xs[1..], j, r.rows[k]);
          assert HasSbd(t1.rows, xs[0].sbd) by {
            if !HasSbd(t.rows, xs[0].sbd) {
              assert t1.rows[|t.rows|].sbd == xs[0].sbd;
            }
          }
          assert xs[0].sbd != r.rows[k].sbd;
          assert FirstStudentFor(xs, j + 1, r.rows[k]);
        } else {
          assert t1 != t;
          assert r.rows[k] == r.rows[..|t1.rows|][k] == t1.rows[k];
          assert FirstStudentFor(xs, 0, r.rows[k]);
        }
      }
    }
  }

  /** The insert keeps sbds unique and ids unique and below the counter. */
  lemma {:induction false} CreateManyStudentsOk(t: StudentTable, xs: seq<NewStudent>)
    requires StudentTableOk(t)
    ensures StudentTableOk(CreateManyStudents(t, xs))
    decreases |xs|
  {
    if |xs| > 0 {
      var t1 := InsertStudent(t, xs[0]);
      assert StudentTableOk(t1);
      CreateManyStudentsOk(t1, xs[1..]);
    }
  }

  function InsertScore(rows: seq<ScoreRow>, x: ScoreRow): seq<ScoreRow>
  {
    if HasScoreKey(rows, ScoreKey(x)) then rows else rows + [x]
  }

  /** `xs[j]` is the first payload with `row`'s key, and `row` is that payload. */
  predicate FirstScoreFor(xs: seq<ScoreRow>, j: int, row: ScoreRow)
  {
    && 0 <= j < |xs|
    && xs[j] == row
    && forall j' :: 0 <= j' < j ==> ScoreKey(xs[j']) != ScoreKey(row)
  }

  /** `score.createMany({ data, skipDuplicates: true })`, unique on
      `(studentId, subjectId)`. */
  function CreateManyScores(rows: seq<ScoreRow>, xs: seq<ScoreRow>): (r: seq<ScoreRow>)
    ensures |rows| <= |r| && r[..|rows|] == rows
    ensures forall j :: 0 <= j < |xs| ==> HasScoreKey(r, ScoreKey(xs[j]))
    ensures (forall j :: 0 <= j < |xs| ==> HasScoreKey(rows, ScoreKey(xs[j]))) ==> r == rows
    decreases |xs|
  {
    if |xs| == 0 then rows
    else
      var r1 := InsertScore(rows, xs[0]);
      var r := CreateManyScores(r1, xs[1..]);
      assert HasScoreKey(r1, ScoreKey(xs[0])) by {
        if !HasScoreKey(rows, ScoreKey(xs[0])) {
          assert r1[|rows|] == xs[0];
        }
      }
      assert HasScoreKey(r, ScoreKey(xs[0])) by {
        var i :| 0 <= i < |r1| && ScoreKey(r1[i]) == ScoreKey(xs[0]);
        assert r[i] == r[..|r1|][i];
      }
      assert forall j :: 1 <= j < |xs| ==> HasScoreKey(r, ScoreKey(xs[j])) by {
        forall j | 1 <= j < |xs|
          ensures HasScoreKey(r, ScoreKey(xs[j]))
        {
          assert xs[j] == xs[1..][j - 1];
        }
      }
      assert r[..|rows|] == rows by {
        assert r[..|rows|] == r[..|r1|][..|rows|];
      }
      r
  }

  /** Rows the insert adds have keys not stored before and are the first
      payload with their key. */
  lemma {:induction false} CreateManyScoresNewRows(rows: seq<ScoreRow>, xs: seq<ScoreRow>)
    ensures forall k :: |rows| <= k < |CreateManyScores(rows, xs)| ==>
      && !HasScoreKey(rows, ScoreKey(CreateManyScores(rows, xs)[k]))
      && exists j :: FirstScoreFor(xs, j, CreateManyScores(rows, xs)[k])
    decreases |xs|
  {
    if |xs| > 0 {
      var r1 := InsertScore(rows, xs[0]);
      var r := CreateManyScores(r1, xs[1..]);
      assert r == CreateManyScores(rows, xs);
      CreateManyScoresNewRows(r1, xs[1..]);
      forall k | |rows| <= k < |r|
        ensures !HasScoreKey(rows, ScoreKey(r[k]))
        ensures exists j :: FirstScoreFor(xs, j, r[k])
      {
        if k >= |r1| {
          var j :| FirstScoreFor(xs[1..], j, r[k]);
          assert HasScoreKey(r1, ScoreKey(xs[0])) by {
            if !HasScoreKey(rows, ScoreKey(xs[0])) {
              assert r1[|rows|] == xs[0];
            }
          }
          assert ScoreKey(xs[0]) != ScoreKey(r[k]);
          assert FirstScoreFor(xs, j + 1, r[k]);
        } else {
          assert r1 != rows;
          assert r[k] == r[..|r1|][k] == r1[k];
          assert FirstScoreFor(xs, 0, r[k]);
        }
      }
    }
  }

  /** The insert keeps `(studentId, subjectId)` unique. */
  lemma {:induction false} CreateManyScoresUnique(rows: seq<ScoreRow>, xs: seq<ScoreRow>)
    requires UniqueScoreKeys(rows)
    ensures UniqueScoreKeys(CreateManyScores(rows, xs))
    decreases |xs|
  {
    if |xs| > 0 {
      var r1 := InsertScore(rows, xs[0]);
      assert UniqueScoreKeys(r1);
      CreateManyScoresUnique(r1, xs[1..]);
    }
  }

  /** Inserting two lists one after the other is inserting their concatenation. */
  lemma {:induction false} CreateManyStudentsAppend(t: StudentTable, a: seq<NewStudent>, b: seq<NewStudent>)
    ensures CreateManyStudents(CreateManyStudents(t, a), b) == CreateManyStudents(t, a + b)
    decreases |a|
  {
    if |a| > 0 {
      assert (a + b)[1..] == a[1..] + b;
      assert (a + b)[0] == a[0];
      CreateManyStudentsAppend(InsertStudent(t, a[0]), a[1..], b);
    } else {
      assert a + b == b;
    }
  }

  lemma {:induction false} CreateManyScoresAppend(rows: seq<ScoreRow>, a: seq<ScoreRow>, b: seq<ScoreRow>)
    ensures CreateManyScores(CreateManyScores(rows, a), b) == CreateManyScores(rows, a + b)
    decreases |a|
  {
    if |a| > 0 {
      assert (a + b)[1..] == a[1..] + b;
      assert (a + b)[0] == a[0];
      CreateManyScoresAppend(InsertScore(rows, a[0]), a[1..], b);
    } else {
      assert a + b == b;
    }
  }

  /** A row of a prefix is a row of the whole table. */
  lemma HasSbdGrows(rows: seq<StudentRow>, more: seq<StudentRow>, sbd: string)
    requires |rows| <= |more| && more[..|rows|] == rows
    ensures HasSbd(rows, sbd) ==> HasSbd(more, sbd)
    ensures forall id :: HasStudentId(rows, id) ==> HasStudentId(more, id)
  {
    if HasSbd(rows, sbd) {
      var i :| 0 <= i < |rows| && rows[i].sbd == sbd;
      assert more[i] == more[..|rows|][i];
    }
    forall id | HasStudentId(rows, id)
      ensures HasStudentId(more, id)
    {
      var i :| 0 <= i < |rows| && rows[i].id == id;
      assert more[i] == more[..|rows|][i];
    }
  }
}
