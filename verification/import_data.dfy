/** The CSV ingestion script (backend/scripts/importData.js): seed the subjects,
    cut the rows into batches, and per batch insert the students, look their
    ids up, and insert one score per non-empty subject cell. The stream, its
    pause/resume and the console are left out; the CSV arrives as a sequence
    of already parsed rows, and `parseFloat` is the parameter `parse`. */
module ImportData {
  import opened Base
  import opened Database
  import SubjectTable

  /** Rows per batch. */
  const BatchSize: nat := 10000

  /** One CSV line after `csv.parse({ headers: true, trim: true })`: the
      registration number and the other cells by header; a header the line
      lacks has no entry (the cell reads as `undefined`). */
  datatype CsvRow = CsvRow(sbd: string, fields: map<string, string>)

  // ---- importSubjects ---------------------------------------------------

  /** `dbSubjects.forEach((s) => (subjectIdMap[s.code] = s.id))`: a later row
      overwrites an earlier one with the same code. */
  function CodeIdMap(rows: seq<SubjectRow>): (m: map<string, nat>)
    ensures forall c :: c in m <==> HasCode(rows, c)
    ensures forall c :: c in m ==> HasSubjectId(rows, m[c])
  {
    if |rows| == 0 then map[]
    else
      var init := rows[..|rows| - 1];
      var m0 := CodeIdMap(init);
      assert forall i :: 0 <= i < |init| ==> init[i] == rows[i];
      assert rows[|rows| - 1].code == rows[|rows| - 1].code;
      m0[rows[|rows| - 1].code := rows[|rows| - 1].id]
  }

  /** With codes unique, the map sends each stored code to that row's id. */
  lemma {:induction false} CodeIdMapSendsCodeToId(rows: seq<SubjectRow>)
    requires forall i, j :: 0 <= i < j < |rows| ==> rows[i].code != rows[j].code
    ensures forall i :: 0 <= i < |rows| ==> CodeIdMap(rows)[rows[i].code] == rows[i].id
  {
    if |rows| > 0 {
      var init := rows[..|rows| - 1];
      CodeIdMapSendsCodeToId(init);
      forall i | 0 <= i < |rows|
        ensures CodeIdMap(rows)[rows[i].code] == rows[i].id
      {
        if i < |rows| - 1 {
          assert init[i] == rows[i];
        }
      }
    }
  }

  datatype SubjectsImported = SubjectsImported(db: Db, subjectIdMap: map<string, nat>)

  /** `importSubjects`: insert the subject list `seed` skipping stored codes,
      reload the table and map every stored code to its id. `Run` passes
      `SubjectTable.Subjects`. */
  function ImportSubjects(db: Db, seed: seq<NewSubject>): (r: SubjectsImported)
    ensures r.db.students == db.students && r.db.scores == db.scores
    ensures |db.subjects.rows| <= |r.db.subjects.rows| && r.db.subjects.rows[..|db.subjects.rows|] == db.subjects.rows
    ensures forall i :: 0 <= i < |seed| ==> HasCode(r.db.subjects.rows, seed[i].code)
    ensures SubjectTableOk(db.subjects) ==> SubjectTableOk(r.db.subjects)
    ensures forall c :: c in r.subjectIdMap <==> HasCode(r.db.subjects.rows, c)
    ensures forall c :: c in r.subjectIdMap ==> HasSubjectId(r.db.subjects.rows, r.subjectIdMap[c])
  {
    var t := CreateManySubjects(db.subjects, seed);
    SubjectsImported(db.(subjects := t), CodeIdMap(t.rows))
  }

  /** With codes unique, the returned map sends every stored code to its id. */
  lemma ImportSubjectsMapsIds(db: Db, seed: seq<NewSubject>)
    requires SubjectTableOk(db.subjects)
    ensures forall i :: 0 <= i < |ImportSubjects(db, seed).db.subjects.rows| ==>
      ImportSubjects(db, seed).subjectIdMap[ImportSubjects(db, seed).db.subjects.rows[i].code]
        == ImportSubjects(db, seed).db.subjects.rows[i].id
  {
    CodeIdMapSendsCodeToId(ImportSubjects(db, seed).db.subjects.rows);
  }

  /** Every CSV column's subject code gets an id, whatever was stored before. */
  lemma ImportSubjectsCoversColumns(db: Db)
    ensures ColumnsMapped(SubjectTable.SubjectMap, ImportSubjects(db, SubjectTable.Subjects).subjectIdMap)
  {
    var r := ImportSubjects(db, SubjectTable.Subjects);
    SubjectTable.SubjectMapAligned();
    forall c | 0 <= c < |SubjectTable.SubjectMap|
      ensures SubjectTable.SubjectMap[c].1 in r.subjectIdMap
    {
      assert HasCode(r.db.subjects.rows, SubjectTable.Subjects[c].code);
    }
  }

  /** Running `importSubjects` again changes nothing and yields the same map. */
  lemma ImportSubjectsIdempotent(db: Db, seed: seq<NewSubject>)
    ensures ImportSubjects(ImportSubjects(db, seed).db, seed) == ImportSubjects(db, seed)
  {
  }

  // ---- importStudents ---------------------------------------------------

  /** `{ sbd: r.sbd, ma_ngoai_ngu: r.ma_ngoai_ngu || null }`. */
  function StudentPayload(row: CsvRow): (x: NewStudent)
    ensures x.sbd == row.sbd
    ensures x.maNgoaiNgu.None? <==> "ma_ngoai_ngu" !in row.fields || row.fields["ma_ngoai_ngu"] == ""
    ensures x.maNgoaiNgu.Some? ==> x.maNgoaiNgu.value == row.fields["ma_ngoai_ngu"]
  {
    if "ma_ngoai_ngu" in row.fields && row.fields["ma_ngoai_ngu"] != "" then
      NewStudent(row.sbd, Some(row.fields["ma_ngoai_ngu"]))
    else
      NewStudent(row.sbd, None)
  }

  function StudentPayloads(rows: seq<CsvRow>): (xs: seq<NewStudent>)
    ensures |xs| == |rows|
    ensures forall i :: 0 <= i < |rows| ==> xs[i] == StudentPayload(rows[i])
  {
    seq(|rows|, i requires 0 <= i < |rows| => StudentPayload(rows[i]))
  }

  function Sbds(rows: seq<CsvRow>): (s: seq<string>)
    ensures |s| == |rows|
    ensures forall i :: 0 <= i < |rows| ==> s[i] == rows[i].sbd
  {
    seq(|rows|, i requires 0 <= i < |rows| => rows[i].sbd)
  }

  /** `student.findMany({ where: { sbd: { in: sbds } } })`, in table order. */
  function FindManyBySbd(rows: seq<StudentRow>, sbds: seq<string>): (r: seq<StudentRow>)
    ensures forall x :: x in r <==> x in rows && x.sbd in sbds
  {
    if |rows| == 0 then []
    else
      var init := rows[..|rows| - 1];
      var last := rows[|rows| - 1];
      assert rows == init + [last];
      FindManyBySbd(init, sbds) + (if last.sbd in sbds then [last] else [])
  }

  /** `students.forEach((s) => (studentIdMap[s.sbd] = s.id))`. */
  function SbdIdMap(found: seq<StudentRow>): map<string, nat>
  {
    if |found| == 0 then map[]
    else SbdIdMap(found[..|found| - 1])[found[|found| - 1].sbd := found[|found| - 1].id]
  }

  /** The id of the last stored row with registration number `sbd` (the only
      one, since `sbd` is unique). */
  function LastIdOf(rows: seq<StudentRow>, sbd: string): nat
    requires HasSbd(rows, sbd)
  {
    var last := rows[|rows| - 1];
    if last.sbd == sbd then last.id
    else
      assert HasSbd(rows[..|rows| - 1], sbd) by {
        var i :| 0 <= i < |rows| && rows[i].sbd == sbd;
        assert rows[..|rows| - 1][i] == rows[i];
      }
      LastIdOf(rows[..|rows| - 1], sbd)
  }

  lemma LastIdOfIsStored(rows: seq<StudentRow>, sbd: string)
    requires HasSbd(rows, sbd)
    ensures exists i :: 0 <= i < |rows| && rows[i].sbd == sbd && rows[i].id == LastIdOf(rows, sbd)
    decreases |rows|
  {
    if rows[|rows| - 1].sbd != sbd {
      var init := rows[..|rows| - 1];
      assert HasSbd(init, sbd) by {
        var i :| 0 <= i < |rows| && rows[i].sbd == sbd;
        assert init[i] == rows[i];
      }
      LastIdOfIsStored(init, sbd);
      var i :| 0 <= i < |init| && init[i].sbd == sbd && init[i].id == LastIdOf(init, sbd);
      assert rows[i] == init[i];
    }
  }

  /** Rows appended for other sbds do not change the id found for `sbd`. */
  lemma {:induction false} LastIdOfExtend(rows: seq<StudentRow>, more: seq<StudentRow>, sbd: string)
    requires HasSbd(rows, sbd)
    requires forall k :: 0 <= k < |more| ==> more[k].sbd != sbd
    ensures HasSbd(rows + more, sbd)
    ensures LastIdOf(rows + more, sbd) == LastIdOf(rows, sbd)
    decreases |more|
  {
    var i :| 0 <= i < |rows| && rows[i].sbd == sbd;
    assert (rows + more)[i] == rows[i];
    if |more| > 0 {
      var init := more[..|more| - 1];
      assert (rows + more)[..|rows + more| - 1] == rows + init;
      LastIdOfExtend(rows, init, sbd);
    } else {
      assert rows + more == rows;
    }
  }

  /** The reloaded map: exactly the stored sbds of the batch, each sent to its id. */
  lemma {:induction false} SbdIdMapOfFound(rows: seq<StudentRow>, sbds: seq<string>)
    ensures forall s :: s in SbdIdMap(FindManyBySbd(rows, sbds)) <==> s in sbds && HasSbd(rows, s)
    ensures forall s :: s in SbdIdMap(FindManyBySbd(rows, sbds)) ==>
      HasSbd(rows, s) && SbdIdMap(FindManyBySbd(rows, sbds))[s] == LastIdOf(rows, s)
    decreases |rows|
  {
    if |rows| > 0 {
      var init := rows[..|rows| - 1];
      var last := rows[|rows| - 1];
      SbdIdMapOfFound(init, sbds);
      var f0 := FindManyBySbd(init, sbds);
      var f := FindManyBySbd(rows, sbds);
      forall s
        ensures HasSbd(rows, s) <==> HasSbd(init, s) || last.sbd == s
      {
        if HasSbd(rows, s) && last.sbd != s {
          var i :| 0 <= i < |rows| && rows[i].sbd == s;
          assert init[i] == rows[i];
        }
        if HasSbd(init, s) {
          var i :| 0 <= i < |init| && init[i].sbd == s;
          assert rows[i] == init[i];
        }
      }
      if last.sbd in sbds {
        assert f == f0 + [last];
        assert f[..|f| - 1] == f0;
        assert SbdIdMap(f) == SbdIdMap(f0)[last.sbd := last.id];
      } else {
        assert f == f0;
      }
    }
  }

  datatype StudentsImported = StudentsImported(db: Db, studentIdMap: map<string, nat>)

  /** `importStudents`: insert the batch's students skipping stored sbds,
      reload them and map each sbd to its id. */
  function ImportStudents(db: Db, rows: seq<CsvRow>): (r: StudentsImported)
    ensures r.db.subjects == db.subjects && r.db.scores == db.scores
    ensures r.db.students == CreateManyStudents(db.students, StudentPayloads(rows))
    ensures forall s :: s in r.studentIdMap <==> s in Sbds(rows)
    ensures forall s :: s in r.studentIdMap ==>
      HasSbd(r.db.students.rows, s) && r.studentIdMap[s] == LastIdOf(r.db.students.rows, s)
  {
    var t := CreateManyStudents(db.students, StudentPayloads(rows));
    var m := SbdIdMap(FindManyBySbd(t.rows, Sbds(rows)));
    SbdIdMapOfFound(t.rows, Sbds(rows));
    assert forall s :: s in Sbds(rows) ==> HasSbd(t.rows, s) by {
      forall s | s in Sbds(rows)
        ensures HasSbd(t.rows, s)
      {
        var i :| 0 <= i < |rows| && Sbds(rows)[i] == s;
        assert StudentPayloads(rows)[i].sbd == s;
      }
    }
    StudentsImported(db.(students := t), m)
  }

  /** Every sbd of the batch is mapped to the id of the stored student with that sbd. */
  lemma ImportStudentsMapsEverySbd(db: Db, rows: seq<CsvRow>)
    ensures var r := ImportStudents(db, rows);
      forall j :: 0 <= j < |rows| ==>
        rows[j].sbd in r.studentIdMap &&
        exists i :: 0 <= i < |r.db.students.rows| && r.db.students.rows[i].sbd == rows[j].sbd
                    && r.db.students.rows[i].id == r.studentIdMap[rows[j].sbd]
  {
    var r := ImportStudents(db, rows);
    forall j | 0 <= j < |rows|
      ensures rows[j].sbd in r.studentIdMap
      ensures exists i :: 0 <= i < |r.db.students.rows| && r.db.students.rows[i].sbd == rows[j].sbd
                          && r.db.students.rows[i].id == r.studentIdMap[rows[j].sbd]
    {
      assert Sbds(rows)[j] == rows[j].sbd;
      LastIdOfIsStored(r.db.students.rows, rows[j].sbd);
    }
  }

  /** `rows[j]` is the first CSV line for the stored row's sbd, and the row's
      language code is that line's cell, or null when the cell is empty. */
  predicate IsSourceRow(rows: seq<CsvRow>, j: int, row: StudentRow)
  {
    && 0 <= j < |rows| && rows[j].sbd == row.sbd
    && (forall j' :: 0 <= j' < j ==> rows[j'].sbd != row.sbd)
    && row.maNgoaiNgu == StudentPayload(rows[j]).maNgoaiNgu
  }

  /** A stored student keeps its row; a new one gets the batch's first record
      for its sbd, with an empty language code stored as null. */
  lemma ImportStudentsSkipsStored(db: Db, rows: seq<CsvRow>)
    ensures var t := ImportStudents(db, rows).db.students;
      && t.rows[..|db.students.rows|] == db.students.rows
      && forall k :: |db.students.rows| <= k < |t.rows| ==>
        && !HasSbd(db.students.rows, t.rows[k].sbd)
        && exists j :: IsSourceRow(rows, j, t.rows[k])
  {
    var xs := StudentPayloads(rows);
    var t := CreateManyStudents(db.students, xs);
    CreateManyStudentsNewRows(db.students, xs);
    forall k | |db.students.rows| <= k < |t.rows|
      ensures exists j :: IsSourceRow(rows, j, t.rows[k])
    {
      var j :| FirstStudentFor(xs, j, t.rows[k]);
      assert xs[j] == StudentPayload(rows[j]);
      assert IsSourceRow(rows, j, t.rows[k]);
    }
  }

  // ---- importScores -----------------------------------------------------

  /** `row[key] !== "" && row[key] != null`. */
  predicate HasValue(row: CsvRow, column: string)
  {
    column in row.fields && row.fields[column] != ""
  }

  /** Every column's subject code has an id. `columns` is the (CSV column,
      subject code) table the loop walks; `Run` passes `SubjectTable.SubjectMap`. */
  predicate ColumnsMapped(columns: seq<(string, string)>, subjectIdMap: map<string, nat>)
  {
    forall c :: 0 <= c < |columns| ==> columns[c].1 in subjectIdMap
  }

  /** The record built for a non-empty cell. */
  function ScoreFor(row: CsvRow, studentId: nat, column: (string, string), subjectIdMap: map<string, nat>,
                    parse: string -> real): (x: ScoreRow)
    requires column.1 in subjectIdMap && HasValue(row, column.0)
    ensures x.studentId == studentId && x.subjectId == subjectIdMap[column.1]
    ensures x.score == Some(parse(row.fields[column.0]))
  {
    ScoreRow(studentId, subjectIdMap[column.1], Some(parse(row.fields[column.0])))
  }

  /** `x` is the record of the non-empty cell in column number `c`. */
  predicate IsCellScore(x: ScoreRow, row: CsvRow, studentId: nat, columns: seq<(string, string)>,
                        subjectIdMap: map<string, nat>, parse: string -> real, c: int)
  {
    && 0 <= c < |columns| && columns[c].1 in subjectIdMap && HasValue(row, columns[c].0)
    && x == ScoreFor(row, studentId, columns[c], subjectIdMap, parse)
  }

  /** The inner `for (const key in SUBJECT_MAP)` loop for one row: one record
      per non-empty cell, in column order. */
  function RowScores(row: CsvRow, studentId: nat, columns: seq<(string, string)>, subjectIdMap: map<string, nat>,
                     parse: string -> real): (r: seq<ScoreRow>)
    requires ColumnsMapped(columns, subjectIdMap)
    ensures |r| <= |columns|
    ensures forall x :: x in r ==> exists c :: IsCellScore(x, row, studentId, columns, subjectIdMap, parse, c)
    ensures forall c :: 0 <= c < |columns| && HasValue(row, columns[c].0) ==>
      ScoreFor(row, studentId, columns[c], subjectIdMap, parse) in r
  {
    if |columns| == 0 then []
    else
      var rest := RowScores(row, studentId, columns[1..], subjectIdMap, parse);
      var here := if HasValue(row, columns[0].0) then [ScoreFor(row, studentId, columns[0], subjectIdMap, parse)] else [];
      assert forall x :: x in here + rest ==> exists c :: IsCellScore(x, row, studentId, columns, subjectIdMap, parse, c) by {
        forall x | x in here + rest
          ensures exists c :: IsCellScore(x, row, studentId, columns, subjectIdMap, parse, c)
        {
          if x in here {
            assert IsCellScore(x, row, studentId, columns, subjectIdMap, parse, 0);
          } else {
            var c :| IsCellScore(x, row, studentId, columns[1..], subjectIdMap, parse, c);
            assert columns[1..][c] == columns[c + 1];
            assert IsCellScore(x, row, studentId, columns, subjectIdMap, parse, c + 1);
          }
        }
      }
      assert forall c :: 1 <= c < |columns| ==> columns[c] == columns[1..][c - 1];
      here + rest
  }

  /** The score records `importScores` builds for a batch, row by row. */
  function BuildScores(rows: seq<CsvRow>, studentIdMap: map<string, nat>, columns: seq<(string, string)>,
                       subjectIdMap: map<string, nat>, parse: string -> real): (r: seq<ScoreRow>)
    requires ColumnsMapped(columns, subjectIdMap)
    requires forall j :: 0 <= j < |rows| ==> rows[j].sbd in studentIdMap
  {
    if |rows| == 0 then []
    else
      RowScores(rows[0], studentIdMap[rows[0].sbd], columns, subjectIdMap, parse)
        + BuildScores(rows[1..], studentIdMap, columns, subjectIdMap, parse)
  }

  /** At most one record per cell. */
  lemma {:induction false} BuildScoresBound(rows: seq<CsvRow>, studentIdMap: map<string, nat>,
                                            columns: seq<(string, string)>, subjectIdMap: map<string, nat>,
                                            parse: string -> real)
    requires ColumnsMapped(columns, subjectIdMap)
    requires forall j :: 0 <= j < |rows| ==> rows[j].sbd in studentIdMap
    ensures |BuildScores(rows, studentIdMap, columns, subjectIdMap, parse)| <= |columns| * |rows|
    decreases |rows|
  {
    if |rows| > 0 {
      BuildScoresBound(rows[1..], studentIdMap, columns, subjectIdMap, parse);
      assert |columns| * |rows| == |columns| + |columns| * (|rows| - 1);
    }
  }

  /** Every record comes from one row of the batch... */
  lemma {:induction false} BuildScoresFromRows(rows: seq<CsvRow>, studentIdMap: map<string, nat>,
                                               columns: seq<(string, string)>, subjectIdMap: map<string, nat>,
                                               parse: string -> real)
    requires ColumnsMapped(columns, subjectIdMap)
    requires forall j :: 0 <= j < |rows| ==> rows[j].sbd in studentIdMap
    ensures forall x :: x in BuildScores(rows, studentIdMap, columns, subjectIdMap, parse) ==>
      exists j :: 0 <= j < |rows| && x in RowScores(rows[j], studentIdMap[rows[j].sbd], columns, subjectIdMap, parse)
    decreases |rows|
  {
    if |rows| > 0 {
      BuildScoresFromRows(rows[1..], studentIdMap, columns, subjectIdMap, parse);
      forall x | x in BuildScores(rows, studentIdMap, columns, subjectIdMap, parse)
        ensures exists j :: 0 <= j < |rows| && x in RowScores(rows[j], studentIdMap[rows[j].sbd], columns, subjectIdMap, parse)
      {
        if x !in RowScores(rows[0], studentIdMap[rows[0].sbd], columns, subjectIdMap, parse) {
          assert x in BuildScores(rows[1..], studentIdMap, columns, subjectIdMap, parse);
          var j :| 0 <= j < |rows[1..]| && x in RowScores(rows[1..][j], studentIdMap[rows[1..][j].sbd], columns, subjectIdMap, parse);
          assert rows[1..][j] == rows[j + 1];
        }
      }
    }
  }

  /** ...and every row's records are among them. */
  lemma {:induction false} BuildScoresCoversRows(rows: seq<CsvRow>, studentIdMap: map<string, nat>,
                                                 columns: seq<(string, string)>, subjectIdMap: map<string, nat>,
                                                 parse: string -> real)
    requires ColumnsMapped(columns, subjectIdMap)
    requires forall j :: 0 <= j < |rows| ==> rows[j].sbd in studentIdMap
    ensures forall j, x :: 0 <= j < |rows| && x in RowScores(rows[j], studentIdMap[rows[j].sbd], columns, subjectIdMap, parse) ==>
      x in BuildScores(rows, studentIdMap, columns, subjectIdMap, parse)
    decreases |rows|
  {
    if |rows| > 0 {
      BuildScoresCoversRows(rows[1..], studentIdMap, columns, subjectIdMap, parse);
      forall j, x | 0 <= j < |rows| && x in RowScores(rows[j], studentIdMap[rows[j].sbd], columns, subjectIdMap, parse)
        ensures x in BuildScores(rows, studentIdMap, columns, subjectIdMap, parse)
      {
        if j > 0 {
          assert rows[1..][j - 1] == rows[j];
        }
      }
    }
  }

  /** A score record exists for a (row, column) cell exactly when the cell is
      non-empty, carrying the row's student id, the column's subject id and
      the parsed cell. */
  lemma BuildScoresSparse(rows: seq<CsvRow>, studentIdMap: map<string, nat>, columns: seq<(string, string)>,
                          subjectIdMap: map<string, nat>, parse: string -> real)
    requires ColumnsMapped(columns, subjectIdMap)
    requires forall j :: 0 <= j < |rows| ==> rows[j].sbd in studentIdMap
    ensures forall x :: x in BuildScores(rows, studentIdMap, columns, subjectIdMap, parse) ==>
      exists j, c :: 0 <= j < |rows| && IsCellScore(x, rows[j], studentIdMap[rows[j].sbd], columns, subjectIdMap, parse, c)
    ensures forall j, c :: 0 <= j < |rows| && 0 <= c < |columns| && HasValue(rows[j], columns[c].0) ==>
      ScoreFor(rows[j], studentIdMap[rows[j].sbd], columns[c], subjectIdMap, parse)
        in BuildScores(rows, studentIdMap, columns, subjectIdMap, parse)
  {
    BuildScoresFromRows(rows, studentIdMap, columns, subjectIdMap, parse);
    BuildScoresCoversRows(rows, studentIdMap, columns, subjectIdMap, parse);
    forall x | x in BuildScores(rows, studentIdMap, columns, subjectIdMap, parse)
      ensures exists j, c :: 0 <= j < |rows| && IsCellScore(x, rows[j], studentIdMap[rows[j].sbd], columns, subjectIdMap, parse, c)
    {
      var j :| 0 <= j < |rows| && x in RowScores(rows[j], studentIdMap[rows[j].sbd], columns, subjectIdMap, parse);
      var c :| IsCellScore(x, rows[j], studentIdMap[rows[j].sbd], columns, subjectIdMap, parse, c);
    }
  }

  /** An empty cell yields no score for that row's subject: when the columns'
      subject ids are distinct, no record of the row carries the column's
      subject id. */
  lemma EmptyCellYieldsNoScore(row: CsvRow, studentId: nat, columns: seq<(string, string)>,
                               subjectIdMap: map<string, nat>, parse: string -> real, c: nat)
    requires ColumnsMapped(columns, subjectIdMap)
    requires forall a, b :: 0 <= a < b < |columns| ==> subjectIdMap[columns[a].1] != subjectIdMap[columns[b].1]
    requires c < |columns| && !HasValue(row, columns[c].0)
    ensures forall x :: x in RowScores(row, studentId, columns, subjectIdMap, parse) ==>
      x.subjectId != subjectIdMap[columns[c].1]
  {
    forall x | x in RowScores(row, studentId, columns, subjectIdMap, parse)
      ensures x.subjectId != subjectIdMap[columns[c].1]
    {
      var c' :| IsCellScore(x, row, studentId, columns, subjectIdMap, parse, c');
      assert c' != c;
    }
  }

  /** `importScores`: build the batch's records and insert them, skipping
      stored `(studentId, subjectId)` pairs. */
  function ImportScores(db: Db, rows: seq<CsvRow>, studentIdMap: map<string, nat>, columns: seq<(string, string)>,
                        subjectIdMap: map<string, nat>, parse: string -> real): (r: Db)
    requires ColumnsMapped(columns, subjectIdMap)
    requires forall j :: 0 <= j < |rows| ==> rows[j].sbd in studentIdMap
    ensures r.subjects == db.subjects && r.students == db.students
    ensures |db.scores| <= |r.scores| && r.scores[..|db.scores|] == db.scores
    ensures forall x :: x in BuildScores(rows, studentIdMap, columns, subjectIdMap, parse) ==> HasScoreKey(r.scores, ScoreKey(x))
  {
    var xs := BuildScores(rows, studentIdMap, columns, subjectIdMap, parse);
    var s := CreateManyScores(db.scores, xs);
    assert forall x :: x in xs ==> HasScoreKey(s, ScoreKey(x)) by {
      forall x | x in xs
        ensures HasScoreKey(s, ScoreKey(x))
      {
        var j :| 0 <= j < |xs| && xs[j] == x;
      }
    }
    db.(scores := s)
  }

  // ---- processBatch and main --------------------------------------------

  /** `processBatch`: students first, then the scores that reference them. */
  function ProcessBatch(db: Db, batch: seq<CsvRow>, columns: seq<(string, string)>, subjectIdMap: map<string, nat>,
                        parse: string -> real): (r: Db)
    requires ColumnsMapped(columns, subjectIdMap)
    ensures r.subjects == db.subjects
    ensures r.students == CreateManyStudents(db.students, StudentPayloads(batch))
  {
    var s := ImportStudents(db, batch);
    assert forall j :: 0 <= j < |batch| ==> batch[j].sbd in s.studentIdMap by {
      forall j | 0 <= j < |batch|
        ensures batch[j].sbd in s.studentIdMap
      {
        assert Sbds(batch)[j] == batch[j].sbd;
      }
    }
    ImportScores(s.db, batch, s.studentIdMap, columns, subjectIdMap, parse)
  }

  /** A batch's scores are the insert of the records built with the
      reloaded ids; students are the batch's insert. */
  lemma ProcessBatchUnfold(db: Db, batch: seq<CsvRow>, columns: seq<(string, string)>,
                           subjectIdMap: map<string, nat>, parse: string -> real)
    requires ColumnsMapped(columns, subjectIdMap)
    ensures forall j :: 0 <= j < |batch| ==> batch[j].sbd in ImportStudents(db, batch).studentIdMap
    ensures ProcessBatch(db, batch, columns, subjectIdMap, parse).students == ImportStudents(db, batch).db.students
    ensures ProcessBatch(db, batch, columns, subjectIdMap, parse).scores
         == CreateManyScores(db.scores, BuildScores(batch, ImportStudents(db, batch).studentIdMap, columns, subjectIdMap, parse))
  {
    var s := ImportStudents(db, batch);
    forall j | 0 <= j < |batch|
      ensures batch[j].sbd in s.studentIdMap
    {
      assert Sbds(batch)[j] == batch[j].sbd;
    }
  }

  /** Sparse storage end to end, forwards: after a batch every non-empty cell
      has a stored score under its row's student id and its column's subject id. */
  lemma ProcessBatchStoresCells(db: Db, batch: seq<CsvRow>, columns: seq<(string, string)>,
                                subjectIdMap: map<string, nat>, parse: string -> real)
    requires ColumnsMapped(columns, subjectIdMap)
    ensures var r := ProcessBatch(db, batch, columns, subjectIdMap, parse);
            forall j, c :: 0 <= j < |batch| && 0 <= c < |columns| && HasValue(batch[j], columns[c].0) ==>
              (HasSbd(r.students.rows, batch[j].sbd) &&
               HasScoreKey(r.scores, (LastIdOf(r.students.rows, batch[j].sbd), subjectIdMap[columns[c].1])))
  {
    ProcessBatchUnfold(db, batch, columns, subjectIdMap, parse);
    var s := ImportStudents(db, batch);
    var m := s.studentIdMap;
    var xs := BuildScores(batch, m, columns, subjectIdMap, parse);
    var r := ProcessBatch(db, batch, columns, subjectIdMap, parse);
    BuildScoresSparse(batch, m, columns, subjectIdMap, parse);
    forall j, c | 0 <= j < |batch| && 0 <= c < |columns| && HasValue(batch[j], columns[c].0)
      ensures HasSbd(r.students.rows, batch[j].sbd)
      ensures HasScoreKey(r.scores, (LastIdOf(r.students.rows, batch[j].sbd), subjectIdMap[columns[c].1]))
    {
      var x := ScoreFor(batch[j], m[batch[j].sbd], columns[c], subjectIdMap, parse);
      assert x in xs;
      var i :| 0 <= i < |xs| && xs[i] == x;
      assert HasScoreKey(r.scores, ScoreKey(xs[i]));
    }
  }

  /** `x` is the record of a non-empty cell of the batch, under the id the
      student table holds for that line's sbd. */
  predicate FromSomeCell(students: seq<StudentRow>, x: ScoreRow, batch: seq<CsvRow>, columns: seq<(string, string)>,
                         subjectIdMap: map<string, nat>, parse: string -> real)
  {
    exists j, c :: (0 <= j < |batch| && 0 <= c < |columns| && HasSbd(students, batch[j].sbd) &&
                    IsCellScore(x, batch[j], LastIdOf(students, batch[j].sbd), columns, subjectIdMap, parse, c))
  }

  /** Sparse storage end to end, backwards: the stored scores keep their
      place, and every score the batch appends is the record of a non-empty
      cell of the batch, so nothing is stored for a cell that is empty in
      every line of its student. */
  lemma ProcessBatchStoresOnlyCells(db: Db, batch: seq<CsvRow>, columns: seq<(string, string)>,
                                    subjectIdMap: map<string, nat>, parse: string -> real)
    requires ColumnsMapped(columns, subjectIdMap)
    ensures var r := ProcessBatch(db, batch, columns, subjectIdMap, parse);
            |db.scores| <= |r.scores| && r.scores[..|db.scores|] == db.scores
    ensures var r := ProcessBatch(db, batch, columns, subjectIdMap, parse);
            forall k :: |db.scores| <= k < |r.scores| ==>
              FromSomeCell(r.students.rows, r.scores[k], batch, columns, subjectIdMap, parse)
  {
    ProcessBatchUnfold(db, batch, columns, subjectIdMap, parse);
    var s := ImportStudents(db, batch);
    var m := s.studentIdMap;
    var xs := BuildScores(batch, m, columns, subjectIdMap, parse);
    var r := ProcessBatch(db, batch, columns, subjectIdMap, parse);
    BuildScoresSparse(batch, m, columns, subjectIdMap, parse);
    CreateManyScoresNewRows(db.scores, xs);
    forall k | |db.scores| <= k < |r.scores|
      ensures FromSomeCell(r.students.rows, r.scores[k], batch, columns, subjectIdMap, parse)
    {
      var i :| FirstScoreFor(xs, i, r.scores[k]);
      assert r.scores[k] in xs;
      var j, c :| 0 <= j < |batch| && IsCellScore(r.scores[k], batch[j], m[batch[j].sbd], columns, subjectIdMap, parse, c);
      assert HasSbd(r.students.rows, batch[j].sbd);
    }
  }

  /** Recovery from a batch whose score insert failed: the store then holds
      the batch's students but not its scores, and processing the same batch
      again ends exactly where an undisturbed batch would have. */
  lemma RetryAfterFailedScores(db: Db, batch: seq<CsvRow>, columns: seq<(string, string)>,
                               subjectIdMap: map<string, nat>, parse: string -> real)
    requires ColumnsMapped(columns, subjectIdMap)
    ensures ProcessBatch(ImportStudents(db, batch).db, batch, columns, subjectIdMap, parse)
         == ProcessBatch(db, batch, columns, subjectIdMap, parse)
  {
    var s1 := ImportStudents(db, batch);
    var s2 := ImportStudents(s1.db, batch);
    assert s2.db.students == s1.db.students;
    assert s2.studentIdMap == s1.studentIdMap;
  }

  function Flatten(batches: seq<seq<CsvRow>>): seq<CsvRow>
  {
    if |batches| == 0 then [] else batches[0] + Flatten(batches[1..])
  }

  /** Batching as `main` does it: a batch is flushed as soon as it holds `n`
      rows, and what is left at the end of the stream, if anything, is
      flushed once more. */
  function Chunk(rows: seq<CsvRow>, n: nat): (batches: seq<seq<CsvRow>>)
    requires n >= 1
    ensures Flatten(batches) == rows
    ensures forall i :: 0 <= i < |batches| ==> 1 <= |batches[i]| <= n
    ensures forall i :: 0 <= i < |batches| - 1 ==> |batches[i]| == n
    decreases |rows|
  {
    if |rows| == 0 then []
    else if |rows| < n then
      assert Flatten([rows]) == rows + Flatten([]);
      [rows]
    else
      var rest := Chunk(rows[n..], n);
      assert Flatten([rows[..n]] + rest) == rows[..n] + Flatten(rest) by {
        assert ([rows[..n]] + rest)[1..] == rest;
      }
      assert rows == rows[..n] + rows[n..];
      [rows[..n]] + rest
  }

  /** The batches processed one after another. */
  function ProcessAll(db: Db, batches: seq<seq<CsvRow>>, columns: seq<(string, string)>, subjectIdMap: map<string, nat>,
                      parse: string -> real): Db
    requires ColumnsMapped(columns, subjectIdMap)
    decreases |batches|
  {
    if |batches| == 0 then db
    else ProcessAll(ProcessBatch(db, batches[0], columns, subjectIdMap, parse), batches[1..], columns, subjectIdMap, parse)
  }

  /** The whole script with batches of `n` rows. */
  function RunWithBatchSize(db: Db, rows: seq<CsvRow>, n: nat, parse: string -> real): Db
    requires n >= 1
  {
    var s := ImportSubjects(db, SubjectTable.Subjects);
    ImportSubjectsCoversColumns(db);
    ProcessAll(s.db, Chunk(rows, n), SubjectTable.SubjectMap, s.subjectIdMap, parse)
  }

  /** `main`. */
  function Run(db: Db, rows: seq<CsvRow>, parse: string -> real): Db
  {
    RunWithBatchSize(db, rows, BatchSize, parse)
  }

  // ---- properties of the pipeline ---------------------------------------

  lemma {:induction false} BuildScoresAppend(a: seq<CsvRow>, b: seq<CsvRow>, m: map<string, nat>,
                                             columns: seq<(string, string)>, subjectIdMap: map<string, nat>,
                                             parse: string -> real)
    requires ColumnsMapped(columns, subjectIdMap)
    requires forall j :: 0 <= j < |a| ==> a[j].sbd in m
    requires forall j :: 0 <= j < |b| ==> b[j].sbd in m
    ensures forall j :: 0 <= j < |a + b| ==> (a + b)[j].sbd in m
    ensures BuildScores(a + b, m, columns, subjectIdMap, parse)
         == BuildScores(a, m, columns, subjectIdMap, parse) + BuildScores(b, m, columns, subjectIdMap, parse)
    decreases |a|
  {
    if |a| > 0 {
      assert (a + b)[1..] == a[1..] + b;
      assert (a + b)[0] == a[0];
      BuildScoresAppend(a[1..], b, m, columns, subjectIdMap, parse);
    } else {
      assert a + b == b;
    }
  }

  /** The records depend on the id map only through the batch's sbds. */
  lemma {:induction false} BuildScoresCongruent(rows: seq<CsvRow>, m1: map<string, nat>, m2: map<string, nat>,
                                                columns: seq<(string, string)>, subjectIdMap: map<string, nat>,
                                                parse: string -> real)
    requires ColumnsMapped(columns, subjectIdMap)
    requires forall j :: 0 <= j < |rows| ==> rows[j].sbd in m1 && rows[j].sbd in m2 && m1[rows[j].sbd] == m2[rows[j].sbd]
    ensures BuildScores(rows, m1, columns, subjectIdMap, parse) == BuildScores(rows, m2, columns, subjectIdMap, parse)
    decreases |rows|
  {
    if |rows| > 0 {
      BuildScoresCongruent(rows[1..], m1, m2, columns, subjectIdMap, parse);
    }
  }

  /** A student found after the first insert keeps its id through the second. */
  lemma StudentIdStable(t: StudentTable, xs: seq<NewStudent>, ys: seq<NewStudent>, sbd: string)
    requires HasSbd(CreateManyStudents(t, xs).rows, sbd)
    ensures HasSbd(CreateManyStudents(CreateManyStudents(t, xs), ys).rows, sbd)
    ensures LastIdOf(CreateManyStudents(CreateManyStudents(t, xs), ys).rows, sbd) == LastIdOf(CreateManyStudents(t, xs).rows, sbd)
  {
    var t1 := CreateManyStudents(t, xs);
    var t2 := CreateManyStudents(t1, ys);
    CreateManyStudentsNewRows(t1, ys);
    var more := t2.rows[|t1.rows|..];
    assert t2.rows == t1.rows + more;
    forall k | 0 <= k < |more|
      ensures more[k].sbd != sbd
    {
      assert more[k] == t2.rows[|t1.rows| + k];
    }
    LastIdOfExtend(t1.rows, more, sbd);
  }

  /** Inserting the students of two batches in turn is inserting both at once. */
  lemma ImportStudentsAppendTable(db: Db, a: seq<CsvRow>, b: seq<CsvRow>)
    ensures CreateManyStudents(CreateManyStudents(db.students, StudentPayloads(a)), StudentPayloads(b))
         == CreateManyStudents(db.students, StudentPayloads(a + b))
  {
    assert StudentPayloads(a + b) == StudentPayloads(a) + StudentPayloads(b) by {
      forall i | 0 <= i < |a + b|
        ensures StudentPayloads(a + b)[i] == (StudentPayloads(a) + StudentPayloads(b))[i]
      {
        if i >= |a| {
          assert (a + b)[i] == b[i - |a|];
        }
      }
    }
    CreateManyStudentsAppend(db.students, StudentPayloads(a), StudentPayloads(b));
  }

  /** The first batch's lookup agrees, on its sbds, with a single lookup over
      both batches. */
  lemma ImportStudentsAppendFirstIds(db: Db, a: seq<CsvRow>, b: seq<CsvRow>)
    ensures forall j :: 0 <= j < |a| ==>
      && a[j].sbd in ImportStudents(db, a).studentIdMap && a[j].sbd in ImportStudents(db, a + b).studentIdMap
      && ImportStudents(db, a).studentIdMap[a[j].sbd] == ImportStudents(db, a + b).studentIdMap[a[j].sbd]
  {
    var xa := StudentPayloads(a);
    var xb := StudentPayloads(b);
    ImportStudentsAppendTable(db, a, b);
    var sa := ImportStudents(db, a);
    var sab := ImportStudents(db, a + b);
    forall j | 0 <= j < |a|
      ensures a[j].sbd in sa.studentIdMap && a[j].sbd in sab.studentIdMap
      ensures sa.studentIdMap[a[j].sbd] == sab.studentIdMap[a[j].sbd]
    {
      assert Sbds(a)[j] == a[j].sbd && Sbds(a + b)[j] == a[j].sbd;
      StudentIdStable(db.students, xa, xb, a[j].sbd);
    }
  }

  /** Two lookups over the same stored table return the same id for an sbd
      both batches contain. */
  lemma SameTableSameId(db1: Db, rows1: seq<CsvRow>, db2: Db, rows2: seq<CsvRow>, sbd: string)
    requires ImportStudents(db1, rows1).db.students == ImportStudents(db2, rows2).db.students
    requires sbd in Sbds(rows1) && sbd in Sbds(rows2)
    ensures sbd in ImportStudents(db1, rows1).studentIdMap && sbd in ImportStudents(db2, rows2).studentIdMap
    ensures ImportStudents(db1, rows1).studentIdMap[sbd] == ImportStudents(db2, rows2).studentIdMap[sbd]
  {
  }

  /** The second batch's lookup, made after the first batch is stored, agrees
      on its sbds with a single lookup over both batches. */
  lemma ImportStudentsAppendSecondIds(db: Db, a: seq<CsvRow>, b: seq<CsvRow>, db2: Db)
    requires db2.students == ImportStudents(db, a).db.students
    ensures ImportStudents(db2, b).db.students == ImportStudents(db, a + b).db.students
    ensures forall j :: 0 <= j < |b| ==>
      && b[j].sbd in ImportStudents(db2, b).studentIdMap && b[j].sbd in ImportStudents(db, a + b).studentIdMap
      && ImportStudents(db2, b).studentIdMap[b[j].sbd] == ImportStudents(db, a + b).studentIdMap[b[j].sbd]
  {
    var t1 := CreateManyStudents(db.students, StudentPayloads(a));
    assert db2.students == t1;
    ImportStudentsAppendTable(db, a, b);
    assert CreateManyStudents(t1, StudentPayloads(b)) == CreateManyStudents(db.students, StudentPayloads(a + b));
    forall j | 0 <= j < |b|
      ensures b[j].sbd in ImportStudents(db2, b).studentIdMap && b[j].sbd in ImportStudents(db, a + b).studentIdMap
      ensures ImportStudents(db2, b).studentIdMap[b[j].sbd] == ImportStudents(db, a + b).studentIdMap[b[j].sbd]
    {
      assert (a + b)[|a| + j] == b[j];
      assert Sbds(b)[j] == b[j].sbd && Sbds(a + b)[|a| + j] == b[j].sbd;
      SameTableSameId(db2, b, db, a + b, b[j].sbd);
    }
  }

  /** Processing two batches in turn is processing their concatenation. */
  lemma ProcessBatchAppend(db: Db, a: seq<CsvRow>, b: seq<CsvRow>, columns: seq<(string, string)>,
                           subjectIdMap: map<string, nat>, parse: string -> real)
    requires ColumnsMapped(columns, subjectIdMap)
    ensures ProcessBatch(ProcessBatch(db, a, columns, subjectIdMap, parse), b, columns, subjectIdMap, parse)
         == ProcessBatch(db, a + b, columns, subjectIdMap, parse)
  {
    var sa := ImportStudents(db, a);
    var da := ProcessBatch(db, a, columns, subjectIdMap, parse);
    var sb := ImportStudents(da, b);
    var sab := ImportStudents(db, a + b);
    ImportStudentsAppendFirstIds(db, a, b);
    ImportStudentsAppendSecondIds(db, a, b, da);
    BuildScoresCongruent(a, sa.studentIdMap, sab.studentIdMap, columns, subjectIdMap, parse);
    BuildScoresCongruent(b, sb.studentIdMap, sab.studentIdMap, columns, subjectIdMap, parse);
    BuildScoresAppend(a, b, sab.studentIdMap, columns, subjectIdMap, parse);
    var xa := BuildScores(a, sab.studentIdMap, columns, subjectIdMap, parse);
    var xb := BuildScores(b, sab.studentIdMap, columns, subjectIdMap, parse);
    CreateManyScoresAppend(db.scores, xa, xb);
  }

  /** Processing batch after batch equals processing all their rows at once. */
  lemma {:induction false} ProcessAllIsOneBatch(db: Db, batches: seq<seq<CsvRow>>, columns: seq<(string, string)>,
                                                subjectIdMap: map<string, nat>, parse: string -> real)
    requires ColumnsMapped(columns, subjectIdMap)
    ensures ProcessAll(db, batches, columns, subjectIdMap, parse) == ProcessBatch(db, Flatten(batches), columns, subjectIdMap, parse)
    decreases |batches|
  {
    if |batches| == 0 {
      assert ProcessBatch(db, [], columns, subjectIdMap, parse) == db;
    } else {
      var d1 := ProcessBatch(db, batches[0], columns, subjectIdMap, parse);
      ProcessAllIsOneBatch(d1, batches[1..], columns, subjectIdMap, parse);
      ProcessBatchAppend(db, batches[0], Flatten(batches[1..]), columns, subjectIdMap, parse);
    }
  }

  /** The final tables do not depend on the batch size: every run equals one
      batch holding the whole file. */
  lemma BatchSizeInvariance(db: Db, rows: seq<CsvRow>, n1: nat, n2: nat, parse: string -> real)
    requires n1 >= 1 && n2 >= 1
    ensures ColumnsMapped(SubjectTable.SubjectMap, ImportSubjects(db, SubjectTable.Subjects).subjectIdMap)
    ensures RunWithBatchSize(db, rows, n1, parse)
         == ProcessBatch(ImportSubjects(db, SubjectTable.Subjects).db, rows, SubjectTable.SubjectMap, ImportSubjects(db, SubjectTable.Subjects).subjectIdMap, parse)
    ensures RunWithBatchSize(db, rows, n1, parse) == RunWithBatchSize(db, rows, n2, parse)
  {
    var s := ImportSubjects(db, SubjectTable.Subjects);
    ImportSubjectsCoversColumns(db);
    ProcessAllIsOneBatch(s.db, Chunk(rows, n1), SubjectTable.SubjectMap, s.subjectIdMap, parse);
    ProcessAllIsOneBatch(s.db, Chunk(rows, n2), SubjectTable.SubjectMap, s.subjectIdMap, parse);
  }

  /** Re-processing a batch changes nothing. */
  lemma ProcessBatchIdempotent(db: Db, batch: seq<CsvRow>, columns: seq<(string, string)>,
                               subjectIdMap: map<string, nat>, parse: string -> real)
    requires ColumnsMapped(columns, subjectIdMap)
    ensures ProcessBatch(ProcessBatch(db, batch, columns, subjectIdMap, parse), batch, columns, subjectIdMap, parse)
         == ProcessBatch(db, batch, columns, subjectIdMap, parse)
  {
    var s1 := ImportStudents(db, batch);
    var d1 := ProcessBatch(db, batch, columns, subjectIdMap, parse);
    var s2 := ImportStudents(d1, batch);
    assert s2.db.students == d1.students;
    assert s2.studentIdMap == s1.studentIdMap;
  }

  /** Running the whole script twice over the same file leaves the store as
      one run left it. */
  lemma RunIdempotent(db: Db, rows: seq<CsvRow>, parse: string -> real)
    ensures Run(Run(db, rows, parse), rows, parse) == Run(db, rows, parse)
  {
    var s := ImportSubjects(db, SubjectTable.Subjects);
    BatchSizeInvariance(db, rows, BatchSize, BatchSize, parse);
    var x := Run(db, rows, parse);
    assert ImportSubjects(x, SubjectTable.Subjects) == SubjectsImported(x, s.subjectIdMap);
    BatchSizeInvariance(x, rows, BatchSize, BatchSize, parse);
    ProcessBatchIdempotent(s.db, rows, SubjectTable.SubjectMap, s.subjectIdMap, parse);
  }

  // ---- referential integrity --------------------------------------------

  /** Every column's subject id names a stored subject. */
  predicate ColumnsStored(columns: seq<(string, string)>, subjectIdMap: map<string, nat>, subjects: seq<SubjectRow>)
  {
    forall c :: 0 <= c < |columns| ==> columns[c].1 in subjectIdMap && HasSubjectId(subjects, subjectIdMap[columns[c].1])
  }

  /** Students are inserted before the scores are built, so each emitted
      record names a stored student and a stored subject. */
  lemma EmittedScoresReferenceStored(db: Db, batch: seq<CsvRow>, columns: seq<(string, string)>,
                                     subjectIdMap: map<string, nat>, parse: string -> real)
    requires ColumnsStored(columns, subjectIdMap, db.subjects.rows)
    ensures ColumnsMapped(columns, subjectIdMap)
    ensures forall j :: 0 <= j < |batch| ==> batch[j].sbd in ImportStudents(db, batch).studentIdMap
    ensures forall x :: x in BuildScores(batch, ImportStudents(db, batch).studentIdMap, columns, subjectIdMap, parse) ==>
      HasStudentId(ImportStudents(db, batch).db.students.rows, x.studentId) && HasSubjectId(db.subjects.rows, x.subjectId)
  {
    var s := ImportStudents(db, batch);
    forall j | 0 <= j < |batch|
      ensures batch[j].sbd in s.studentIdMap
    {
      assert Sbds(batch)[j] == batch[j].sbd;
    }
    BuildScoresSparse(batch, s.studentIdMap, columns, subjectIdMap, parse);
    forall x | x in BuildScores(batch, s.studentIdMap, columns, subjectIdMap, parse)
      ensures HasStudentId(s.db.students.rows, x.studentId) && HasSubjectId(db.subjects.rows, x.subjectId)
    {
      var j, c :| 0 <= j < |batch| && IsCellScore(x, batch[j], s.studentIdMap[batch[j].sbd], columns, subjectIdMap, parse, c);
      LastIdOfIsStored(s.db.students.rows, batch[j].sbd);
    }
  }

  /** Processing a batch keeps every unique index and foreign key of the schema. */
  lemma ProcessBatchKeepsValid(db: Db, batch: seq<CsvRow>, columns: seq<(string, string)>,
                               subjectIdMap: map<string, nat>, parse: string -> real)
    requires Valid(db) && ColumnsStored(columns, subjectIdMap, db.subjects.rows)
    ensures ColumnsMapped(columns, subjectIdMap)
    ensures Valid(ProcessBatch(db, batch, columns, subjectIdMap, parse))
  {
    EmittedScoresReferenceStored(db, batch, columns, subjectIdMap, parse);
    var s := ImportStudents(db, batch);
    var xs := BuildScores(batch, s.studentIdMap, columns, subjectIdMap, parse);
    var r := ProcessBatch(db, batch, columns, subjectIdMap, parse);
    assert r.scores == CreateManyScores(db.scores, xs);
    CreateManyStudentsOk(db.students, StudentPayloads(batch));
    CreateManyScoresUnique(db.scores, xs);
    CreateManyScoresNewRows(db.scores, xs);
    forall i | 0 <= i < |r.scores|
      ensures HasStudentId(r.students.rows, r.scores[i].studentId)
      ensures HasSubjectId(r.subjects.rows, r.scores[i].subjectId)
    {
      if i < |db.scores| {
        assert r.scores[i] == db.scores[i];
        HasSbdGrows(db.students.rows, r.students.rows, "");
      } else {
        var j :| FirstScoreFor(xs, j, r.scores[i]);
        assert xs[j] in xs;
      }
    }
  }

  /** Seeding subjects keeps the schema valid. */
  lemma ImportSubjectsKeepsValid(db: Db, seed: seq<NewSubject>)
    requires Valid(db)
    ensures Valid(ImportSubjects(db, seed).db)
  {
    var r := ImportSubjects(db, seed);
    forall i | 0 <= i < |r.db.scores|
      ensures HasSubjectId(r.db.subjects.rows, r.db.scores[i].subjectId)
    {
      var k :| 0 <= k < |db.subjects.rows| && db.subjects.rows[k].id == db.scores[i].subjectId;
      assert r.db.subjects.rows[k] == r.db.subjects.rows[..|db.subjects.rows|][k];
    }
  }

  /** After seeding, every CSV column maps to a stored subject. */
  lemma ImportSubjectsStoresColumns(db: Db)
    ensures ColumnsStored(SubjectTable.SubjectMap, ImportSubjects(db, SubjectTable.Subjects).subjectIdMap,
                          ImportSubjects(db, SubjectTable.Subjects).db.subjects.rows)
  {
    ImportSubjectsCoversColumns(db);
  }

  /** A whole run over a valid store leaves it valid: every stored score
      references a stored student and subject, and all keys stay unique. */
  lemma RunKeepsValid(db: Db, rows: seq<CsvRow>, parse: string -> real)
    requires Valid(db)
    ensures Valid(Run(db, rows, parse))
  {
    var s := ImportSubjects(db, SubjectTable.Subjects);
    ImportSubjectsKeepsValid(db, SubjectTable.Subjects);
    ImportSubjectsStoresColumns(db);
    BatchSizeInvariance(db, rows, BatchSize, BatchSize, parse);
    ProcessBatchKeepsValid(s.db, rows, SubjectTable.SubjectMap, s.subjectIdMap, parse);
  }
}
