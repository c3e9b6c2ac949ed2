/** The immutable `Student` entity (backend/src/students/entities/student.entity.ts). */
module StudentEntity {
  import opened Base
  import ScoreEntity

  datatype Student = Student(id: int, sbd: string, maNgoaiNgu: Option<string>, scores: seq<ScoreEntity.Score>)

  datatype StudentDto = StudentDto(sbd: string, maNgoaiNgu: Option<string>, scores: seq<ScoreEntity.ScoreDto>)

  /** The record the repository selects; `scores` is `None` when the query
      did not ask for them. */
  datatype StudentData = StudentData(id: int, sbd: string, maNgoaiNgu: Option<string>,
                                     scores: Option<seq<ScoreEntity.ScoreData>>)

  function LoadScores(ds: seq<ScoreEntity.ScoreData>): (r: seq<ScoreEntity.Score>)
    ensures |r| == |ds|
    ensures forall i :: 0 <= i < |ds| ==> r[i] == ScoreEntity.FromDatabase(ds[i])
    ensures forall s :: s in r <==> exists d :: d in ds && s == ScoreEntity.FromDatabase(d)
  {
    var r := seq(|ds|, i requires 0 <= i < |ds| => ScoreEntity.FromDatabase(ds[i]));
    assert forall s :: s in r ==> exists d :: d in ds && s == ScoreEntity.FromDatabase(d) by {
      forall s | s in r
        ensures exists d :: d in ds && s == ScoreEntity.FromDatabase(d)
      {
        var k :| 0 <= k < |r| && r[k] == s;
        assert ds[k] in ds;
      }
    }
    assert forall d :: d in ds ==> ScoreEntity.FromDatabase(d) in r by {
      forall d | d in ds
        ensures ScoreEntity.FromDatabase(d) in r
      {
        var k :| 0 <= k < |ds| && ds[k] == d;
        assert r[k] == ScoreEntity.FromDatabase(d);
      }
    }
    r
  }

  /** Loading a reordering of the records gives the same reordering of the
      scores: each score is loaded as often as its record occurs. */
  lemma LoadScoresPermutes(a: seq<ScoreEntity.ScoreData>, b: seq<ScoreEntity.ScoreData>)
    requires multiset(a) == multiset(b)
    ensures multiset(LoadScores(a)) == multiset(LoadScores(b))
  {
    MapSeqPermutes(a, b, ScoreEntity.FromDatabase);
    assert LoadScores(a) == MapSeq(a, ScoreEntity.FromDatabase);
    assert LoadScores(b) == MapSeq(b, ScoreEntity.FromDatabase);
  }

  /** `Student.fromDatabase`: absent scores become an empty list. */
  function FromDatabase(d: StudentData): Student
  {
    Student(d.id, d.sbd, d.maNgoaiNgu, if d.scores.Some? then LoadScores(d.scores.value) else [])
  }

  /** `Student.create`: not yet stored (id 0) and without scores. */
  function Create(sbd: string, maNgoaiNgu: Option<string>): Student
  {
    Student(0, sbd, maNgoaiNgu, [])
  }

  /** `addScore` builds a new student; the receiver is a value and is untouched. */
  function AddScore(s: Student, x: ScoreEntity.Score): Student
  {
    s.(scores := s.scores + [x])
  }

  predicate HasScores(s: Student)
  {
    |s.scores| > 0
  }

  function GetScoreCount(s: Student): nat
  {
    |s.scores|
  }

  function ScoresToDto(xs: seq<ScoreEntity.Score>): (r: seq<ScoreEntity.ScoreDto>)
    ensures |r| == |xs|
    ensures forall i :: 0 <= i < |xs| ==> r[i] == ScoreEntity.ToDto(xs[i])
  {
    seq(|xs|, i requires 0 <= i < |xs| => ScoreEntity.ToDto(xs[i]))
  }

  function ToDto(s: Student): StudentDto
  {
    StudentDto(s.sbd, s.maNgoaiNgu, ScoresToDto(s.scores))
  }

  /** `equals` compares registration numbers only. */
  predicate Equals(a: Student, b: Student)
  {
    a.sbd == b.sbd
  }

  /** Loading copies id, sbd and language code, and scores in order; without a
      score list the student has none. */
  lemma FromDatabaseShape(d: StudentData)
    ensures FromDatabase(d).id == d.id && FromDatabase(d).sbd == d.sbd
    ensures FromDatabase(d).maNgoaiNgu == d.maNgoaiNgu
    ensures d.scores.None? ==> !HasScores(FromDatabase(d))
    ensures d.scores.Some? ==> GetScoreCount(FromDatabase(d)) == |d.scores.value|
    ensures d.scores.Some? ==> forall i :: 0 <= i < |d.scores.value| ==>
      FromDatabase(d).scores[i] == ScoreEntity.FromDatabase(d.scores.value[i])
  {
  }

  /** A created student has id 0 and no scores. */
  lemma CreateIsEmpty(sbd: string, maNgoaiNgu: Option<string>)
    ensures Create(sbd, maNgoaiNgu).id == 0
    ensures !HasScores(Create(sbd, maNgoaiNgu)) && GetScoreCount(Create(sbd, maNgoaiNgu)) == 0
  {
  }

  /** `addScore` appends at the end, keeps identity fields and earlier scores,
      raises the count by exactly one, and the result `equals` the receiver. */
  lemma AddScoreAppends(s: Student, x: ScoreEntity.Score)
    ensures AddScore(s, x).id == s.id && AddScore(s, x).sbd == s.sbd
    ensures AddScore(s, x).maNgoaiNgu == s.maNgoaiNgu
    ensures AddScore(s, x).scores[..|s.scores|] == s.scores
    ensures AddScore(s, x).scores[|s.scores|] == x
    ensures GetScoreCount(AddScore(s, x)) == GetScoreCount(s) + 1
    ensures HasScores(AddScore(s, x))
    ensures Equals(AddScore(s, x), s)
  {
  }

  /** `hasScores` holds exactly when the count is positive. */
  lemma HasScoresIffCount(s: Student)
    ensures HasScores(s) <==> GetScoreCount(s) > 0
  {
  }

  /** `toDTO` keeps sbd and language code and maps the scores in order;
      converting after `addScore` appends the new score's DTO. */
  lemma ToDtoCommutesWithAddScore(s: Student, x: ScoreEntity.Score)
    ensures ToDto(s).sbd == s.sbd && ToDto(s).maNgoaiNgu == s.maNgoaiNgu
    ensures |ToDto(s).scores| == GetScoreCount(s)
    ensures ToDto(AddScore(s, x)).scores == ToDto(s).scores + [ScoreEntity.ToDto(x)]
  {
  }

  /** `equals` is an equivalence that ignores id, language code and scores. */
  lemma EqualsIsEquivalence(a: Student, b: Student, c: Student)
    ensures Equals(a, a)
    ensures Equals(a, b) ==> Equals(b, a)
    ensures Equals(a, b) && Equals(b, c) ==> Equals(a, c)
    ensures Equals(a, b) <==> ToDto(a).sbd == ToDto(b).sbd
  {
  }
}
