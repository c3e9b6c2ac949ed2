/** The student service (backend/src/students/students.service.ts): the score
    lookup by registration number and the guarded group-A ranking. A thrown
    exception is a constructor of the answer. */
module StudentsService {
  import opened Base
  import opened Database
  import ScoreEntity
  import StudentEntity
  import ScoreRepository
  import StudentRepository

  const MinLimit: int := 1
  const MaxLimit: int := 100

  /** `findScoresBySbd`: the student's DTO, or `NotFoundException`. */
  datatype Lookup = Found(dto: StudentEntity.StudentDto) | NotFound(sbd: string)

  /** `getTopGroupA`: the ranking, or the `Error` thrown for a limit out of range. */
  datatype Ranking = Ranked(rows: seq<StudentRepository.TopRow>) | LimitOutOfRange

  function DtoCode(s: ScoreEntity.ScoreDto): string
  {
    s.subject.code
  }

  /** The student stored under `sbd` with the DTOs of all of its scores in
      subject-code order; `NotFound` exactly when no student has that `sbd`. */
  function FindScoresBySbd(db: Db, sbd: string): (r: Lookup)
    ensures r.NotFound? <==> !HasSbd(db.students.rows, sbd)
    ensures r.NotFound? ==> r.sbd == sbd
    ensures r.Found? ==> r.dto.sbd == sbd && SortedOn(r.dto.scores, DtoCode)
    ensures r.Found? ==>
      exists row :: (row in db.students.rows && row.sbd == sbd && r.dto.maNgoaiNgu == row.maNgoaiNgu &&
                     r.dto.scores == StudentEntity.ScoresToDto(ScoreRepository.FindByStudentId(db, row.id)))
  {
    match StudentRepository.FindBySbd(db, sbd, true)
    case None => NotFound(sbd)
    case Some(student) =>
      var dto := StudentEntity.ToDto(student);
      assert forall i :: 0 <= i < |dto.scores| ==> DtoCode(dto.scores[i]) == ScoreRepository.ScoreCode(student.scores[i]);
      Found(dto)
  }

  /** `getTopGroupA(limit)`: rejects a limit outside [1, 100]; otherwise the
      repository's ranking, unchanged. */
  function GetTopGroupA(db: Db, limit: int): (r: Ranking)
    ensures r.LimitOutOfRange? <==> limit < MinLimit || limit > MaxLimit
    ensures r.Ranked? ==> StudentRepository.FindTopGroupA(db, limit) == Some(r.rows)
    ensures r.Ranked? ==> |r.rows| <= limit <= MaxLimit && SortedDescOn(r.rows, StudentRepository.Total)
  {
    if limit < MinLimit || limit > MaxLimit then LimitOutOfRange
    else Ranked(StudentRepository.FindTopGroupA(db, limit).value)
  }
}
