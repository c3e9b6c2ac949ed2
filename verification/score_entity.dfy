/** The immutable `Score` entity (backend/src/scores/entities/score.entity.ts). */
module ScoreEntity {
  import opened Base
  import SubjectEntity

  /** A score with its embedded subject; `None` is a null score. */
  datatype Score = Score(subject: SubjectEntity.Subject, score: Option<real>)

  datatype ScoreDto = ScoreDto(subject: SubjectEntity.SubjectDto, score: Option<real>)

  /** The record the repositories select: `{ score, subject: { code, name } }`.
      The stored decimal is a real; SQL NULL (and an absent value) is `None`. */
  datatype ScoreData = ScoreData(score: Option<real>, code: string, name: string)

  /** `Score.fromDatabase`: the subject is rebuilt with `Subject.create`, so it
      carries id 0, and a null or undefined score stays null. */
  function FromDatabase(d: ScoreData): Score
  {
    Score(SubjectEntity.Create(d.code, d.name), d.score)
  }

  predicate HasScore(s: Score)
  {
    s.score.Some?
  }

  function ToDto(s: Score): ScoreDto
  {
    ScoreDto(SubjectEntity.ToDto(s.subject), s.score)
  }

  /** Loading a score embeds a subject with id 0 and the given code and name,
      keeps the value, and has a value exactly when the record had one. */
  lemma FromDatabaseShape(d: ScoreData)
    ensures FromDatabase(d).subject.id == 0
    ensures FromDatabase(d).subject.code == d.code && FromDatabase(d).subject.name == d.name
    ensures FromDatabase(d).score == d.score
    ensures HasScore(FromDatabase(d)) <==> d.score.Some?
  {
  }

  /** Database record to DTO loses nothing the API shows: code, name and value
      come back unchanged. */
  lemma DtoRoundTrip(d: ScoreData)
    ensures ToDto(FromDatabase(d)) == ScoreDto(SubjectEntity.SubjectDto(d.code, d.name), d.score)
  {
  }
}
