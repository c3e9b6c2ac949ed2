/** The `GET /subjects` handler (backend/src/subjects/subjects.controller.ts),
    which maps `toDTO()` over what the service returns. A cached list holds
    plain JSON objects, not `Subject` entities, so they have no `toDTO`
    method: the handler as written throws a `TypeError` on every cache hit
    with a non-empty list. `GetAllSubjectsAsWritten` models that handler and
    `GetAllSubjects` the corrected one, which returns cached DTOs as they are. */
module SubjectsController {
  import opened Database
  import opened RedisModule
  import SubjectEntity
  import SubjectRepository
  import SubjectsService

  datatype Response<T> = Sent(body: T) | TypeError

  /** The handler as written: `toDTO()` on every element of the service's
      answer, which only entities have. */
  function GetAllSubjectsAsWritten(db: Db, c: SubjectsService.Cache, oGet: Outcome, oSet: Outcome)
    : (r: (Response<seq<SubjectEntity.SubjectDto>>, SubjectsService.Cache))
    ensures r.1 == SubjectsService.GetAllSubjects(db, c, oGet, oSet).cache
    ensures !SubjectsService.Hit(c, SubjectsService.AllSubjectsKey, oGet) ==>
      r.0 == Sent(SubjectsService.ToDtos(SubjectRepository.FindAll(db)))
    ensures r.0.TypeError? <==>
      (SubjectsService.Hit(c, SubjectsService.AllSubjectsKey, oGet) &&
       CachedLength(c.data[SubjectsService.AllSubjectsKey].value) > 0)
  {
    var served := SubjectsService.GetAllSubjects(db, c, oGet, oSet);
    match served.result
    case Entities(subjects) => (Sent(SubjectsService.ToDtos(subjects)), served.cache)
    case Cached(v) => (if CachedLength(v) == 0 then Sent([]) else TypeError, served.cache)
  }

  /** The number of plain objects in a cached array. */
  function CachedLength(v: SubjectsService.CacheValue): nat
  {
    match v
    case SubjectDtos(dtos) => |dtos|
    case LevelStatsRows(rows) => |rows|
  }

  /** The failing input: with a working cache and at least one subject, the
      first request fills the cache and the second fails. */
  lemma SecondRequestFails(db: Db, c: SubjectsService.Cache)
    requires c.ready && SubjectsService.AllSubjectsKey !in c.data
    requires |db.subjects.rows| > 0
    ensures GetAllSubjectsAsWritten(db, c, Ok, Ok).0.Sent?
    ensures GetAllSubjectsAsWritten(db, GetAllSubjectsAsWritten(db, c, Ok, Ok).1, Ok, Ok).0 == TypeError
  {
  }

  /** The subject list entry, if present, holds the DTOs of the stored subjects. */
  predicate SubjectsFresh(db: Db, c: SubjectsService.Cache)
  {
    SubjectsService.AllSubjectsKey in c.data ==>
      c.data[SubjectsService.AllSubjectsKey].value == SubjectsService.SubjectDtos(SubjectsService.ToDtos(SubjectRepository.FindAll(db)))
  }

  /** The corrected handler: a cached DTO list is the response as it is;
      otherwise the service's entities are projected. A foreign value under
      the key (which nothing writes) is answered from the database. */
  function GetAllSubjects(db: Db, c: SubjectsService.Cache, oGet: Outcome, oSet: Outcome)
    : (r: (seq<SubjectEntity.SubjectDto>, SubjectsService.Cache))
    ensures SubjectsFresh(db, c) ==> r.0 == SubjectsService.ToDtos(SubjectRepository.FindAll(db)) && SubjectsFresh(db, r.1)
    ensures !SubjectsService.Hit(c, SubjectsService.AllSubjectsKey, oGet) ==>
      r.0 == SubjectsService.ToDtos(SubjectRepository.FindAll(db))
    ensures SubjectsService.Hit(c, SubjectsService.AllSubjectsKey, oGet) ==>
      r.1 == c && (c.data[SubjectsService.AllSubjectsKey].value.SubjectDtos? ==> r.0 == c.data[SubjectsService.AllSubjectsKey].value.dtos)
  {
    var served := SubjectsService.GetAllSubjects(db, c, oGet, oSet);
    match served.result
    case Entities(subjects) => (SubjectsService.ToDtos(subjects), served.cache)
    case Cached(SubjectDtos(dtos)) => (dtos, served.cache)
    case Cached(LevelStatsRows(_)) => (SubjectsService.ToDtos(SubjectRepository.FindAll(db)), served.cache)
  }

  /** Corrected, the endpoint answers the same on a hit as on a miss: two
      requests in a row with a working cache give the same list, the DTOs of
      the subjects ordered by code, and the second one makes no query. */
  lemma HitAndMissAgree(db: Db, c: SubjectsService.Cache)
    requires c.ready && SubjectsFresh(db, c)
    ensures var first := GetAllSubjects(db, c, Ok, Ok);
            var second := GetAllSubjects(db, first.1, Ok, Ok);
            first.0 == second.0 == SubjectsService.ToDtos(SubjectRepository.FindAll(db)) &&
            !SubjectsService.GetAllSubjects(db, first.1, Ok, Ok).queried
  {
  }
}
