/** The cache-aside subject service (backend/src/subjects/subjects.service.ts).
    Each call takes the database, the cache store and the outcome of each
    cache command it issues, and returns what it answers, the cache after
    the call, and whether it queried the database. The cache holds the JSON
    form of what was stored; for the plain records stored here that
    round trip is the identity, so a cached value is the value written. */
module SubjectsService {
  import opened Base
  import opened Database
  import opened RedisModule
  import RedisService
  import SubjectEntity
  import SubjectRepository
  import ScoreRepository

  const StatisticsKey: string := "statistics:score-levels"
  const AllSubjectsKey: string := "subjects:all"
  const StatisticsTtl: int := 3600
  const AllSubjectsTtl: int := 7200

  /** What the service writes to the cache. */
  datatype CacheValue =
    | SubjectDtos(dtos: seq<SubjectEntity.SubjectDto>)
    | LevelStatsRows(rows: seq<ScoreRepository.LevelStats>)

  type Cache = Store<CacheValue>

  datatype Served<T> = Served(result: T, cache: Cache, queried: bool)

  /** What `getAllSubjects` hands back: entities read from the database, or
      whatever the cache held under its key. */
  datatype SubjectList = Entities(subjects: seq<SubjectEntity.Subject>) | Cached(value: CacheValue)

  /** `subjects.map(s => s.toDTO())`. */
  function ToDtos(xs: seq<SubjectEntity.Subject>): (r: seq<SubjectEntity.SubjectDto>)
    ensures |r| == |xs|
    ensures forall i :: 0 <= i < |xs| ==> r[i] == SubjectEntity.ToDto(xs[i])
  {
    seq(|xs|, i requires 0 <= i < |xs| => SubjectEntity.ToDto(xs[i]))
  }

  /** A cache entry can be read under `key` with this outcome. */
  predicate Hit(c: Cache, key: string, o: Outcome)
  {
    Live(c, o) && key in c.data
  }

  /** `getAllSubjects`: on a hit, the cached list without touching the
      database; on a miss, the subjects ordered by code, whose DTOs are cached
      for two hours. No other cache key changes. */
  function GetAllSubjects(db: Db, c: Cache, oGet: Outcome, oSet: Outcome): (r: Served<SubjectList>)
    ensures r.queried <==> !Hit(c, AllSubjectsKey, oGet)
    ensures !r.queried ==> r.cache == c && r.result == Cached(c.data[AllSubjectsKey].value)
    ensures r.queried ==> r.result == Entities(SubjectRepository.FindAll(db))
    ensures r.queried ==> r.result.Entities? && |r.result.subjects| == |db.subjects.rows|
    ensures r.queried ==> SortedOn(r.result.subjects, SubjectRepository.EntityCode)
    ensures r.queried && Live(c, oSet) ==>
      (AllSubjectsKey in r.cache.data &&
       r.cache.data[AllSubjectsKey] == Entry(SubjectDtos(ToDtos(r.result.subjects)), Some(AllSubjectsTtl)))
    ensures forall k :: k != AllSubjectsKey ==> (k in r.cache.data <==> k in c.data) && (k in c.data ==> r.cache.data[k] == c.data[k])
  {
    match RedisService.Get(c, AllSubjectsKey, oGet)
    case Some(v) => Served(Cached(v), c, false)
    case None =>
      var subjects := SubjectRepository.FindAll(db);
      Served(Entities(subjects), RedisService.Set(c, AllSubjectsKey, SubjectDtos(ToDtos(subjects)), AllSubjectsTtl, oSet), true)
  }

  /** `getScoreLevelStatistics`: the cached statistics on a hit; on a miss the
      statistics computed from the tables, cached for one hour. */
  function GetScoreLevelStatistics(db: Db, c: Cache, oGet: Outcome, oSet: Outcome): (r: Served<CacheValue>)
    ensures r.queried <==> !Hit(c, StatisticsKey, oGet)
    ensures !r.queried ==> r.cache == c && r.result == c.data[StatisticsKey].value
    ensures r.queried ==> r.result == LevelStatsRows(ScoreRepository.GetScoreLevelStatistics(db))
    ensures r.queried ==> r.result.LevelStatsRows? && |r.result.rows| == |db.subjects.rows|
    ensures r.queried && Live(c, oSet) ==>
      (StatisticsKey in r.cache.data && r.cache.data[StatisticsKey] == Entry(r.result, Some(StatisticsTtl)))
    ensures forall k :: k != StatisticsKey ==> (k in r.cache.data <==> k in c.data) && (k in c.data ==> r.cache.data[k] == c.data[k])
  {
    match RedisService.Get(c, StatisticsKey, oGet)
    case Some(v) => Served(v, c, false)
    case None =>
      var stats := LevelStatsRows(ScoreRepository.GetScoreLevelStatistics(db));
      Served(stats, RedisService.Set(c, StatisticsKey, stats, StatisticsTtl, oSet), true)
  }

  /** `invalidateScoreStatisticsCache`: removes the statistics entry only. */
  function InvalidateScoreStatistics(c: Cache, o: Outcome): (r: Cache)
    ensures Live(c, o) ==> StatisticsKey !in r.data
    ensures forall k :: k != StatisticsKey ==> (k in r.data <==> k in c.data) && (k in r.data ==> r.data[k] == c.data[k])
  {
    RedisService.Delete(c, StatisticsKey, o)
  }

  /** `invalidateSubjectsCache`: removes the subject list entry only. */
  function InvalidateSubjects(c: Cache, o: Outcome): (r: Cache)
    ensures Live(c, o) ==> AllSubjectsKey !in r.data
    ensures forall k :: k != AllSubjectsKey ==> (k in r.data <==> k in c.data) && (k in r.data ==> r.data[k] == c.data[k])
  {
    RedisService.Delete(c, AllSubjectsKey, o)
  }

  /** The statistics entry, if present, holds the statistics of `db`. */
  predicate StatisticsFresh(db: Db, c: Cache)
  {
    StatisticsKey in c.data ==> c.data[StatisticsKey].value == LevelStatsRows(ScoreRepository.GetScoreLevelStatistics(db))
  }

  /** While the entry is fresh, whatever the cache commands do, the answer is
      the statistics of the tables, and the entry stays fresh. */
  lemma StatisticsAnswerIsFresh(db: Db, c: Cache, oGet: Outcome, oSet: Outcome)
    requires StatisticsFresh(db, c)
    ensures GetScoreLevelStatistics(db, c, oGet, oSet).result == LevelStatsRows(ScoreRepository.GetScoreLevelStatistics(db))
    ensures StatisticsFresh(db, GetScoreLevelStatistics(db, c, oGet, oSet).cache)
  {
  }

  /** With a working cache the second of two calls is answered from the
      cache, without a query, and gives the first call's answer. */
  lemma StatisticsSecondCallCached(db: Db, c: Cache)
    requires c.ready
    ensures var first := GetScoreLevelStatistics(db, c, Ok, Ok);
            var second := GetScoreLevelStatistics(db, first.cache, Ok, Ok);
            !second.queried && second.result == first.result && second.cache == first.cache
  {
  }

  /** After the tables change, a cached entry keeps answering with the old
      statistics until it is invalidated; then the next call recomputes them
      from the new tables. */
  lemma InvalidateRefreshesStatistics(before: Db, db: Db, c: Cache, oGet: Outcome, oSet: Outcome)
    requires c.ready
    ensures var warm := GetScoreLevelStatistics(before, c, Ok, Ok).cache;
            GetScoreLevelStatistics(db, warm, Ok, oSet).result == GetScoreLevelStatistics(before, c, Ok, Ok).result
    ensures var warm := GetScoreLevelStatistics(before, c, Ok, Ok).cache;
            var cleared := InvalidateScoreStatistics(warm, Ok);
            GetScoreLevelStatistics(db, cleared, oGet, oSet).result == LevelStatsRows(ScoreRepository.GetScoreLevelStatistics(db))
  {
  }

  /** After the subject table changes, the cached list keeps answering with
      the old subjects' DTOs until it is invalidated; then the next call
      queries the new table. */
  lemma InvalidateRefreshesSubjects(before: Db, db: Db, c: Cache, oGet: Outcome, oSet: Outcome)
    requires c.ready
    ensures var warm := GetAllSubjects(before, c, Ok, Ok).cache;
            (AllSubjectsKey !in c.data ==>
               GetAllSubjects(db, warm, Ok, oSet).result == Cached(SubjectDtos(ToDtos(SubjectRepository.FindAll(before)))))
    ensures var warm := GetAllSubjects(before, c, Ok, Ok).cache;
            var cleared := InvalidateSubjects(warm, Ok);
            GetAllSubjects(db, cleared, oGet, oSet).queried &&
            GetAllSubjects(db, cleared, oGet, oSet).result == Entities(SubjectRepository.FindAll(db))
  {
  }

  /** With a working cache a miss stores the DTOs of the very subjects it
      returns, and the second call returns those DTOs without a query. */
  lemma SubjectsSecondCallCached(db: Db, c: Cache)
    requires c.ready
    ensures var first := GetAllSubjects(db, c, Ok, Ok);
            var second := GetAllSubjects(db, first.cache, Ok, Ok);
            !second.queried && second.cache == first.cache &&
            (first.queried ==> second.result == Cached(SubjectDtos(ToDtos(first.result.subjects))))
  {
  }
}
