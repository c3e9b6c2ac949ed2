# Exam-score backend — a Dafny model

This project models the core of a backend that serves national high-school exam scores. Its parts:

- **An import script.** It seeds the nine subjects, then reads the score CSV in batches of 10 000 rows. For each batch it inserts the students, then one score row per non-empty cell, skipping anything already stored.
- **The repositories over the three tables.** These answer:
  - subject lookups;
  - student lookups by registration number (*sbd*) and the paginated listing;
  - a student's scores by subject code;
  - the four-band level statistics per subject;
  - the 20-bucket score distribution per subject;
  - the group-A ranking (mathematics, physics, chemistry).
- **The entities.** `Subject`, `Score` and `Student` are immutable.
- **The Redis cache.** This covers the store wrapper, its reconnect policy and the cache service.
- **The services and controllers in front of them.** These do cache-aside subject queries, the *sbd* validation, and limit clamping.

How the model is built:

- The database is a value `Db` holding three tables as sequences. Each `createMany({ skipDuplicates: true })` is an insert-if-absent fold over its payload.
- The cache is a value `Store` (a `ready` flag and a map from key to value and expiry).
- Every operation is a pure function of these values. A cache command can fail, so it takes the outcome of the underlying Redis command as an argument. Database calls always succeed (see "Database command failures" under Left out).
- Scores are `real`. Parsing a CSV cell is a parameter `parse`.
- `ORDER BY ... ASC` on strings is code-point lexicographic order (`Base.StrLe`), realised by an insertion sort.

Modules follow the source files:

- `Base` and `Database`: shared vocabulary and the tables with their integrity constraints.
- `SubjectTable`: `scripts/subjects.js`.
- `ImportData`: `scripts/importData.js`.
- `SubjectEntity`, `ScoreEntity`, `StudentEntity`: the entities.
- `SubjectRepository`, `ScoreRepository`, `ScoreDistribution` and `StudentRepository`: the repositories. `ScoreDistribution` is the second half of the score repository.
- `RedisModule` and `RedisService`: the cache.
- `SubjectsService`, `SubjectsController`, `StudentsService` and `StudentsController`: the services and controllers.

## Model

| member | source | states |
|---|---|---|
| SubjectTable.SubjectsDistinct | backend/scripts/subjects.js:1-11 | the seed list has nine subjects with pairwise distinct codes |
| SubjectTable.SubjectMapInjective | backend/scripts/subjects.js:13-23 | the column map has nine distinct columns mapping to distinct codes |
| SubjectTable.SubjectMapCoversSubjects | backend/scripts/subjects.js:1-23 | every column's code is a seeded subject and every seeded subject has a column |
| SubjectTable.ColumnIsLowerCode | backend/scripts/subjects.js:13-23 | each column name is the lower-case spelling of its subject code |
| SubjectTable.SubjectMapAligned | backend/scripts/subjects.js:1-23 | the column map lists the subjects in seed order, column i naming subject i |
| Base.SortOn | backend/src/subjects/repositories/subject.repository.ts:24-26 | ascending order on a text key is a permutation of its input, sorted lexicographically |
| Base.SortOnMembers | backend/src/subjects/repositories/subject.repository.ts:24-26 | sorting keeps exactly the same members |
| Base.StrLeTotal | backend/src/subjects/repositories/subject.repository.ts:24-26 | any two texts are ordered one way or the other, so ascending order is defined for every table |
| Base.SortDescOn | backend/src/students/repositories/student.repository.ts:169 | descending order on a numeric key is a permutation of its input, non-increasing |
| Base.PrefixIsTop | backend/src/students/repositories/student.repository.ts:169-170 | after a descending sort, every row in the first k is ranked no lower than any row after them |
| Database.CreateManySubjects | backend/scripts/importData.js:32-35 | inserting subjects with skipDuplicates only appends, stores every payload code, keeps codes and ids unique, and changes nothing when all codes are stored |
| Database.CreateManyStudents | backend/scripts/importData.js:53-59 | inserting students with skipDuplicates only appends, stores every payload sbd, and changes nothing when all sbds are stored |
| Database.HasSbdGrows | backend/scripts/importData.js:53-59 | an appending insert never loses a stored sbd or student id |
| Database.CreateManyStudentsNewRows | backend/scripts/importData.js:53-59 | each appended student has an sbd not stored before, a fresh id, and the values of the first payload with that sbd |
| Database.CreateManyStudentsOk | backend/scripts/importData.js:53-59 | inserting students keeps sbds unique and ids unique and below the id counter |
| Database.CreateManyScoresNewRows | backend/scripts/importData.js:99-102 | each appended score has a (student, subject) key not stored before and is the first payload with that key |
| Database.CreateManyScores | backend/scripts/importData.js:99-102 | inserting scores with skipDuplicates only appends, stores every payload key, and changes nothing when all keys are stored |
| Database.CreateManyScoresUnique | backend/scripts/importData.js:99-102 | inserting scores keeps the (studentId, subjectId) key unique |
| Database.CreateManyStudentsAppend | backend/scripts/importData.js:53-59 | inserting two payload lists in turn equals inserting their concatenation |
| Database.CreateManyScoresAppend | backend/scripts/importData.js:99-102 | inserting two score lists in turn equals inserting their concatenation |
| ImportData.CodeIdMap | backend/scripts/importData.js:38-40 | the map's keys are exactly the stored codes, each sent to a stored id |
| ImportData.CodeIdMapSendsCodeToId | backend/scripts/importData.js:38-40 | with unique codes, each code maps to the id of its own row |
| ImportData.ImportSubjects | backend/scripts/importData.js:30-42 | seeding leaves students and scores alone, only appends subjects, stores every seeded code, keeps the table valid, and maps exactly the stored codes |
| ImportData.ImportSubjectsMapsIds | backend/scripts/importData.js:30-42 | every stored subject's code maps to its id |
| ImportData.ImportSubjectsCoversColumns | backend/scripts/importData.js:30-42 | after seeding, every CSV column's subject code has an id |
| ImportData.ImportSubjectsIdempotent | backend/scripts/importData.js:30-42 | seeding twice changes no stored row and gives the same code map as seeding once |
| ImportData.ImportSubjectsKeepsValid | backend/scripts/importData.js:30-42 | seeding subjects keeps every unique index and foreign key |
| ImportData.ImportSubjectsStoresColumns | backend/scripts/importData.js:30-42 | after seeding, every CSV column's code maps to a stored subject's id |
| ImportData.StudentPayload | backend/scripts/importData.js:54-57 | the payload keeps the sbd, and an empty or missing language code becomes null |
| ImportData.FindManyBySbd | backend/scripts/importData.js:62-64 | the reload returns exactly the stored rows whose sbd is in the batch |
| ImportData.SbdIdMapOfFound | backend/scripts/importData.js:66-67 | the reloaded map holds exactly the batch's stored sbds, each sent to its row's id |
| ImportData.ImportStudents | backend/scripts/importData.js:49-70 | the student table is the skipDuplicates insert of the batch, and every sbd of the batch is mapped to the id of the stored student with that sbd |
| ImportData.ImportStudentsMapsEverySbd | backend/scripts/importData.js:49-70 | every row of the batch has its sbd mapped to the id of a stored row with that sbd |
| ImportData.ImportStudentsSkipsStored | backend/scripts/importData.js:53-59 | stored students keep their rows; each new row takes the first CSV line for its sbd, with an empty language code stored as null |
| ImportData.StudentIdStable | backend/scripts/importData.js:62-67 | a later batch never changes the id the reload finds for an sbd already stored |
| ImportData.ImportStudentsAppendTable | backend/scripts/importData.js:53-59 | inserting the students of two batches in turn equals inserting those of both at once |
| ImportData.BuildScoresSparse | backend/scripts/importData.js:83-94 | a score record exists for a cell exactly when the cell is non-empty, carrying the row's student id, the column's subject id and the parsed cell |
| ImportData.EmptyCellYieldsNoScore | backend/scripts/importData.js:86 | an empty cell yields no record for that subject |
| ImportData.BuildScoresBound | backend/scripts/importData.js:83-94 | at most one record per cell is built |
| ImportData.BuildScoresCoversRows | backend/scripts/importData.js:81-95 | every score of every row of the batch is in the built list |
| ImportData.BuildScoresAppend | backend/scripts/importData.js:81-95 | building for two row lists in turn gives the concatenation of the two lists |
| ImportData.ImportScores | backend/scripts/importData.js:79-103 | inserting scores leaves the other tables alone, only appends, and stores a row under every built record's key |
| ImportData.ProcessBatch | backend/scripts/importData.js:144-149 | a batch leaves subjects unchanged and inserts its students before its scores |
| ImportData.EmittedScoresReferenceStored | backend/scripts/importData.js:144-149 | because students are inserted first, every built score names a stored student and a stored subject |
| ImportData.ProcessBatchStoresCells | backend/scripts/importData.js:79-103 | after a batch, every non-empty cell has a stored score under its line's student id and its column's subject id |
| ImportData.ProcessBatchStoresOnlyCells | backend/scripts/importData.js:79-103 | a batch keeps the stored scores in place, and every score it adds is the record of a non-empty cell, with that student's id, the column's subject id and the parsed value |
| ImportData.Chunk | backend/scripts/importData.js:113-133 | batching keeps every row in order, each batch holds 1 to n rows, and only the last may be short |
| ImportData.ProcessBatchAppend | backend/scripts/importData.js:144-149 | processing two batches in turn equals processing their concatenation |
| ImportData.ProcessAllIsOneBatch | backend/scripts/importData.js:109-137 | processing the batches one after another equals processing all rows as one batch |
| ImportData.BatchSizeInvariance | backend/scripts/importData.js:24 | the final tables do not depend on the batch size |
| ImportData.ProcessBatchIdempotent | backend/scripts/importData.js:144-149 | re-processing a batch changes no stored row |
| ImportData.RetryAfterFailedScores | backend/scripts/importData.js:144-149 | when a batch stored its students but its score insert failed, processing the batch again ends in the same store as one undisturbed batch |
| ImportData.RunIdempotent | backend/scripts/importData.js:109-137 | running the whole import a second time changes no stored row |
| ImportData.ProcessBatchKeepsValid | backend/scripts/importData.js:144-149 | a batch keeps every unique index and foreign key of the schema |
| ImportData.RunKeepsValid | backend/scripts/importData.js:109-137 | a whole run over a valid store leaves it valid |
| SubjectEntity.FromDatabasePreserves | backend/src/subjects/entities/subject.entity.ts:17-29 | loading keeps id, code and name; creating gives id 0 |
| SubjectEntity.ToDtoForgetsId | backend/src/subjects/entities/subject.entity.ts:48-53 | the DTO holds code and name only, so subjects differing only in id have equal DTOs |
| SubjectEntity.EqualsIsEquivalence | backend/src/subjects/entities/subject.entity.ts:60-62 | equality holds exactly when codes match, and it is reflexive, symmetric and transitive |
| ScoreEntity.FromDatabaseShape | backend/src/scores/entities/score.entity.ts:18-31 | the embedded subject has id 0 with the given code and name, the value is kept, and hasScore holds exactly for a non-null value |
| ScoreEntity.DtoRoundTrip | backend/src/scores/entities/score.entity.ts:54-59 | the DTO of a loaded record carries its code, name and value unchanged |
| StudentEntity.LoadScores | backend/src/students/entities/student.entity.ts:29-31 | the loaded scores are exactly the records' loaded scores, in order |
| StudentEntity.FromDatabaseShape | backend/src/students/entities/student.entity.ts:20-33 | loading copies id, sbd and language code, and an absent score list gives no scores |
| StudentEntity.CreateIsEmpty | backend/src/students/entities/student.entity.ts:41-43 | a created student has id 0 and no scores |
| StudentEntity.AddScoreAppends | backend/src/students/entities/student.entity.ts:67-74 | adding a score appends it at the end, keeps everything else, and raises the count by one |
| StudentEntity.HasScoresIffCount | backend/src/students/entities/student.entity.ts:80-90 | hasScores holds exactly when the count is positive |
| StudentEntity.ToDtoCommutesWithAddScore | backend/src/students/entities/student.entity.ts:96-106 | the DTO keeps sbd and language code and maps scores in order, so adding a score adds its DTO at the end |
| StudentEntity.EqualsIsEquivalence | backend/src/students/entities/student.entity.ts:113-115 | equality compares sbds only and is an equivalence |
| SubjectRepository.FindAll | backend/src/subjects/repositories/subject.repository.ts:17-30 | every stored subject, each once per row, ordered by code ascending |
| SubjectRepository.FindByCode | backend/src/subjects/repositories/subject.repository.ts:37-48 | the stored subject with that code, or none exactly when no row has it |
| SubjectRepository.FindByCodeAgreesWithFindAll | backend/src/subjects/repositories/subject.repository.ts:17-48 | with unique codes, a listed subject is what the lookup by its code returns |
| SubjectRepository.FindByCodes | backend/src/subjects/repositories/subject.repository.ts:55-70 | exactly the stored subjects whose code is in the list |
| SubjectRepository.FindByCodesExact | backend/src/subjects/repositories/subject.repository.ts:55-70 | every returned code was asked for and is stored, and every stored code asked for is returned |
| SubjectRepository.GetCodeMap | backend/src/subjects/repositories/subject.repository.ts:76-83 | the keys are exactly the stored codes |
| SubjectRepository.GetCodeMapMatchesFindAll | backend/src/subjects/repositories/subject.repository.ts:76-83 | the keys are the codes findAll returns, and each maps to the subject the lookup by code returns |
| ScoreRepository.FindByStudentId | backend/src/scores/repositories/score.repository.ts:18-38 | the student's scores in subject-code order: one loaded score per joined stored score of the student, as a multiset, so none is repeated or dropped |
| StudentEntity.LoadScoresPermutes | backend/src/scores/repositories/score.repository.ts:37 | loading a reordering of the records gives the same reordering of the loaded scores |
| Base.MapSeqPermutes | backend/src/scores/repositories/score.repository.ts:37 | mapping preserves permutations: reordered inputs give reordered images |
| ScoreRepository.FindByStudentIdComplete | backend/src/scores/repositories/score.repository.ts:18-38 | with referential integrity, every stored score of the student is returned with its value and a stored subject code |
| ScoreRepository.GetScoreLevelStatistics | backend/src/scores/repositories/score.repository.ts:108-154 | one row per stored subject, ordered by code, each counting that subject's scores in the four bands |
| ScoreRepository.BandsPartition | backend/src/scores/repositories/score.repository.ts:134-138 | every value lies in exactly one band, so the four counts sum to the number of values |
| ScoreRepository.LevelStatsAddUp | backend/src/scores/repositories/score.repository.ts:131-143 | in every row the bands add up to the total, and a subject with no scores still appears, with zeros |
| ScoreRepository.LevelRowsMembers | backend/src/scores/repositories/score.repository.ts:131-143 | the statistics hold exactly one row per subject, built from that subject's scores |
| ScoreDistribution.Bucket | backend/src/scores/repositories/score.repository.ts:190-195 | negative scores get no bucket; otherwise the bucket is in 0..19, starts at or below the score, and ends above it unless it is the last |
| ScoreDistribution.RangeLabelsCount | backend/src/scores/repositories/score.repository.ts:219-225 | there are twenty range labels |
| ScoreDistribution.SumBucketsIsNonNegCount | backend/src/scores/repositories/score.repository.ts:185-207 | summed over the twenty buckets, the counts equal the number of non-negative scores |
| ScoreDistribution.GroupSqlRows | backend/src/scores/repositories/score.repository.ts:228-239 | grouping the SQL rows by subject code yields one group per subject with rows, in query order, holding that subject's non-empty buckets |
| ScoreDistribution.GroupRowsAppend | backend/src/scores/repositories/score.repository.ts:228-239 | the grouping loop over two row lists in turn equals the loop over their concatenation |
| ScoreDistribution.ZeroFillExpected | backend/src/scores/repositories/score.repository.ts:241-249 | filling every group's missing buckets with 0 gives the reference distribution |
| ScoreDistribution.ZeroFillIsDistribution | backend/src/scores/repositories/score.repository.ts:241-249 | zero-filling a subject's bucket counts gives its distribution over the labels |
| ScoreDistribution.SortedCodesDistinct | backend/src/scores/repositories/score.repository.ts:208 | ordering subjects by code keeps their codes distinct |
| ScoreDistribution.DistributionWithIsReference | backend/src/scores/repositories/score.repository.ts:166-250 | for any label list up to twenty long, the computed distribution is the reference over subjects in code order |
| ScoreDistribution.ReferenceMembers | backend/src/scores/repositories/score.repository.ts:196-207 | the reference holds exactly the distribution of each subject with some non-negative score |
| ScoreDistribution.DistributionIsReference | backend/src/scores/repositories/score.repository.ts:166-250 | with unique codes, the distribution equals the reference: per subject in code order, one entry per label with that bucket's count, keeping only subjects with some non-negative score |
| ScoreDistribution.DistributionOfFacts | backend/src/scores/repositories/score.repository.ts:241-249 | a subject's distribution has twenty entries in label order, entry i counts bucket i, and the counts sum to its number of non-negative scores |
| ScoreDistribution.DistributionMembers | backend/src/scores/repositories/score.repository.ts:196-207 | a subject appears exactly when it is stored and has a non-negative score |
| StudentRepository.FindBySbd | backend/src/students/repositories/student.repository.ts:20-60 | none exactly when no student has that sbd; otherwise the stored row's id, sbd and language code, with no scores unless asked for, and with them exactly the student's scores by code |
| StudentRepository.FindBySbdScores | backend/src/students/repositories/student.repository.ts:67-69 | with scores, exactly the student's joined scores are attached |
| StudentRepository.FindBySbds | backend/src/students/repositories/student.repository.ts:76-91 | exactly the stored students whose sbd is in the list |
| StudentRepository.FindBySbdsDistinct | backend/src/students/repositories/student.repository.ts:76-91 | with unique sbds, at most one student per sbd is returned |
| StudentRepository.FilterSbdsDistinct | backend/src/students/repositories/student.repository.ts:76-91 | filtering a table with unique sbds gives rows with unique sbds |
| StudentRepository.FindAll | backend/src/students/repositories/student.repository.ts:99-114 | the page is ordered by sbd, holds min(take, n - skip) stored students (none past the end) |
| StudentRepository.FindAllPages | backend/src/students/repositories/student.repository.ts:99-114 | consecutive pages concatenate to the page spanning both, and one page of n holds every student |
| StudentRepository.Count | backend/src/students/repositories/student.repository.ts:120-122 | the count is the number of students the full listing returns |
| StudentRepository.MaxOf | backend/src/students/repositories/student.repository.ts:155-157 | MAX of no values is null; otherwise it is one of the values and no smaller than any |
| StudentRepository.TopOf | backend/src/students/repositories/student.repository.ts:152-171 | a negative limit fails; otherwise min(limit, qualifying) rows, non-increasing in total, and a sub-multiset of the qualifying rows, so no row is listed more often than it qualifies |
| StudentRepository.FindTopGroupA | backend/src/students/repositories/student.repository.ts:131-181 | the group-A ranking: fails on a negative limit, otherwise at most limit rows in non-increasing total |
| StudentRepository.TopRowsQualify | backend/src/students/repositories/student.repository.ts:162-168 | every ranked row is a stored student with a non-null score in each of the three subjects |
| StudentRepository.TopIsTop | backend/src/students/repositories/student.repository.ts:169-170 | no qualifying student left out has a higher total than any listed one |
| StudentRepository.TrioSplits | backend/src/students/repositories/student.repository.ts:158-161 | the sum over the three codes is the sum of the three per-code sums |
| StudentRepository.TopTotalIsSum | backend/src/students/repositories/student.repository.ts:155-161 | in a valid store every ranked row has all three columns, and its total is their sum |
| RedisModule.RetryStrategy | backend/src/redis/redis.module.ts:56-61 | reconnection stops exactly after 20 attempts; otherwise the delay is attempts times 50 ms, capped at 2000 |
| RedisModule.RetryStrategyMonotone | backend/src/redis/redis.module.ts:8-10 | the delay never decreases, and within 20 attempts it is exactly 50 ms per attempt |
| RedisModule.Get | backend/src/redis/redis.module.ts:88-97 | the stored value exactly when the client is ready, the command succeeds and the key exists |
| RedisModule.TtlSeconds | backend/src/redis/redis.module.ts:104-106 | an absent ttl or one of 0 to 999 ms gives no expiry; otherwise floor(ttl/1000) seconds, which is negative for a negative ttl (the write then fails and changes nothing) |
| RedisModule.Set | backend/src/redis/redis.module.ts:99-114 | a live write stores the value with its expiry; an unavailable client, an error or a negative expiry changes nothing; other keys are untouched |
| RedisModule.Del | backend/src/redis/redis.module.ts:116-124 | a live delete removes the key and nothing else |
| RedisModule.Reset | backend/src/redis/redis.module.ts:126-134 | a live flush empties the store; otherwise nothing changes |
| RedisModule.Keys | backend/src/redis/redis.module.ts:136-144 | the stored keys the pattern matches, or none when unavailable or failing |
| RedisModule.GetAfterSet | backend/src/redis/redis.module.ts:88-114 | a live write is read back, and other keys read as before |
| RedisModule.GetAfterDelete | backend/src/redis/redis.module.ts:88-134 | after a delete the key reads as absent, others as before; after a flush every key is absent |
| RedisService.Get | backend/src/redis/redis.service.ts:18-26 | the cached value, or none on a miss, an unavailable client or an error |
| RedisService.Set | backend/src/redis/redis.service.ts:34-40 | a positive ttl expires after exactly ttl seconds, 0 stores without expiry, a negative ttl changes nothing |
| RedisService.SetDefault | backend/src/redis/redis.service.ts:34 | without a ttl the entry lives 3600 seconds |
| RedisService.Delete | backend/src/redis/redis.service.ts:46-52 | removes only the given key |
| RedisService.DeletePattern | backend/src/redis/redis.service.ts:58-71 | only removes entries, never changes a value that stays |
| RedisService.DeleteAll | backend/src/redis/redis.service.ts:63-65 | deleting keys one by one never changes whether the client is ready |
| RedisService.DeleteAllData | backend/src/redis/redis.service.ts:63-65 | deleting keys one by one removes exactly the listed stored keys whose delete succeeds, and keeps every other entry |
| RedisService.DeletePatternIsSequential | backend/src/redis/redis.service.ts:63-65 | the concurrent per-key deletes end as deleting the listed keys one by one in any order |
| RedisService.DeletePatternRemovesMatches | backend/src/redis/redis.service.ts:58-71 | when every call succeeds exactly the matching keys go; non-matching keys always stay; without a store nothing changes |
| RedisService.Reset | backend/src/redis/redis.service.ts:76-85 | a live flush empties the cache; otherwise nothing changes |
| SubjectsService.GetAllSubjects | backend/src/subjects/subjects.service.ts:34-54 | a hit returns the cached list with no query and no write; a miss returns the repository's subjects by code and caches their DTOs for 7200 s; other keys are untouched |
| SubjectsService.GetScoreLevelStatistics | backend/src/subjects/subjects.service.ts:83-103 | a hit returns the cached statistics with no query; a miss returns the repository's statistics and caches them for 3600 s |
| SubjectsService.InvalidateScoreStatistics | backend/src/subjects/subjects.service.ts:109-111 | removes the statistics entry only |
| SubjectsService.InvalidateSubjects | backend/src/subjects/subjects.service.ts:116-118 | removes the subject list entry only |
| SubjectsService.StatisticsAnswerIsFresh | backend/src/subjects/subjects.service.ts:83-103 | while the entry matches the tables, every answer is the current statistics and the entry stays fresh |
| SubjectsService.StatisticsSecondCallCached | backend/src/subjects/subjects.service.ts:83-103 | with a working cache, a second call is answered from the cache with the first call's answer |
| SubjectsService.InvalidateRefreshesStatistics | backend/src/subjects/subjects.service.ts:83-111 | after the tables change a cached entry keeps serving the old statistics; once invalidated the next answer is recomputed |
| SubjectsService.InvalidateRefreshesSubjects | backend/src/subjects/subjects.service.ts:34-54 | after the tables change a cached list keeps serving the old subjects' DTOs; once invalidated (lines 116-118) the next call queries and returns the new subjects |
| SubjectsService.SubjectsSecondCallCached | backend/src/subjects/subjects.service.ts:34-54 | with a working cache, a second call gets the DTOs of the first call's subjects with no query |
| SubjectsController.GetAllSubjectsAsWritten | backend/src/subjects/subjects.controller.ts:14-17 | a miss answers the DTOs of the subjects; the handler fails exactly on a hit with a non-empty cached list |
| SubjectsController.SecondRequestFails | backend/src/subjects/subjects.controller.ts:14-17 | with a working cache and some subjects, the first request succeeds and the second fails |
| SubjectsController.GetAllSubjects | backend/src/subjects/subjects.controller.ts:14-17 | corrected handler: while the entry matches the tables it answers the subjects' DTOs by code and keeps the entry fresh; a hit returns the cached DTOs unchanged |
| SubjectsController.HitAndMissAgree | backend/src/subjects/subjects.service.ts:34-54 | corrected: two requests in a row give the same list, and the second makes no query |
| StudentsService.FindScoresBySbd | backend/src/students/students.service.ts:25-35 | not found exactly when no student has the sbd; otherwise that student's DTO with all its score DTOs in code order |
| StudentsService.GetTopGroupA | backend/src/students/students.service.ts:44-50 | fails exactly for a limit outside 1..100; otherwise the repository's ranking unchanged |
| StudentsController.Trim | backend/src/students/students.controller.ts:17 | only ECMAScript whitespace is removed, from both ends, and the result neither starts nor ends with whitespace |
| StudentsController.TrimPadded | backend/src/students/students.controller.ts:17 | whitespace around a word without edge whitespace is exactly what trimming removes |
| StudentsController.TrimIdempotent | backend/src/students/students.controller.ts:17 | trimming twice is trimming once |
| StudentsController.Utf16Length | backend/src/students/students.controller.ts:25 | `.length` counts UTF-16 code units: between one and two per character, exactly one each for text inside the Basic Multilingual Plane |
| StudentsController.CheckSbd | backend/src/students/students.controller.ts:17-32 | accepted exactly when the trimmed string is 8 digits; otherwise empty, wrong length in UTF-16 code units, or not digits, checked in that order |
| StudentsController.AstralCharsPassLengthCheck | backend/src/students/students.controller.ts:25-32 | four characters outside the Basic Multilingual Plane pass the length check and are rejected as not digits |
| StudentsController.PaddedSbdAccepted | backend/src/students/students.controller.ts:17-32 | eight digits with any surrounding whitespace are accepted as those digits |
| StudentsController.GetScoresBySbd | backend/src/students/students.controller.ts:14-35 | a bad request exactly when validation fails; otherwise the lookup runs on the trimmed 8-digit sbd |
| StudentsController.PaddedLookup | backend/src/students/students.controller.ts:14-35 | surrounding whitespace does not change the answer, and a stored student's scores are found |
| StudentsController.ClampLimit | backend/src/students/students.controller.ts:48 | the limit is kept when in 1..100, otherwise (absent, 0, negative, over 100) it is 10 |
| StudentsController.GetTopGroupA | backend/src/students/students.controller.ts:44-50 | the service never rejects the clamped limit, and the answer is the ranking for it |

## Left out

- Streams in `main`: the file stream, `pause`/`resume` and `process.exit` are not modelled. Batching is modelled as a pure split of the row sequence (`ImportData.Chunk`). The `end` handler can race a batch still in flight; that race is not modelled.
- `parseFloat` and `NaN`: a cell is parsed by the parameter `parse`, and NaN is not modelled.
- Prisma's `Decimal` → `Number`, SQL `::float` casts and `JSON.stringify`/`JSON.parse`: scores are `real` throughout. A cached value is the value written.
- SQL collation: text order is code-point order (`Base.StrLe`), not the database collation.
- Ties in the ranking: `ORDER BY total_score DESC` leaves the order of equal totals open. `StudentRepository.TopOf` states non-increasing order and which rows are kept, not one tie order.
- `StudentRepository.FindAll`: `skip` and `take` are natural numbers. Prisma's negative `take` (taking from the end) is not modelled.
- `SubjectRepository.FindByCodes` and `StudentRepository.FindBySbds`: they return rows in table order. The source sets no order, so only membership is stated.
- `SubjectRepository.FindAll`: the result is stated as the stored rows, in order, with their count. A multiset equality with the table is not stated.
- `StudentRepository.FindBySbd` assumes `sbd` is unique, as `findUnique` does. With duplicate sbds the model returns the first row.
- `StudentRepository.TopOf` groups per student row, which is what `GROUP BY s.id` does.
- ioredis: timeouts, keep-alive, the offline queue and status transitions are not modelled. The connection is a `ready` flag, and each command's success is an argument. The per-key deletes in `deletePattern` all see the same `ready` status.
- Redis `KEYS` glob matching is the parameter `matches`.
- Database command failures: every Prisma call (`createMany`, `findMany`, `findUnique`, `$queryRaw`) succeeds in the model. The one exception is the rejected negative `LIMIT`. `processBatch` has no `catch`, so a batch whose score insert fails leaves its students stored without their scores. That failure is not a case of `ImportData.ProcessBatch`. The state it leaves is `ImportStudents(db, batch).db`, and recovery by processing the batch again is `ImportData.RetryAfterFailedScores`. A failure partway through a full run, followed by re-running the whole ingestion, is not stated.
- Id sequences: PostgreSQL's `INSERT ... ON CONFLICT DO NOTHING`, behind `skipDuplicates`, also uses up sequence values for rows it skips. The model's `nextId` advances only on a real insert. So the idempotence lemmas (`ImportData.ImportSubjectsIdempotent`, `ImportData.ProcessBatchIdempotent`, `ImportData.RunIdempotent`) promise unchanged rows, not an unchanged sequence position. No answer of the backend shows the sequence.
- Expiry in real time is not modelled: an entry records its TTL and is never dropped by a clock.
- The cache manager's own default `ttl` (`redis.module.ts:31`) is not modelled, because every call in the core passes a ttl.
- The `ParseIntPipe` rejection of a non-numeric `limit` is not modelled. The model's `limit` is the already-parsed optional integer.
- Groups B, C and D: their handlers (`students.controller.ts:56-86`) call service methods that `students.service.ts` does not define, so there is nothing to model behind them. Their shared limit clamp is `StudentsController.ClampLimit`.
- `getSubjectByCode` and `getSubjectCodeMap` (`subjects.service.ts:61-71`) forward to `SubjectRepository.FindByCode` and `SubjectRepository.GetCodeMap`, which are modelled.
- Logging (`console.log`/`console.error`) and exception messages are not modelled. An exception is a constructor of the result.
- A CSV row without an `sbd` cell is not modelled: every row carries an sbd.

## Findings

| source | as written | input that shows it | evidently intended | confidence | as-written member | corrected member |
|---|---|---|---|---|---|---|
| backend/src/subjects/subjects.controller.ts:14-17 | On a cache hit the service returns the cached plain DTO objects (`subjects.service.ts:38-41`). The handler then calls `.toDTO()` on each of them, and plain objects have no such method. | With Redis up, one stored subject and an empty cache: `GET /subjects` twice. The first call answers the list; the second throws a `TypeError` (HTTP 500). | Answer the same DTO list on a hit as on a miss. | not executed | SubjectsController.GetAllSubjectsAsWritten, SubjectsController.SecondRequestFails | SubjectsController.GetAllSubjects, SubjectsController.HitAndMissAgree |
