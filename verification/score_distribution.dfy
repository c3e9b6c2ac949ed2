/** The score distribution of backend/src/scores/repositories/score.repository.ts
    (`getScoreDistribution`): the SQL that counts each subject's scores per
    half-point bucket, and the JavaScript that groups those rows per subject
    and fills in the empty buckets. The pipeline is proved equal to a
    relational reference: per subject, 20 counts in label order. */
module ScoreDistribution {
  import opened Base
  import opened Database
  import ScoreRepository

  /** The bucket index `CASE` of `score_buckets`: none for a negative score,
      19 from 10 up, otherwise `LEAST(FLOOR(score * 2), 19)`. */
  function Bucket(x: real): (b: Option<int>)
    ensures b.None? <==> x < 0.0
    ensures b.Some? ==> 0 <= b.value < BucketCount
    ensures b.Some? ==> (b.value as real) / 2.0 <= x
    ensures b.Some? ==> x < ((b.value + 1) as real) / 2.0 || b.value == BucketCount - 1
  {
    if x < 0.0 then None
    else if x >= 10.0 then Some(19)
    else Some(Min((x * 2.0).Floor, 19))
  }

  const BucketCount: nat := 20

  /** The labels of the 20 buckets, `'[0, 0.5]'` to `'[9.5, 10]'`. */
  const RangeLabels: seq<string> := [
    "[0, 0.5]", "[0.5, 1]", "[1, 1.5]", "[1.5, 2]",
    "[2, 2.5]", "[2.5, 3]", "[3, 3.5]", "[3.5, 4]",
    "[4, 4.5]", "[4.5, 5]", "[5, 5.5]", "[5.5, 6]",
    "[6, 6.5]", "[6.5, 7]", "[7, 7.5]", "[7.5, 8]",
    "[8, 8.5]", "[8.5, 9]", "[9, 9.5]", "[9.5, 10]"
  ]

  /** One label per bucket. */
  lemma RangeLabelsCount()
    ensures |RangeLabels| == BucketCount
  {
  }

  /** Values in bucket `i`. */
  function InBucket(vals: seq<real>, i: int): (n: nat)
    ensures n <= |vals|
  {
    if |vals| == 0 then 0
    else (if Bucket(vals[0]) == Some(i) then 1 else 0) + InBucket(vals[1..], i)
  }

  /** Values the distribution counts at all: the non-negative ones. */
  function NonNegCount(vals: seq<real>): (n: nat)
    ensures n <= |vals|
  {
    if |vals| == 0 then 0
    else (if vals[0] >= 0.0 then 1 else 0) + NonNegCount(vals[1..])
  }

  /** One row of the SQL result: a subject, a bucket and its (positive) count. */
  datatype BucketRow = BucketRow(code: string, name: string, bucket: int, count: nat)

  /** The rows of one subject, buckets `i` to 19 in order, non-empty buckets only. */
  function SubjectBucketRows(sub: SubjectRow, vals: seq<real>, i: nat): seq<BucketRow>
    requires i <= BucketCount
    decreases BucketCount - i
  {
    if i == BucketCount then []
    else
      (if InBucket(vals, i) > 0 then [BucketRow(sub.code, sub.name, i, InBucket(vals, i))] else [])
        + SubjectBucketRows(sub, vals, i + 1)
  }

  /** The SQL result for subjects listed in code order: each subject followed
      by its non-empty buckets in index order. A subject without a
      non-negative score has no row (the `INNER JOIN` and the
      `bucket_index IS NOT NULL` filter). */
  function SqlBucketRows(subs: seq<SubjectRow>, scores: seq<ScoreRow>): seq<BucketRow>
  {
    if |subs| == 0 then []
    else SubjectBucketRows(subs[0], ScoreRepository.Values(scores, subs[0].id), 0) + SqlBucketRows(subs[1..], scores)
  }

  /** An entry of the JavaScript `subjectMap`: code, name and the
      `bucket -> count` map. */
  datatype Group = Group(code: string, name: string, dist: map<int, nat>)

  predicate HasGroup(groups: seq<Group>, code: string)
  {
    exists k :: 0 <= k < |groups| && groups[k].code == code
  }

  /** One iteration of `for (const row of result)`: create the subject's entry
      on first sight (a `Map` keeps insertion order), then set its bucket. */
  function AddRow(groups: seq<Group>, row: BucketRow): seq<Group>
  {
    if |groups| == 0 then [Group(row.code, row.name, map[row.bucket := row.count])]
    else if groups[0].code == row.code then [groups[0].(dist := groups[0].dist[row.bucket := row.count])] + groups[1..]
    else [groups[0]] + AddRow(groups[1..], row)
  }

  function GroupRows(groups: seq<Group>, rows: seq<BucketRow>): seq<Group>
    decreases |rows|
  {
    if |rows| == 0 then groups else GroupRows(AddRow(groups, rows[0]), rows[1..])
  }

  datatype RangeCount = RangeCount(range: string, count: nat)

  datatype SubjectDistribution = SubjectDistribution(subjectCode: string, subjectName: string, distribution: seq<RangeCount>)

  /** `rangeLabels.map((range, index) => ({ range, count: distribution.get(index) || 0 }))`. */
  function ZeroFill(g: Group, labels: seq<string>): SubjectDistribution
  {
    SubjectDistribution(g.code, g.name,
      seq(|labels|, i requires 0 <= i < |labels| => RangeCount(labels[i], if i in g.dist then g.dist[i] else 0)))
  }

  function ZeroFillAll(groups: seq<Group>, labels: seq<string>): (r: seq<SubjectDistribution>)
    ensures |r| == |groups|
    ensures forall k :: 0 <= k < |groups| ==> r[k] == ZeroFill(groups[k], labels)
  {
    if |groups| == 0 then [] else [ZeroFill(groups[0], labels)] + ZeroFillAll(groups[1..], labels)
  }

  function SubjectRowCode(row: SubjectRow): string
  {
    row.code
  }

  /** The distribution computed with the given bucket labels. */
  function DistributionWith(db: Db, labels: seq<string>): seq<SubjectDistribution>
  {
    var subs := SortOn(db.subjects.rows, SubjectRowCode);
    ZeroFillAll(GroupRows([], SqlBucketRows(subs, db.scores)), labels)
  }

  /** `getScoreDistribution`. */
  function GetScoreDistribution(db: Db): seq<SubjectDistribution>
  {
    DistributionWith(db, RangeLabels)
  }

  // ---- the relational reference -------------------------------------------

  /** A subject's full histogram: one entry per label, entry `i` counting its
      values in bucket `i`. */
  function DistributionOf(sub: SubjectRow, scores: seq<ScoreRow>, labels: seq<string>): SubjectDistribution
  {
    var vals := ScoreRepository.Values(scores, sub.id);
    SubjectDistribution(sub.code, sub.name,
      seq(|labels|, i requires 0 <= i < |labels| => RangeCount(labels[i], InBucket(vals, i))))
  }

  /** The histograms of the subjects, in the given order, that have at least
      one non-negative score. */
  function ReferenceDistribution(subs: seq<SubjectRow>, scores: seq<ScoreRow>, labels: seq<string>): seq<SubjectDistribution>
  {
    if |subs| == 0 then []
    else
      (if NonNegCount(ScoreRepository.Values(scores, subs[0].id)) > 0 then [DistributionOf(subs[0], scores, labels)] else [])
        + ReferenceDistribution(subs[1..], scores, labels)
  }

  /** The non-empty buckets from `i` on, as the map the loop builds. */
  function DistFrom(vals: seq<real>, i: nat): (m: map<int, nat>)
    requires i <= BucketCount
    ensures forall j :: j in m <==> i <= j < BucketCount && InBucket(vals, j) > 0
    ensures forall j :: j in m ==> m[j] == InBucket(vals, j)
    decreases BucketCount - i
  {
    if i == BucketCount then map[]
    else if InBucket(vals, i) > 0 then DistFrom(vals, i + 1)[i := InBucket(vals, i)]
    else DistFrom(vals, i + 1)
  }

  lemma NotInTail(groups: seq<Group>, code: string)
    requires |groups| > 0 && !HasGroup(groups, code)
    ensures !HasGroup(groups[1..], code)
  {
    forall k | 0 <= k < |groups[1..]|
      ensures groups[1..][k].code != code
    {
      assert groups[1..][k] == groups[k + 1];
    }
  }

  /** A row of an unseen subject appends a fresh entry. */
  lemma {:induction false} AddRowFresh(groups: seq<Group>, row: BucketRow)
    requires !HasGroup(groups, row.code)
    ensures AddRow(groups, row) == groups + [Group(row.code, row.name, map[row.bucket := row.count])]
  {
    if |groups| > 0 {
      NotInTail(groups, row.code);
      AddRowFresh(groups[1..], row);
      assert groups == [groups[0]] + groups[1..];
    }
  }

  /** A row of the subject entered last updates that entry only. */
  lemma {:induction false} AddRowLast(groups: seq<Group>, last: Group, row: BucketRow)
    requires last.code == row.code && !HasGroup(groups, row.code)
    ensures AddRow(groups + [last], row) == groups + [last.(dist := last.dist[row.bucket := row.count])]
  {
    if |groups| > 0 {
      NotInTail(groups, row.code);
      assert (groups + [last])[1..] == groups[1..] + [last];
      AddRowLast(groups[1..], last, row);
    }
  }

  lemma {:induction false} GroupRowsAppend(groups: seq<Group>, a: seq<BucketRow>, b: seq<BucketRow>)
    ensures GroupRows(groups, a + b) == GroupRows(GroupRows(groups, a), b)
    decreases |a|
  {
    if |a| > 0 {
      assert (a + b)[0] == a[0] && (a + b)[1..] == a[1..] + b;
      GroupRowsAppend(AddRow(groups, a[0]), a[1..], b);
    } else {
      assert a + b == b;
    }
  }

  lemma UpdateThenUnion(m: map<int, nat>, d: map<int, nat>, i: int, v: nat)
    requires i !in d
    ensures m[i := v] + d == m + d[i := v]
  {
  }

  /** Once a subject's entry is the last one, its remaining rows only fill in
      its buckets. */
  lemma {:induction false} GroupSubjectTail(groups: seq<Group>, sub: SubjectRow, vals: seq<real>, m: map<int, nat>, i: nat)
    requires i <= BucketCount && !HasGroup(groups, sub.code)
    ensures GroupRows(groups + [Group(sub.code, sub.name, m)], SubjectBucketRows(sub, vals, i))
         == groups + [Group(sub.code, sub.name, m + DistFrom(vals, i))]
    decreases BucketCount - i
  {
    if i == BucketCount {
      assert m + DistFrom(vals, i) == m;
    } else {
      var rest := SubjectBucketRows(sub, vals, i + 1);
      var d := DistFrom(vals, i + 1);
      if InBucket(vals, i) > 0 {
        var row := BucketRow(sub.code, sub.name, i, InBucket(vals, i));
        assert SubjectBucketRows(sub, vals, i) == [row] + rest;
        AddRowLast(groups, Group(sub.code, sub.name, m), row);
        GroupSubjectTail(groups, sub, vals, m[i := InBucket(vals, i)], i + 1);
        UpdateThenUnion(m, d, i, InBucket(vals, i));
      } else {
        assert SubjectBucketRows(sub, vals, i) == rest;
        GroupSubjectTail(groups, sub, vals, m, i + 1);
      }
    }
  }

  /** A subject not yet seen gets one entry holding its non-empty buckets, or
      none when it has no non-empty bucket. */
  lemma {:induction false} GroupSubject(groups: seq<Group>, sub: SubjectRow, vals: seq<real>, i: nat)
    requires i <= BucketCount && !HasGroup(groups, sub.code)
    ensures GroupRows(groups, SubjectBucketRows(sub, vals, i))
         == if DistFrom(vals, i) == map[] then groups else groups + [Group(sub.code, sub.name, DistFrom(vals, i))]
    decreases BucketCount - i
  {
    if i < BucketCount {
      var rest := SubjectBucketRows(sub, vals, i + 1);
      if InBucket(vals, i) > 0 {
        var row := BucketRow(sub.code, sub.name, i, InBucket(vals, i));
        assert SubjectBucketRows(sub, vals, i) == [row] + rest;
        AddRowFresh(groups, row);
        GroupSubjectTail(groups, sub, vals, map[i := InBucket(vals, i)], i + 1);
        var d := DistFrom(vals, i + 1);
        UpdateThenUnion(map[], d, i, InBucket(vals, i));
        assert map[][i := InBucket(vals, i)] == map[i := InBucket(vals, i)];
        assert map[] + d[i := InBucket(vals, i)] == DistFrom(vals, i);
        assert i in DistFrom(vals, i);
      } else {
        assert SubjectBucketRows(sub, vals, i) == rest;
        GroupSubject(groups, sub, vals, i + 1);
      }
    }
  }

  /** Grouping one subject's rows adds no entry for any other code. */
  lemma GroupSubjectOthers(groups: seq<Group>, sub: SubjectRow, vals: seq<real>, code: string)
    requires !HasGroup(groups, sub.code) && !HasGroup(groups, code) && code != sub.code
    ensures !HasGroup(GroupRows(groups, SubjectBucketRows(sub, vals, 0)), code)
  {
    GroupSubject(groups, sub, vals, 0);
    HasGroupSnoc(groups, Group(sub.code, sub.name, DistFrom(vals, 0)), code);
  }

  lemma HasGroupSnoc(groups: seq<Group>, g: Group, code: string)
    ensures HasGroup(groups + [g], code) <==> HasGroup(groups, code) || g.code == code
  {
    var g1 := groups + [g];
    if HasGroup(g1, code) && g.code != code {
      var q :| 0 <= q < |g1| && g1[q].code == code;
      assert g1[q] == groups[q];
    }
    if HasGroup(groups, code) {
      var q :| 0 <= q < |groups| && groups[q].code == code;
      assert g1[q] == groups[q];
    }
    if g.code == code {
      assert g1[|groups|] == g;
    }
  }

  /** The number of values in buckets `i` to 19 that value `v` adds: one if
      it falls in one of them. */
  function SumIndicators(v: real, i: nat): nat
    requires i <= BucketCount
    decreases BucketCount - i
  {
    if i == BucketCount then 0 else (if Bucket(v) == Some(i) then 1 else 0) + SumIndicators(v, i + 1)
  }

  /** Value `v` contributes to exactly the one bucket it falls in. */
  lemma {:induction false} OneBucket(v: real, i: nat)
    requires i <= BucketCount
    ensures SumIndicators(v, i) == if Bucket(v).Some? && Bucket(v).value >= i then 1 else 0
    decreases BucketCount - i
  {
    if i < BucketCount {
      OneBucket(v, i + 1);
    }
  }

  /** The counts of buckets `i` to 19. */
  function SumBuckets(vals: seq<real>, i: nat): nat
    requires i <= BucketCount
    decreases BucketCount - i
  {
    if i == BucketCount then 0 else InBucket(vals, i) + SumBuckets(vals, i + 1)
  }

  lemma {:induction false} SumBucketsCons(vals: seq<real>, i: nat)
    requires |vals| > 0 && i <= BucketCount
    ensures SumBuckets(vals, i) == SumIndicators(vals[0], i) + SumBuckets(vals[1..], i)
    decreases BucketCount - i
  {
    if i < BucketCount {
      SumBucketsCons(vals, i + 1);
    }
  }

  lemma {:induction false} ZeroBuckets(vals: seq<real>, i: nat)
    requires |vals| == 0 && i <= BucketCount
    ensures SumBuckets(vals, i) == 0
    decreases BucketCount - i
  {
    if i < BucketCount {
      ZeroBuckets(vals, i + 1);
    }
  }

  /** A value falls in some bucket exactly when it is non-negative. */
  lemma CountedOnce(v: real)
    ensures SumIndicators(v, 0) == if v >= 0.0 then 1 else 0
  {
    OneBucket(v, 0);
  }

  /** The 20 bucket counts add up to the number of non-negative values. */
  lemma {:induction false} SumBucketsIsNonNegCount(vals: seq<real>)
    ensures SumBuckets(vals, 0) == NonNegCount(vals)
  {
    if |vals| == 0 {
      ZeroBuckets(vals, 0);
    } else {
      SumBucketsCons(vals, 0);
      CountedOnce(vals[0]);
      SumBucketsIsNonNegCount(vals[1..]);
    }
  }

  /** Some bucket is non-empty exactly when the counts do not sum to zero. */
  lemma {:induction false} DistFromEmpty(vals: seq<real>, i: nat)
    requires i <= BucketCount
    ensures DistFrom(vals, i) == map[] <==> SumBuckets(vals, i) == 0
    decreases BucketCount - i
  {
    if i < BucketCount {
      DistFromEmpty(vals, i + 1);
      if InBucket(vals, i) > 0 {
        assert i in DistFrom(vals, i);
      }
    }
  }

  /** Zero-filling a subject's entry gives its full histogram. */
  lemma ZeroFillIsDistribution(sub: SubjectRow, scores: seq<ScoreRow>, labels: seq<string>)
    requires |labels| <= BucketCount
    ensures ZeroFill(Group(sub.code, sub.name, DistFrom(ScoreRepository.Values(scores, sub.id), 0)), labels)
         == DistributionOf(sub, scores, labels)
  {
    var vals := ScoreRepository.Values(scores, sub.id);
    var d := DistFrom(vals, 0);
    var a := ZeroFill(Group(sub.code, sub.name, d), labels).distribution;
    var b := DistributionOf(sub, scores, labels).distribution;
    forall i | 0 <= i < |labels|
      ensures a[i] == b[i]
    {
    }
  }

  predicate CodesDistinct(subs: seq<SubjectRow>)
  {
    forall i, j :: 0 <= i < j < |subs| ==> subs[i].code != subs[j].code
  }

  /** The entries the grouping should end with: one per subject, in the
      given order, that has a non-negative score, holding its non-empty buckets. */
  function ExpectedGroups(subs: seq<SubjectRow>, scores: seq<ScoreRow>): seq<Group>
  {
    if |subs| == 0 then [] else ExpectedGroup(subs[0], scores) + ExpectedGroups(subs[1..], scores)
  }

  function ExpectedGroup(sub: SubjectRow, scores: seq<ScoreRow>): seq<Group>
  {
    var vals := ScoreRepository.Values(scores, sub.id);
    if NonNegCount(vals) > 0 then [Group(sub.code, sub.name, DistFrom(vals, 0))] else []
  }

  /** The step of `GroupSqlRows` for the first subject. */
  lemma GroupFirstSubject(groups: seq<Group>, sub: SubjectRow, scores: seq<ScoreRow>)
    requires !HasGroup(groups, sub.code)
    ensures GroupRows(groups, SubjectBucketRows(sub, ScoreRepository.Values(scores, sub.id), 0))
         == groups + ExpectedGroup(sub, scores)
  {
    var vals := ScoreRepository.Values(scores, sub.id);
    GroupSubject(groups, sub, vals, 0);
    DistFromEmpty(vals, 0);
    SumBucketsIsNonNegCount(vals);
    if NonNegCount(vals) == 0 {
      assert groups + [] == groups;
    }
  }

  /** After the first subject's rows, the remaining subjects are still unseen
      and still distinct. */
  lemma GroupFirstLeavesRest(groups: seq<Group>, subs: seq<SubjectRow>, scores: seq<ScoreRow>)
    requires |subs| > 0 && CodesDistinct(subs)
    requires forall k :: 0 <= k < |subs| ==> !HasGroup(groups, subs[k].code)
    ensures CodesDistinct(subs[1..])
    ensures forall k :: 0 <= k < |subs[1..]| ==>
      !HasGroup(GroupRows(groups, SubjectBucketRows(subs[0], ScoreRepository.Values(scores, subs[0].id), 0)), subs[1..][k].code)
  {
    var sub := subs[0];
    forall k | 0 <= k < |subs[1..]|
      ensures !HasGroup(GroupRows(groups, SubjectBucketRows(sub, ScoreRepository.Values(scores, sub.id), 0)), subs[1..][k].code)
    {
      assert subs[1..][k] == subs[k + 1];
      GroupSubjectOthers(groups, sub, ScoreRepository.Values(scores, sub.id), subs[k + 1].code);
    }
    assert forall i :: 0 <= i < |subs[1..]| ==> subs[1..][i] == subs[i + 1];
  }

  /** Grouping the SQL rows of distinct-coded, unseen subjects appends their
      expected entries, in the subjects' order. */
  lemma {:induction false} GroupSqlRows(groups: seq<Group>, subs: seq<SubjectRow>, scores: seq<ScoreRow>)
    requires CodesDistinct(subs)
    requires forall k :: 0 <= k < |subs| ==> !HasGroup(groups, subs[k].code)
    ensures GroupRows(groups, SqlBucketRows(subs, scores)) == groups + ExpectedGroups(subs, scores)
    decreases |subs|
  {
    if |subs| == 0 {
      assert groups + [] == groups;
    } else {
      var sub := subs[0];
      var first := SubjectBucketRows(sub, ScoreRepository.Values(scores, sub.id), 0);
      var rest := SqlBucketRows(subs[1..], scores);
      assert SqlBucketRows(subs, scores) == first + rest;
      GroupRowsAppend(groups, first, rest);
      GroupFirstLeavesRest(groups, subs, scores);
      var g1 := GroupRows(groups, first);
      GroupSqlRows(g1, subs[1..], scores);
      GroupFirstSubject(groups, sub, scores);
      var e := ExpectedGroup(sub, scores);
      var es := ExpectedGroups(subs[1..], scores);
      assert ExpectedGroups(subs, scores) == e + es;
      assert g1 == groups + e;
      ConcatAssoc(groups, e, es);
    }
  }

  lemma ConcatAssoc(a: seq<Group>, b: seq<Group>, c: seq<Group>)
    ensures (a + b) + c == a + (b + c)
  {
  }

  /** Zero-filling the expected entries gives the reference histograms. */
  lemma {:induction false} ZeroFillExpected(subs: seq<SubjectRow>, scores: seq<ScoreRow>, labels: seq<string>)
    requires |labels| <= BucketCount
    ensures ZeroFillAll(ExpectedGroups(subs, scores), labels) == ReferenceDistribution(subs, scores, labels)
    decreases |subs|
  {
    if |subs| > 0 {
      ZeroFillExpected(subs[1..], scores, labels);
      var vals := ScoreRepository.Values(scores, subs[0].id);
      ZeroFillAllAppend(ExpectedGroup(subs[0], scores), ExpectedGroups(subs[1..], scores), labels);
      if NonNegCount(vals) > 0 {
        ZeroFillIsDistribution(subs[0], scores, labels);
      }
    }
  }

  lemma {:induction false} ZeroFillAllAppend(a: seq<Group>, b: seq<Group>, labels: seq<string>)
    ensures ZeroFillAll(a + b, labels) == ZeroFillAll(a, labels) + ZeroFillAll(b, labels)
    decreases |a|
  {
    if |a| > 0 {
      assert (a + b)[1..] == a[1..] + b;
      ZeroFillAllAppend(a[1..], b, labels);
    } else {
      assert a + b == b;
    }
  }

  /** With unique codes a row occurs at most once in the table. */
  lemma {:induction false} AtMostOnce(rows: seq<SubjectRow>, x: SubjectRow)
    requires CodesDistinct(rows)
    ensures multiset(rows)[x] <= 1
  {
    if |rows| > 0 {
      assert rows == [rows[0]] + rows[1..];
      assert CodesDistinct(rows[1..]) by {
        assert forall i :: 0 <= i < |rows[1..]| ==> rows[1..][i] == rows[i + 1];
      }
      AtMostOnce(rows[1..], x);
      if rows[0] == x {
        forall k | 0 <= k < |rows[1..]|
          ensures rows[1..][k] != x
        {
          assert rows[1..][k] == rows[k + 1];
        }
      }
    }
  }

  /** A value at two positions occurs at least twice. */
  lemma CountTwo(subs: seq<SubjectRow>, i: int, j: int)
    requires 0 <= i < j < |subs|
    ensures subs[i] == subs[j] ==> multiset(subs)[subs[i]] >= 2
  {
    assert subs == subs[..i] + [subs[i]] + subs[i + 1..];
    assert subs[i + 1..][j - i - 1] == subs[j];
  }

  /** Two positions of a permutation of a table with unique codes hold different codes. */
  lemma PermutedPairDistinct(rows: seq<SubjectRow>, subs: seq<SubjectRow>, i: int, j: int)
    requires CodesDistinct(rows) && multiset(subs) == multiset(rows)
    requires 0 <= i < j < |subs|
    ensures subs[i].code != subs[j].code
  {
    if subs[i].code == subs[j].code {
      assert subs[i] in multiset(rows) && subs[j] in multiset(rows);
      var p :| 0 <= p < |rows| && rows[p] == subs[i];
      var q :| 0 <= q < |rows| && rows[q] == subs[j];
      assert rows[p].code == rows[q].code;
      CountTwo(subs, i, j);
      AtMostOnce(rows, subs[i]);
      assert false;
    }
  }

  /** Sorting a table with unique codes keeps the codes distinct. */
  lemma SortedCodesDistinct(rows: seq<SubjectRow>)
    requires CodesDistinct(rows)
    ensures CodesDistinct(SortOn(rows, SubjectRowCode))
  {
    var subs := SortOn(rows, SubjectRowCode);
    forall i, j | 0 <= i < j < |subs|
      ensures subs[i].code != subs[j].code
    {
      PermutedPairDistinct(rows, subs, i, j);
    }
  }

  /** `getScoreDistribution` with any labels equals the relational
      reference: the histograms of the subjects with a non-negative score,
      ordered by code. */
  lemma DistributionWithIsReference(db: Db, labels: seq<string>)
    requires SubjectTableOk(db.subjects) && |labels| <= BucketCount
    ensures DistributionWith(db, labels) == ReferenceDistribution(SortOn(db.subjects.rows, SubjectRowCode), db.scores, labels)
  {
    assert CodesDistinct(db.subjects.rows);
    SortedCodesDistinct(db.subjects.rows);
    var subs := SortOn(db.subjects.rows, SubjectRowCode);
    GroupSqlRows([], subs, db.scores);
    assert [] + ExpectedGroups(subs, db.scores) == ExpectedGroups(subs, db.scores);
    ZeroFillExpected(subs, db.scores, labels);
  }

  /** `getScoreDistribution` equals the relational reference with the 20
      range labels. */
  lemma DistributionIsReference(db: Db)
    requires SubjectTableOk(db.subjects)
    ensures GetScoreDistribution(db) == ReferenceDistribution(SortOn(db.subjects.rows, SubjectRowCode), db.scores, RangeLabels)
  {
    RangeLabelsCount();
    DistributionWithIsReference(db, RangeLabels);
  }

  function SumCounts(es: seq<RangeCount>): nat
  {
    if |es| == 0 then 0 else es[0].count + SumCounts(es[1..])
  }

  lemma {:induction false} SumCountsIsSumBuckets(es: seq<RangeCount>, vals: seq<real>, i: nat)
    requires |es| == BucketCount && i <= BucketCount
    requires forall j :: 0 <= j < BucketCount ==> es[j].count == InBucket(vals, j)
    ensures SumCounts(es[i..]) == SumBuckets(vals, i)
    decreases BucketCount - i
  {
    if i < BucketCount {
      SumCountsIsSumBuckets(es, vals, i + 1);
      assert es[i..][1..] == es[i + 1..];
    }
  }

  lemma {:induction false} ReferenceMembers(subs: seq<SubjectRow>, scores: seq<ScoreRow>, labels: seq<string>)
    ensures forall d :: d in ReferenceDistribution(subs, scores, labels) <==>
      exists sub :: sub in subs && NonNegCount(ScoreRepository.Values(scores, sub.id)) > 0 && d == DistributionOf(sub, scores, labels)
    decreases |subs|
  {
    if |subs| > 0 {
      ReferenceMembers(subs[1..], scores, labels);
      assert subs == [subs[0]] + subs[1..];
    }
  }

  /** The histogram of one subject has one entry per bucket, in label order,
      entry `i` counting its scores in bucket `i`, and the entries add up to
      its number of non-negative scores. */
  lemma DistributionOfFacts(sub: SubjectRow, scores: seq<ScoreRow>)
    ensures var d := DistributionOf(sub, scores, RangeLabels);
      |d.distribution| == BucketCount && d.subjectCode == sub.code && d.subjectName == sub.name
      && (forall i :: 0 <= i < BucketCount ==>
            d.distribution[i] == RangeCount(RangeLabels[i], InBucket(ScoreRepository.Values(scores, sub.id), i)))
      && SumCounts(d.distribution) == NonNegCount(ScoreRepository.Values(scores, sub.id))
  {
    RangeLabelsCount();
    var d := DistributionOf(sub, scores, RangeLabels);
    var vals := ScoreRepository.Values(scores, sub.id);
    SumCountsIsSumBuckets(d.distribution, vals, 0);
    assert d.distribution[0..] == d.distribution;
    SumBucketsIsNonNegCount(vals);
  }

  /** Exactly the stored subjects with a non-negative score are listed, each
      with its full histogram. */
  lemma DistributionMembers(db: Db)
    requires SubjectTableOk(db.subjects)
    ensures forall d :: d in GetScoreDistribution(db) <==>
      exists sub :: sub in db.subjects.rows && NonNegCount(ScoreRepository.Values(db.scores, sub.id)) > 0
        && d == DistributionOf(sub, db.scores, RangeLabels)
  {
    var subs := SortOn(db.subjects.rows, SubjectRowCode);
    SortOnMembers(db.subjects.rows, SubjectRowCode);
    DistributionIsReference(db);
    ReferenceMembers(subs, db.scores, RangeLabels);
  }
}
