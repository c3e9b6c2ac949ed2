/** Subject queries (backend/src/subjects/repositories/subject.repository.ts)
    as pure functions of the subject table. */
module SubjectRepository {
  import opened Base
  import opened Database
  import SubjectEntity

  function RowCode(row: SubjectRow): string
  {
    row.code
  }

  function EntityCode(s: SubjectEntity.Subject): string
  {
    s.code
  }

  function Load(row: SubjectRow): SubjectEntity.Subject
  {
    SubjectEntity.FromDatabase(row.id, row.code, row.name)
  }

  function LoadAll(rows: seq<SubjectRow>): (r: seq<SubjectEntity.Subject>)
    ensures |r| == |rows|
    ensures forall i :: 0 <= i < |rows| ==> r[i] == Load(rows[i])
  {
    seq(|rows|, i requires 0 <= i < |rows| => Load(rows[i]))
  }

  /** `findAll`: every stored subject, ordered by code ascending. */
  function FindAll(db: Db): (r: seq<SubjectEntity.Subject>)
    ensures |r| == |db.subjects.rows|
    ensures SortedOn(r, EntityCode)
    ensures forall x :: x in r <==> exists i :: 0 <= i < |db.subjects.rows| && x == Load(db.subjects.rows[i])
  {
    var sorted := SortOn(db.subjects.rows, RowCode);
    var r := LoadAll(sorted);
    SortOnMembers(db.subjects.rows, RowCode);
    assert forall x :: x in r <==> exists i :: 0 <= i < |db.subjects.rows| && x == Load(db.subjects.rows[i]) by {
      forall x
        ensures x in r <==> exists i :: 0 <= i < |db.subjects.rows| && x == Load(db.subjects.rows[i])
      {
        if x in r {
          var k :| 0 <= k < |r| && r[k] == x;
          assert sorted[k] in db.subjects.rows;
          var i :| 0 <= i < |db.subjects.rows| && db.subjects.rows[i] == sorted[k];
        }
        if exists i :: 0 <= i < |db.subjects.rows| && x == Load(db.subjects.rows[i]) {
          var i :| 0 <= i < |db.subjects.rows| && x == Load(db.subjects.rows[i]);
          assert db.subjects.rows[i] in sorted;
          var k :| 0 <= k < |sorted| && sorted[k] == db.subjects.rows[i];
          assert r[k] == x;
        }
      }
    }
    assert forall i :: 0 <= i < |r| ==> EntityCode(r[i]) == RowCode(sorted[i]);
    r
  }

  /** `findByCode` (`findUnique` on the unique code). */
  function FindByCode(db: Db, code: string): (r: Option<SubjectEntity.Subject>)
    ensures r.None? <==> !HasCode(db.subjects.rows, code)
    ensures r.Some? ==> r.value.code == code
    ensures r.Some? ==> exists i :: 0 <= i < |db.subjects.rows| && r.value == Load(db.subjects.rows[i])
  {
    FindCodeIn(db.subjects.rows, code)
  }

  function FindCodeIn(rows: seq<SubjectRow>, code: string): (r: Option<SubjectEntity.Subject>)
    ensures r.None? <==> !HasCode(rows, code)
    ensures r.Some? ==> r.value.code == code
    ensures r.Some? ==> exists i :: 0 <= i < |rows| && r.value == Load(rows[i])
  {
    if |rows| == 0 then None
    else if rows[0].code == code then
      Some(Load(rows[0]))
    else
      var r := FindCodeIn(rows[1..], code);
      assert HasCode(rows, code) ==> HasCode(rows[1..], code) by {
        if HasCode(rows, code) {
          var i :| 0 <= i < |rows| && rows[i].code == code;
          assert rows[1..][i - 1] == rows[i];
        }
      }
      assert HasCode(rows[1..], code) ==> HasCode(rows, code) by {
        if HasCode(rows[1..], code) {
          var i :| 0 <= i < |rows[1..]| && rows[1..][i].code == code;
          assert rows[i + 1] == rows[1..][i];
        }
      }
      assert r.Some? ==> exists i :: 0 <= i < |rows| && r.value == Load(rows[i]) by {
        if r.Some? {
          var i :| 0 <= i < |rows[1..]| && r.value == Load(rows[1..][i]);
          assert rows[i + 1] == rows[1..][i];
        }
      }
      r
  }

  /** With unique codes the subject found is the one stored under that code,
      and it is the one `findAll` lists with that code. */
  lemma FindByCodeAgreesWithFindAll(db: Db, code: string)
    requires SubjectTableOk(db.subjects)
    ensures forall x :: x in FindAll(db) && x.code == code ==> FindByCode(db, code) == Some(x)
  {
    forall x | x in FindAll(db) && x.code == code
      ensures FindByCode(db, code) == Some(x)
    {
      var i :| 0 <= i < |db.subjects.rows| && x == Load(db.subjects.rows[i]);
      var r := FindByCode(db, code);
      var k :| 0 <= k < |db.subjects.rows| && r.value == Load(db.subjects.rows[k]);
      assert db.subjects.rows[i].code == db.subjects.rows[k].code;
    }
  }

  /** `findByCodes`: the stored subjects whose code is in the list, in table
      order (the query asks for no order). */
  function FindByCodes(db: Db, codes: seq<string>): (r: seq<SubjectEntity.Subject>)
    ensures forall x :: x in r <==> exists i :: 0 <= i < |db.subjects.rows| && db.subjects.rows[i].code in codes && x == Load(db.subjects.rows[i])
    ensures |r| <= |db.subjects.rows|
  {
    FilterCodes(db.subjects.rows, codes)
  }

  function FilterCodes(rows: seq<SubjectRow>, codes: seq<string>): (r: seq<SubjectEntity.Subject>)
    ensures forall x :: x in r <==> exists i :: 0 <= i < |rows| && rows[i].code in codes && x == Load(rows[i])
    ensures |r| <= |rows|
  {
    if |rows| == 0 then []
    else
      var rest := FilterCodes(rows[1..], codes);
      assert forall i :: 1 <= i < |rows| ==> rows[i] == rows[1..][i - 1];
      assert forall i :: 0 <= i < |rows[1..]| ==> rows[1..][i] == rows[i + 1];
      (if rows[0].code in codes then [Load(rows[0])] else []) + rest
  }

  /** Every subject `findByCodes` returns carries one of the requested codes,
      and every requested code that is stored is returned. */
  lemma FindByCodesExact(db: Db, codes: seq<string>)
    ensures forall x :: x in FindByCodes(db, codes) ==> x.code in codes && HasCode(db.subjects.rows, x.code)
    ensures forall c :: c in codes && HasCode(db.subjects.rows, c) ==>
      exists x :: x in FindByCodes(db, codes) && x.code == c
  {
    forall x | x in FindByCodes(db, codes)
      ensures x.code in codes && HasCode(db.subjects.rows, x.code)
    {
      var i :| 0 <= i < |db.subjects.rows| && db.subjects.rows[i].code in codes && x == Load(db.subjects.rows[i]);
    }
    forall c | c in codes && HasCode(db.subjects.rows, c)
      ensures exists x :: x in FindByCodes(db, codes) && x.code == c
    {
      var i :| 0 <= i < |db.subjects.rows| && db.subjects.rows[i].code == c;
      assert Load(db.subjects.rows[i]) in FindByCodes(db, codes);
    }
  }

  /** `getCodeMap`: `map.set(subject.code, subject)` over `findAll`. */
  function CodeMapOf(subjects: seq<SubjectEntity.Subject>): (m: map<string, SubjectEntity.Subject>)
    ensures forall c :: c in m <==> exists i :: 0 <= i < |subjects| && subjects[i].code == c
    ensures forall c :: c in m ==> m[c].code == c && m[c] in subjects
  {
    if |subjects| == 0 then map[]
    else
      var init := subjects[..|subjects| - 1];
      var last := subjects[|subjects| - 1];
      var m := CodeMapOf(init);
      assert forall i :: 0 <= i < |init| ==> init[i] == subjects[i];
      m[last.code := last]
  }

  function GetCodeMap(db: Db): (m: map<string, SubjectEntity.Subject>)
    ensures forall c :: c in m <==> HasCode(db.subjects.rows, c)
  {
    var all := FindAll(db);
    var m := CodeMapOf(all);
    assert forall c :: c in m <==> HasCode(db.subjects.rows, c) by {
      forall c
        ensures c in m <==> HasCode(db.subjects.rows, c)
      {
        if c in m {
          var i :| 0 <= i < |all| && all[i].code == c;
          assert all[i] in all;
          var k :| 0 <= k < |db.subjects.rows| && all[i] == Load(db.subjects.rows[k]);
        }
        if HasCode(db.subjects.rows, c) {
          var k :| 0 <= k < |db.subjects.rows| && db.subjects.rows[k].code == c;
          assert Load(db.subjects.rows[k]) in all;
        }
      }
    }
    m
  }

  /** The map's keys are exactly the codes `findAll` returns, and with unique
      codes each key maps to the stored subject with that code. */
  lemma GetCodeMapMatchesFindAll(db: Db)
    requires SubjectTableOk(db.subjects)
    ensures forall c :: c in GetCodeMap(db) <==> exists x :: x in FindAll(db) && x.code == c
    ensures forall c :: c in GetCodeMap(db) ==> FindByCode(db, c) == Some(GetCodeMap(db)[c])
  {
    var m := GetCodeMap(db);
    var all := FindAll(db);
    forall c
      ensures c in m <==> exists x :: x in all && x.code == c
    {
      if exists x :: x in all && x.code == c {
        var x :| x in all && x.code == c;
        var k :| 0 <= k < |db.subjects.rows| && x == Load(db.subjects.rows[k]);
      }
      if c in m {
        assert m[c] in all;
      }
    }
    FindByCodeAgreesWithFindAll(db, "");
    forall c | c in m
      ensures FindByCode(db, c) == Some(m[c])
    {
      assert m[c] in all && m[c].code == c;
      FindByCodeAgreesWithFindAll(db, c);
    }
  }
}
