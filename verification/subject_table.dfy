/** The fixed subject list seeded by the import script and the table that
    maps each CSV score column to its subject code (backend/scripts/subjects.js). */
module SubjectTable {
  import opened Database

  /** `SUBJECTS`, in declaration order: the payload of the subject insert. */
  const Subjects: seq<NewSubject> := [
    NewSubject("TOAN", "Toán"),
    NewSubject("NGU_VAN", "Ngữ văn"),
    NewSubject("NGOAI_NGU", "Ngoại ngữ"),
    NewSubject("VAT_LI", "Vật lí"),
    NewSubject("HOA_HOC", "Hoá học"),
    NewSubject("SINH_HOC", "Sinh học"),
    NewSubject("LICH_SU", "Lịch sử"),
    NewSubject("DIA_LI", "Địa lí"),
    NewSubject("GDCD", "Giáo dục Công dân")
  ]

  /** `SUBJECT_MAP` as (CSV column, subject code) pairs, in the key order a
      `for ... in` loop visits them. */
  const SubjectMap: seq<(string, string)> := [
    ("toan", "TOAN"),
    ("ngu_van", "NGU_VAN"),
    ("ngoai_ngu", "NGOAI_NGU"),
    ("vat_li", "VAT_LI"),
    ("hoa_hoc", "HOA_HOC"),
    ("sinh_hoc", "SINH_HOC"),
    ("lich_su", "LICH_SU"),
    ("dia_li", "DIA_LI"),
    ("gdcd", "GDCD")
  ]

  predicate IsSeededCode(code: string)
  {
    exists i :: 0 <= i < |Subjects| && Subjects[i].code == code
  }

  /** ASCII lower-casing, the only case mapping the column names need. */
  function LowerChar(c: char): char
  {
    if 'A' <= c <= 'Z' then (c as int + 32) as char else c
  }

  function Lower(s: string): (r: string)
    ensures |r| == |s|
    ensures forall i :: 0 <= i < |s| ==> r[i] == LowerChar(s[i])
  {
    if |s| == 0 then "" else [LowerChar(s[0])] + Lower(s[1..])
  }

  /** The seeded codes are nine and pairwise distinct. */
  lemma SubjectsDistinct()
    ensures |Subjects| == 9
    ensures forall i, j :: 0 <= i < j < |Subjects| ==> Subjects[i].code != Subjects[j].code
  {
  }

  /** `SUBJECT_MAP` has nine keys, none repeated, and is injective. */
  lemma SubjectMapInjective()
    ensures |SubjectMap| == 9
    ensures forall i, j :: 0 <= i < j < |SubjectMap| ==> SubjectMap[i].0 != SubjectMap[j].0
    ensures forall i, j :: 0 <= i < j < |SubjectMap| ==> SubjectMap[i].1 != SubjectMap[j].1
  {
  }

  /** Every column's subject is seeded, and every seeded subject has a column. */
  lemma SubjectMapCoversSubjects()
    ensures forall i :: 0 <= i < |SubjectMap| ==> IsSeededCode(SubjectMap[i].1)
    ensures forall i :: 0 <= i < |Subjects| ==>
      exists j :: 0 <= j < |SubjectMap| && SubjectMap[j].1 == Subjects[i].code
  {
    SubjectMapAligned();
    forall i | 0 <= i < |SubjectMap|
      ensures IsSeededCode(SubjectMap[i].1)
    {
      assert Subjects[i].code == SubjectMap[i].1;
    }
    forall i | 0 <= i < |Subjects|
      ensures exists j :: 0 <= j < |SubjectMap| && SubjectMap[j].1 == Subjects[i].code
    {
      assert SubjectMap[i].1 == Subjects[i].code;
    }
  }

  /** Column `i` maps to the subject seeded `i`-th. */
  lemma SubjectMapAligned()
    ensures |SubjectMap| == |Subjects|
    ensures forall i :: 0 <= i < |SubjectMap| ==> SubjectMap[i].1 == Subjects[i].code
  {
    assert SubjectMap[0].1 == Subjects[0].code;
    assert SubjectMap[1].1 == Subjects[1].code;
    assert SubjectMap[2].1 == Subjects[2].code;
    assert SubjectMap[3].1 == Subjects[3].code;
    assert SubjectMap[4].1 == Subjects[4].code;
    assert SubjectMap[5].1 == Subjects[5].code;
    assert SubjectMap[6].1 == Subjects[6].code;
    assert SubjectMap[7].1 == Subjects[7].code;
    assert SubjectMap[8].1 == Subjects[8].code;
  }

  /** A string equals the lower-casing of another when they agree character by character. */
  lemma LowerByChars(col: string, code: string)
    requires |col| == |code|
    requires forall k :: 0 <= k < |code| ==> col[k] == LowerChar(code[k])
    ensures col == Lower(code)
  {
  }

  /** Each column key is the lower-case spelling of its subject code. */
  lemma ColumnIsLowerCode()
    ensures forall i :: 0 <= i < |SubjectMap| ==> SubjectMap[i].0 == Lower(SubjectMap[i].1)
  {
    forall i | 0 <= i < |SubjectMap|
      ensures SubjectMap[i].0 == Lower(SubjectMap[i].1)
    {
      var (col, code) := SubjectMap[i];
      assert |col| == |code|;
      forall k | 0 <= k < |code|
        ensures col[k] == LowerChar(code[k])
      {
      }
      LowerByChars(col, code);
    }
  }
}
