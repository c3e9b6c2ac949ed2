/** The immutable `Subject` entity (backend/src/subjects/entities/subject.entity.ts). */
module SubjectEntity {

  datatype Subject = Subject(id: int, code: string, name: string)

  /** What the API returns for a subject: code and name, never the id. */
  datatype SubjectDto = SubjectDto(code: string, name: string)

  /** `Subject.fromDatabase({ id, code, name })`. */
  function FromDatabase(id: int, code: string, name: string): Subject
  {
    Subject(id, code, name)
  }

  /** `Subject.create(code, name)`: a subject not yet stored, with id 0. */
  function Create(code: string, name: string): Subject
  {
    Subject(0, code, name)
  }

  function ToDto(s: Subject): SubjectDto
  {
    SubjectDto(s.code, s.name)
  }

  /** `equals`: subjects are the same subject exactly when their codes agree. */
  predicate Equals(a: Subject, b: Subject)
  {
    a.code == b.code
  }

  /** A loaded subject keeps its id, code and name, and differs from a created
      one with the same code and name only in its id. */
  lemma FromDatabasePreserves(id: int, code: string, name: string)
    ensures FromDatabase(id, code, name).id == id
    ensures FromDatabase(id, code, name).code == code
    ensures FromDatabase(id, code, name).name == name
    ensures Create(code, name) == FromDatabase(id, code, name).(id := 0)
  {
  }

  /** The DTO drops the id: two subjects have the same DTO exactly when their
      codes and names agree, whatever their ids. */
  lemma ToDtoForgetsId(a: Subject, b: Subject)
    ensures ToDto(a) == ToDto(b) <==> a.code == b.code && a.name == b.name
    ensures ToDto(a).code == a.code && ToDto(a).name == a.name
  {
  }

  /** `equals` ignores id and name and is an equivalence relation. */
  lemma EqualsIsEquivalence(a: Subject, b: Subject, c: Subject)
    ensures Equals(a, b) <==> ToDto(a).code == ToDto(b).code
    ensures Equals(a, a)
    ensures Equals(a, b) ==> Equals(b, a)
    ensures Equals(a, b) && Equals(b, c) ==> Equals(a, c)
    ensures Equals(a, a.(id := b.id, name := b.name))
  {
  }
}
