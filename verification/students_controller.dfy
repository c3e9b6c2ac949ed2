/** The student endpoints (backend/src/students/students.controller.ts): the
    registration-number validation in front of the score lookup, and the limit
    clamping in front of the group-A ranking. The `limit` query parameter
    arrives already parsed by `ParseIntPipe`; `None` is an absent parameter. */
module StudentsController {
  import opened Base
  import opened Database
  import StudentEntity
  import StudentRepository
  import StudentsService

  // ---- GET /students/:sbd/scores ------------------------------------------

  /** The characters `String.prototype.trim` removes: ECMAScript WhiteSpace
      (tab, vertical tab, form feed, the byte order mark and every space
      separator) and LineTerminator (line feed, carriage return, line and
      paragraph separators). */
  predicate IsJsSpace(c: char)
  {
    c == '\t' || c == '\n' || c == '\U{000B}' || c == '\U{000C}' || c == '\r' || c == ' '
    || c == '\U{00A0}' || c == '\U{1680}' || ('\U{2000}' <= c <= '\U{200A}')
    || c == '\U{2028}' || c == '\U{2029}' || c == '\U{202F}' || c == '\U{205F}'
    || c == '\U{3000}' || c == '\U{FEFF}'
  }

  predicate AllSpaces(s: string)
  {
    forall k :: 0 <= k < |s| ==> IsJsSpace(s[k])
  }

  /** The number of whitespace characters `s` starts with. */
  function LeadingSpaces(s: string): (n: nat)
    ensures n <= |s|
    ensures forall k :: 0 <= k < n ==> IsJsSpace(s[k])
    ensures n < |s| ==> !IsJsSpace(s[n])
  {
    if |s| == 0 || !IsJsSpace(s[0]) then 0 else 1 + LeadingSpaces(s[1..])
  }

  /** The number of whitespace characters `s` ends with. */
  function TrailingSpaces(s: string): (n: nat)
    ensures n <= |s|
    ensures forall k :: |s| - n <= k < |s| ==> IsJsSpace(s[k])
    ensures n < |s| ==> !IsJsSpace(s[|s| - n - 1])
  {
    if |s| == 0 || !IsJsSpace(s[|s| - 1]) then 0 else 1 + TrailingSpaces(s[..|s| - 1])
  }

  /** `sbd.trim()`: the part of `s` between its leading and its trailing
      whitespace. Only whitespace is removed, and the result neither starts
      nor ends with whitespace. */
  function Trim(s: string): (r: string)
    ensures |r| > 0 ==> !IsJsSpace(r[0]) && !IsJsSpace(r[|r| - 1])
    ensures LeadingSpaces(s) + |r| <= |s| && r == s[LeadingSpaces(s)..LeadingSpaces(s) + |r|]
    ensures forall k :: 0 <= k < |s| && !(LeadingSpaces(s) <= k < LeadingSpaces(s) + |r|) ==> IsJsSpace(s[k])
    ensures |r| == 0 <==> AllSpaces(s)
  {
    var a := LeadingSpaces(s);
    var t := s[a..];
    var b := TrailingSpaces(t);
    assert forall k :: a + |t| - b <= k < |s| ==> s[k] == t[k - a];
    t[..|t| - b]
  }

  /** Whitespace on either side of a word that neither starts nor ends with
      whitespace is exactly what `trim` removes. */
  lemma TrimPadded(pre: string, w: string, post: string)
    requires AllSpaces(pre) && AllSpaces(post)
    requires |w| > 0 ==> !IsJsSpace(w[0]) && !IsJsSpace(w[|w| - 1])
    ensures Trim(pre + w + post) == w
  {
    var s := pre + w + post;
    if |w| == 0 {
      assert forall k :: 0 <= k < |s| ==> s[k] == (if k < |pre| then pre[k] else post[k - |pre|]);
    } else {
      assert s == pre + (w + post);
      LeadingOf(pre, w + post);
      assert s[|pre|..] == w + post;
      TrailingOf(w, post);
      assert (w + post)[..|w|] == w;
    }
  }

  lemma {:induction false} LeadingOf(pre: string, rest: string)
    requires AllSpaces(pre)
    requires |rest| > 0 && !IsJsSpace(rest[0])
    ensures LeadingSpaces(pre + rest) == |pre|
    decreases |pre|
  {
    if |pre| > 0 {
      assert (pre + rest)[1..] == pre[1..] + rest;
      LeadingOf(pre[1..], rest);
    } else {
      assert pre + rest == rest;
    }
  }

  lemma {:induction false} TrailingOf(body: string, post: string)
    requires AllSpaces(post)
    requires |body| > 0 && !IsJsSpace(body[|body| - 1])
    ensures TrailingSpaces(body + post) == |post|
    decreases |post|
  {
    var s := body + post;
    if |post| > 0 {
      assert s[..|s| - 1] == body + post[..|post| - 1];
      TrailingOf(body, post[..|post| - 1]);
    } else {
      assert s == body;
    }
  }

  /** Trimming twice is trimming once. */
  lemma TrimIdempotent(s: string)
    ensures Trim(Trim(s)) == Trim(s)
  {
    TrimPadded([], Trim(s), []);
    assert [] + Trim(s) + [] == Trim(s);
  }

  /** `/^[0-9]+$/`: one or more decimal digits and nothing else. */
  predicate IsDigits(s: string)
  {
    |s| > 0 && forall k :: 0 <= k < |s| ==> '0' <= s[k] <= '9'
  }

  const SbdLength: nat := 8

  /** `String.prototype.length`: the number of UTF-16 code units, so a
      character outside the Basic Multilingual Plane counts twice. */
  function Utf16Length(s: string): (n: nat)
    ensures |s| <= n <= 2 * |s|
    ensures (forall k :: 0 <= k < |s| ==> s[k] < '\U{10000}') ==> n == |s|
    ensures (forall k :: 0 <= k < |s| ==> s[k] >= '\U{10000}') ==> n == 2 * |s|
  {
    if |s| == 0 then 0 else (if s[0] < '\U{10000}' then 1 else 2) + Utf16Length(s[1..])
  }

  /** Why a registration number is refused with `BadRequestException`. */
  datatype Rejection = EmptySbd | WrongLength | NotDigits

  datatype SbdCheck = Accepted(sbd: string) | Rejected(reason: Rejection)

  /** The three checks on the trimmed parameter, in the order the handler
      makes them; the first that fails is reported. The length is counted
      in UTF-16 code units, as `.length` counts it. */
  function CheckSbd(raw: string): (r: SbdCheck)
    ensures r.Accepted? <==> |Trim(raw)| == SbdLength && IsDigits(Trim(raw))
    ensures r.Accepted? ==> r.sbd == Trim(raw)
    ensures r == Rejected(EmptySbd) <==> AllSpaces(raw)
    ensures r == Rejected(WrongLength) <==> !AllSpaces(raw) && Utf16Length(Trim(raw)) != SbdLength
    ensures r == Rejected(NotDigits) <==> Utf16Length(Trim(raw)) == SbdLength && !IsDigits(Trim(raw))
  {
    var t := Trim(raw);
    if |t| == 0 then Rejected(EmptySbd)
    else if Utf16Length(t) != SbdLength then Rejected(WrongLength)
    else if !IsDigits(t) then Rejected(NotDigits)
    else Accepted(t)
  }

  /** Surrounding whitespace never changes the verdict: eight digits with any
      whitespace around them are accepted as those eight digits. */
  lemma PaddedSbdAccepted(pre: string, sbd: string, post: string)
    requires AllSpaces(pre) && AllSpaces(post)
    requires |sbd| == SbdLength && IsDigits(sbd)
    ensures CheckSbd(pre + sbd + post) == Accepted(sbd)
  {
    assert !IsJsSpace(sbd[0]) && !IsJsSpace(sbd[|sbd| - 1]);
    TrimPadded(pre, sbd, post);
  }

  /** Four characters outside the Basic Multilingual Plane are eight code
      units long: they pass the length check and fail the digit check. */
  lemma AstralCharsPassLengthCheck()
    ensures CheckSbd("\U{1F600}\U{1F600}\U{1F600}\U{1F600}") == Rejected(NotDigits)
  {
    var w := "\U{1F600}\U{1F600}\U{1F600}\U{1F600}";
    TrimPadded([], w, []);
    assert [] + w + [] == w;
    assert Utf16Length(w) == 8;
  }

  datatype Reply = Sent(dto: StudentEntity.StudentDto) | BadRequest(reason: Rejection) | NotFound(sbd: string)

  /** `getScoresBySbd`: validation first; only an accepted, trimmed number
      reaches the lookup. */
  function GetScoresBySbd(db: Db, raw: string): (r: Reply)
    ensures r.BadRequest? <==> CheckSbd(raw).Rejected?
    ensures !r.BadRequest? ==> |Trim(raw)| == SbdLength && IsDigits(Trim(raw))
    ensures r.NotFound? <==> CheckSbd(raw).Accepted? && !HasSbd(db.students.rows, Trim(raw))
    ensures r.NotFound? ==> r.sbd == Trim(raw)
    ensures r.Sent? ==> r.dto.sbd == Trim(raw) && HasSbd(db.students.rows, Trim(raw))
  {
    match CheckSbd(raw)
    case Rejected(reason) => BadRequest(reason)
    case Accepted(sbd) =>
      match StudentsService.FindScoresBySbd(db, sbd)
      case NotFound(x) => NotFound(x)
      case Found(dto) => Sent(dto)
  }

  /** A stored student's scores are found whatever whitespace surrounds the
      number in the path, and the answer is the service's for that number. */
  lemma PaddedLookup(db: Db, pre: string, sbd: string, post: string)
    requires AllSpaces(pre) && AllSpaces(post)
    requires |sbd| == SbdLength && IsDigits(sbd)
    ensures GetScoresBySbd(db, pre + sbd + post) == GetScoresBySbd(db, sbd)
    ensures HasSbd(db.students.rows, sbd) ==> GetScoresBySbd(db, pre + sbd + post) == Sent(StudentsService.FindScoresBySbd(db, sbd).dto)
  {
    PaddedSbdAccepted(pre, sbd, post);
    PaddedSbdAccepted([], sbd, []);
    assert [] + sbd + [] == sbd;
  }

  // ---- GET /students/top/group-a ------------------------------------------

  const DefaultLimit: int := 10

  /** `limit && limit > 0 && limit <= 100 ? limit : 10`: an absent or zero
      limit (falsy) and one out of range fall back to 10. */
  function ClampLimit(limit: Option<int>): (v: int)
    ensures StudentsService.MinLimit <= v <= StudentsService.MaxLimit
    ensures limit.Some? && StudentsService.MinLimit <= limit.value <= StudentsService.MaxLimit ==> v == limit.value
    ensures limit.None? || limit.value < StudentsService.MinLimit || limit.value > StudentsService.MaxLimit ==> v == DefaultLimit
  {
    if limit.Some? && limit.value != 0 && limit.value > 0 && limit.value <= 100 then limit.value else DefaultLimit
  }

  /** `getTopGroupA`: the service's ranking for the clamped limit, which the
      service never rejects. */
  function GetTopGroupA(db: Db, limit: Option<int>): (r: StudentsService.Ranking)
    ensures r.Ranked?
    ensures |r.rows| <= ClampLimit(limit) <= StudentsService.MaxLimit
    ensures SortedDescOn(r.rows, StudentRepository.Total)
    ensures StudentRepository.FindTopGroupA(db, ClampLimit(limit)) == Some(r.rows)
  {
    StudentsService.GetTopGroupA(db, ClampLimit(limit))
  }
}
