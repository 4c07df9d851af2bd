/** Which students a lecture is addressed to: the roll's database query and the
    scan path's comparison, and why they agree. */
module Cohort {
  import opened Prelude
  import opened Text

  /** The academic address a lecture is taught to. */
  datatype Address = Address(faculty: string, department: string, level: int, semester: int, section: string)

  datatype Profile = Profile(
    userId: UserId, org: OrgId, isStudent: bool, isActive: bool,
    faculty: Option<string>, department: Option<string>, level: Option<int>,
    semester: Option<string>, section: Option<string>)

  datatype Field = Faculty | Department | Level | Semester | Section

  datatype Resolution =
    | Resolved(criteria: Address)
    | MissingFields(fields: seq<Field>)
    | UnreadableSemester

  /** Reads a profile's free-text semester as 1 or 2, or not at all. */
  type SemesterReader = string -> Option<int>

  ghost predicate ReadsNothingFromBlank(read: SemesterReader) {
    forall s :: Trim(s) == "" ==> read(s) == None
  }

  function ReadSemester(read: SemesterReader, text: Option<string>): Option<int> {
    if text.None? then None else read(text.value)
  }

  /* ------------------------------- The roll ------------------------------- */

  predicate SameStoredText(stored: Option<string>, value: string) {
    stored.Some? && Fold(stored.value) == Fold(Trim(value))
  }

  predicate CohortWhere(p: Profile, org: OrgId, a: Address) {
    && SameStoredText(p.faculty, a.faculty)
    && SameStoredText(p.department, a.department)
    && SameStoredText(p.section, a.section)
    && p.level == Some(a.level)
    && p.org == org && p.isStudent && p.isActive
  }

  /** findCohort, narrowed by semester and tenant. */
  predicate OnRoll(read: SemesterReader, p: Profile, org: OrgId, a: Address) {
    CohortWhere(p, org, a) && ReadSemester(read, p.semester) == Some(a.semester) && p.org == org
  }

  function Roll(read: SemesterReader, students: seq<Profile>, org: OrgId, a: Address): (r: seq<UserId>)
    ensures forall u :: u in r <==> exists p :: p in students && OnRoll(read, p, org, a) && p.userId == u
  {
    if students == [] then []
    else
      var rest := Roll(read, students[1..], org, a);
      if OnRoll(read, students[0], org, a) then [students[0].userId] + rest else rest
  }

  /** The unique constraint on the student profiles' user. */
  ghost predicate OneProfileEach(students: seq<Profile>) {
    forall i, j :: 0 <= i < j < |students| ==> students[i].userId != students[j].userId
  }

  lemma {:induction false} RollIsDistinct(read: SemesterReader, students: seq<Profile>, org: OrgId, a: Address)
    requires OneProfileEach(students)
    ensures NoDuplicates(Roll(read, students, org, a))
  {
    if students != [] {
      var rest := Roll(read, students[1..], org, a);
      assert students[0].userId !in rest;
      RollIsDistinct(read, students[1..], org, a);
      assert NoDuplicates([students[0].userId] + rest);
    }
  }

  /* ------------------------------- The scan ------------------------------- */

  predicate IsFilled(text: Option<string>) {
    text.Some? && Trim(text.value) != ""
  }

  function Missing(p: Profile): seq<Field> {
    (if IsFilled(p.faculty) then [] else [Faculty])
    + (if IsFilled(p.department) then [] else [Department])
    + (if p.level.Some? then [] else [Level])
    + (if IsFilled(p.semester) then [] else [Semester])
    + (if IsFilled(p.section) then [] else [Section])
  }

  function ResolveCohort(read: SemesterReader, profile: Option<Profile>): Resolution {
    if profile.None? then MissingFields([Faculty, Department, Level, Semester, Section])
    else
      var p := profile.value;
      if Missing(p) != [] then MissingFields(Missing(p))
      else
        var semester := ReadSemester(read, p.semester);
        if semester.None? then UnreadableSemester
        else Resolved(Address(p.faculty.value, p.department.value, p.level.value, semester.value, p.section.value))
  }

  predicate SameText(a: string, b: string) {
    Fold(Trim(a)) == Fold(Trim(b))
  }

  predicate CohortMatches(a: Address, criteria: Address) {
    && SameText(a.faculty, criteria.faculty)
    && SameText(a.department, criteria.department)
    && SameText(a.section, criteria.section)
    && a.level == criteria.level && a.semester == criteria.semester
  }

  predicate MayScan(read: SemesterReader, profile: Option<Profile>, a: Address) {
    var r := ResolveCohort(read, profile);
    r.Resolved? && CohortMatches(a, r.criteria)
  }

  /* ------------------------------ Agreement ------------------------------- */

  /** What the schedule validator guarantees of the three free-text fields. */
  predicate Validated(a: Address) {
    Trim(a.faculty) != "" && Trim(a.department) != "" && Trim(a.section) != ""
  }

  predicate NoSurroundingSpaces(p: Profile) {
    && p.faculty.Some? && IsTrimmed(p.faculty.value)
    && p.department.Some? && IsTrimmed(p.department.value)
    && p.section.Some? && IsTrimmed(p.section.value)
  }

  /** One field: the query's comparison is the scan's comparison plus "the
      stored text has no surrounding blanks". */
  lemma StoredTextMatchesIff(stored: string, value: string)
    ensures SameStoredText(Some(stored), value) <==> IsTrimmed(stored) && SameText(value, stored)
    ensures SameStoredText(Some(stored), value) && Trim(value) != "" ==> Trim(stored) != ""
  {
    var wanted := Trim(value);
    TrimFixesExactlyTrimmedText(value);
    TrimFixesExactlyTrimmedText(wanted);
    TrimFixesExactlyTrimmedText(stored);
    FoldCommutesWithTrim(wanted);
    FoldCommutesWithTrim(stored);
    if Fold(stored) == Fold(wanted) {
      assert Fold(Trim(stored)) == Fold(stored);
      assert |Trim(stored)| == |Fold(Trim(stored))| == |Fold(stored)| == |stored|;
    }
  }

  /** The people a lecture's roll is called on are exactly the active students
      of its organization who pass the scan check and whose profile text carries
      no surrounding blanks. In particular nobody can be marked absent from a
      lecture they would have been refused at the door of. */
  lemma RollIsTheScannableCohort(read: SemesterReader, p: Profile, org: OrgId, a: Address)
    requires ReadsNothingFromBlank(read) && Validated(a)
    ensures OnRoll(read, p, org, a) <==>
      && MayScan(read, Some(p), a)
      && p.isStudent && p.isActive && p.org == org
      && NoSurroundingSpaces(p)
  {
    if p.faculty.Some? { StoredTextMatchesIff(p.faculty.value, a.faculty); }
    if p.department.Some? { StoredTextMatchesIff(p.department.value, a.department); }
    if p.section.Some? { StoredTextMatchesIff(p.section.value, a.section); }
    if OnRoll(read, p, org, a) {
      assert IsFilled(p.semester);
      assert Missing(p) == [];
    }
    if MayScan(read, Some(p), a) {
      assert Missing(p) == [];
    }
  }
}
