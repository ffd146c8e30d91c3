/**
 * The per-course rule of the current engine: turning a catalogue row into a course fact,
 * the short-circuit chain that decides whether the course is eligible for a student,
 * and the reason attached to an eligible course.
 */
module Eligibility {
  import opened Wrappers
  import opened Text
  import opened KnowledgeBase
  import opened SeqUtil

  /** A catalogue row as the engine holds it: requisite fields parsed into code lists. */
  datatype CourseFact = CourseFact(
    code: string,
    name: string,
    prerequisites: seq<string>,
    corequisites: seq<string>,
    credits: int,
    semesterOffered: string,
    track: string,
    level: int)

  /** The student fact: CGPA, passed and failed codes, target semester and track. */
  datatype Student = Student(
    cgpa: real,
    passed: seq<string>,
    failed: seq<string>,
    semester: string,
    track: string)

  /** Why an eligible course is proposed; `Message` is the exact sentence shown to the student. */
  datatype Reason =
    | Prioritized(code: string)
    | AfterPrerequisite(code: string, prerequisite: string)
    | Recommended(code: string)
  {
    function Message(): (m: string)
      ensures |m| > |code| && m[..|code|] == code
    {
      match this
      case Prioritized(c) => c + " is prioritized because you failed it previously."
      case AfterPrerequisite(c, p) => c + " is recommended because you passed " + p + ", its prerequisite."
      case Recommended(c) => c + " is recommended."
    }
  }

  /** The fact declared for a course that passes every check. */
  datatype EligibleCourse = EligibleCourse(code: string, credits: int, level: int, reason: Reason)

  /** The pieces that are not blank (`if c.strip()`), kept exactly as written, in order. */
  function NonBlank(pieces: seq<string>): (r: seq<string>)
    ensures |r| <= |pieces|
  {
    if |pieces| == 0 then []
    else (if Strip(pieces[0]) != "" then [pieces[0]] else []) + NonBlank(pieces[1..])
  }

  lemma {:induction false} NonBlankMembers(pieces: seq<string>)
    ensures forall p :: p in NonBlank(pieces) <==> p in pieces && Strip(p) != ""
  {
    if |pieces| > 0 {
      NonBlankMembers(pieces[1..]);
      assert forall q :: q in pieces <==> q == pieces[0] || q in pieces[1..];
    }
  }

  /** Nothing is dropped when no piece is blank. */
  lemma {:induction false} NonBlankKeepsAll(pieces: seq<string>)
    requires forall p :: p in pieces ==> Strip(p) != ""
    ensures NonBlank(pieces) == pieces
  {
    if |pieces| > 0 {
      NonBlankKeepsAll(pieces[1..]);
    }
  }

  /** Two non-blank pieces are both kept, unstripped. */
  lemma NonBlankTwo(p: string, q: string)
    requires Strip(p) != "" && Strip(q) != ""
    ensures NonBlank([p, q]) == [p, q]
  {
    NonBlankKeepsAll([p, q]);
  }

  /** `NonBlank` is the filter that keeps the pieces that are not blank. */
  lemma {:induction false} NonBlankIsFilter(pieces: seq<string>)
    ensures NonBlank(pieces) == Filter(pieces, p => Strip(p) != "")
  {
    if |pieces| > 0 {
      NonBlankIsFilter(pieces[1..]);
    }
  }

  /** Filtering a concatenation filters each part: the kept pieces keep the cell's order and count. */
  lemma NonBlankAppend(a: seq<string>, b: seq<string>)
    ensures NonBlank(a + b) == NonBlank(a) + NonBlank(b)
  {
    NonBlankIsFilter(a);
    NonBlankIsFilter(b);
    NonBlankIsFilter(a + b);
    FilterAppend(a, b, p => Strip(p) != "");
  }

  /** The first piece kept is the first piece of the cell that is not blank. */
  lemma NonBlankFirst(pieces: seq<string>, k: nat)
    requires k < |pieces| && Strip(pieces[k]) != ""
    requires forall j :: 0 <= j < k ==> Strip(pieces[j]) == ""
    ensures NonBlank(pieces) != [] && NonBlank(pieces)[0] == pieces[k]
  {
    NonBlankIsFilter(pieces);
    FilterFirst(pieces, p => Strip(p) != "", k);
  }

  /**
   * `[c.strip() for c in pieces if c.strip()]`: one code per piece that is not blank,
   * in order, each the stripped form of that piece.
   */
  function CleanCodes(pieces: seq<string>): (r: seq<string>)
    ensures |r| == |NonBlank(pieces)|
    ensures forall i :: 0 <= i < |r| ==> r[i] == Strip(NonBlank(pieces)[i])
  {
    StripEach(NonBlank(pieces))
  }

  /** `[c.strip() for c in xs]`. */
  function StripEach(xs: seq<string>): (r: seq<string>)
    ensures |r| == |xs|
    ensures forall i :: 0 <= i < |xs| ==> r[i] == Strip(xs[i])
  {
    if |xs| == 0 then [] else [Strip(xs[0])] + StripEach(xs[1..])
  }

  /** A requisite field as a code list: split on ',', blanks dropped, each code stripped. */
  function ParseCodes(field: string): (r: seq<string>)
    ensures |r| == |NonBlank(Split(field, ','))|
    ensures forall i :: 0 <= i < |r| ==> r[i] == Strip(NonBlank(Split(field, ','))[i])
  {
    CleanCodes(Split(field, ','))
  }

  /** The parsed codes are exactly the non-blank stripped pieces. */
  lemma CleanCodesMembers(pieces: seq<string>)
    ensures forall p :: p in CleanCodes(pieces) <==> p != "" && exists q :: q in pieces && Strip(q) == p
  {
    var r, kept := CleanCodes(pieces), NonBlank(pieces);
    NonBlankMembers(pieces);
    forall p | p in r ensures p != "" && exists q :: q in pieces && Strip(q) == p {
      var i :| 0 <= i < |r| && r[i] == p;
      assert kept[i] in kept;
    }
    forall q | q in pieces && Strip(q) != "" ensures Strip(q) in r {
      assert q in kept;
      var i :| 0 <= i < |kept| && kept[i] == q;
      assert r[i] == Strip(q);
    }
  }

  /** The fact loaded for one catalogue row. */
  function FactOf(row: CourseRow): CourseFact {
    CourseFact(row.code, row.name, ParseCodes(row.prerequisites), ParseCodes(row.corequisites),
               row.credits, row.semesterOffered, row.track, row.level)
  }

  /** The levels of those passed codes that the catalogue knows (unknown codes are skipped). */
  function PassedLevels(catalog: seq<CourseRow>, passed: seq<string>): seq<int>
  {
    if |passed| == 0 then []
    else
      match GetCourse(catalog, passed[0])
      case Some(row) => [row.level] + PassedLevels(catalog, passed[1..])
      case None => PassedLevels(catalog, passed[1..])
  }

  ghost predicate FoundWithLevel(catalog: seq<CourseRow>, pc: string, x: int) {
    GetCourse(catalog, pc).Some? && GetCourse(catalog, pc).value.level == x
  }

  /** A level is listed exactly when some passed code is in the catalogue at that level. */
  lemma {:induction false} PassedLevelsMembers(catalog: seq<CourseRow>, passed: seq<string>)
    ensures forall x :: x in PassedLevels(catalog, passed) <==> exists pc :: pc in passed && FoundWithLevel(catalog, pc, x)
  {
    if |passed| > 0 {
      PassedLevelsMembers(catalog, passed[1..]);
      assert forall pc :: pc in passed <==> pc == passed[0] || pc in passed[1..];
      forall x ensures x in PassedLevels(catalog, passed) <==> exists pc :: pc in passed && FoundWithLevel(catalog, pc, x) {
        if x in PassedLevels(catalog, passed) {
          if GetCourse(catalog, passed[0]).Some? && x == GetCourse(catalog, passed[0]).value.level {
            assert FoundWithLevel(catalog, passed[0], x);
          } else {
            assert x in PassedLevels(catalog, passed[1..]);
          }
        }
        if exists pc :: pc in passed && FoundWithLevel(catalog, pc, x) {
          var pc :| pc in passed && FoundWithLevel(catalog, pc, x);
          if pc != passed[0] {
            assert pc in passed[1..];
          }
        }
      }
    }
  }

  /** `max(levels)`, or 0 for an empty list. */
  function MaxOrZero(levels: seq<int>): (m: int)
    ensures levels == [] ==> m == 0
    ensures levels != [] ==> m in levels && forall x :: x in levels ==> x <= m
  {
    if |levels| == 0 then 0
    else if |levels| == 1 then levels[0]
    else
      var rest := MaxOrZero(levels[1..]);
      assert forall x :: x in levels <==> x == levels[0] || x in levels[1..];
      if levels[0] >= rest then levels[0] else rest
  }

  /**
   * The student's current level: the highest catalogue level among the passed codes,
   * or 0 when no passed code is in the catalogue.
   */
  function CurrentLevel(catalog: seq<CourseRow>, passed: seq<string>): (r: int)
    ensures forall pc :: pc in passed && GetCourse(catalog, pc).Some? ==> GetCourse(catalog, pc).value.level <= r
    ensures (forall pc :: pc in passed ==> GetCourse(catalog, pc).None?) ==> r == 0
    ensures (exists pc :: pc in passed && GetCourse(catalog, pc).Some?) ==>
              exists pc :: pc in passed && FoundWithLevel(catalog, pc, r)
  {
    var levels := PassedLevels(catalog, passed);
    PassedLevelsMembers(catalog, passed);
    assert forall pc :: pc in passed && GetCourse(catalog, pc).Some? ==> GetCourse(catalog, pc).value.level in levels by {
      forall pc | pc in passed && GetCourse(catalog, pc).Some?
        ensures GetCourse(catalog, pc).value.level in levels
      {
        assert FoundWithLevel(catalog, pc, GetCourse(catalog, pc).value.level);
      }
    }
    MaxOrZero(levels)
  }

  /** The codes of `codes` that are not in `passed`, in order. */
  function Unmet(codes: seq<string>, passed: seq<string>): (r: seq<string>)
    ensures forall p :: p in r <==> p in codes && p !in passed
  {
    if |codes| == 0 then []
    else
      assert forall p :: p in codes <==> p == codes[0] || p in codes[1..];
      (if codes[0] in passed then [] else [codes[0]]) + Unmet(codes[1..], passed)
  }

  /** The reason attached to an eligible course. */
  function ChooseReason(fact: CourseFact, failed: seq<string>, retake: bool): (r: Reason)
    ensures r.code == fact.code
    ensures r.Prioritized? <==> fact.code in failed && retake
    ensures r.AfterPrerequisite? <==> !(fact.code in failed && retake) && fact.prerequisites != []
    ensures r.AfterPrerequisite? ==> r.prerequisite == fact.prerequisites[0]
  {
    if fact.code in failed && retake then Prioritized(fact.code)
    else if fact.prerequisites != [] then AfterPrerequisite(fact.code, fact.prerequisites[0])
    else Recommended(fact.code)
  }

  /**
   * The rule fired once per course fact: not already passed, offered this semester or in
   * both, on the student's track or 'All', every prerequisite and corequisite passed,
   * and at most one level above the student's current level.
   */
  function Evaluate(fact: CourseFact, s: Student, catalog: seq<CourseRow>, retake: bool): (r: Option<EligibleCourse>)
    ensures r.Some? <==>
              && fact.code !in s.passed
              && (fact.semesterOffered == s.semester || fact.semesterOffered == "Both")
              && (fact.track == s.track || fact.track == "All")
              && (forall p :: p in fact.prerequisites ==> p in s.passed)
              && (forall c :: c in fact.corequisites ==> c in s.passed)
              && fact.level <= CurrentLevel(catalog, s.passed) + 1
    ensures r.Some? ==> r.value == EligibleCourse(fact.code, fact.credits, fact.level, ChooseReason(fact, s.failed, retake))
  {
    if fact.code in s.passed then None
    else if fact.semesterOffered !in [s.semester, "Both"] then None
    else if fact.track !in [s.track, "All"] then None
    else if Unmet(fact.prerequisites, s.passed) != [] then
      assert Unmet(fact.prerequisites, s.passed)[0] in Unmet(fact.prerequisites, s.passed);
      None
    else if Unmet(fact.corequisites, s.passed) != [] then
      assert Unmet(fact.corequisites, s.passed)[0] in Unmet(fact.corequisites, s.passed);
      None
    else if fact.level > CurrentLevel(catalog, s.passed) + 1 then None
    else Some(EligibleCourse(fact.code, fact.credits, fact.level, ChooseReason(fact, s.failed, retake)))
  }

  /**
   * The prerequisite a reason names is the first non-blank piece of the row's cell,
   * stripped: the parse keeps the cell's order.
   */
  lemma ReasonNamesFirstListedPrerequisite(row: CourseRow, s: Student, catalog: seq<CourseRow>, retake: bool)
    requires Evaluate(FactOf(row), s, catalog, retake).Some?
    requires !(row.code in s.failed && retake)
    requires NonBlank(Split(row.prerequisites, ',')) != []
    ensures Evaluate(FactOf(row), s, catalog, retake).value.reason ==
              AfterPrerequisite(row.code, Strip(NonBlank(Split(row.prerequisites, ','))[0]))
  {
    var fact := FactOf(row);
    assert fact.prerequisites == ParseCodes(row.prerequisites);
    assert fact.prerequisites[0] == Strip(NonBlank(Split(row.prerequisites, ','))[0]);
    assert ChooseReason(fact, s.failed, retake) == AfterPrerequisite(row.code, fact.prerequisites[0]);
  }

  /**
   * The prerequisite a reason names is the cell's first piece `k` that is not blank,
   * stripped (`prereqs[0]` after the parse).
   */
  lemma ReasonNamesFirstNonBlankPiece(row: CourseRow, s: Student, catalog: seq<CourseRow>, retake: bool, k: nat)
    requires Evaluate(FactOf(row), s, catalog, retake).Some?
    requires !(row.code in s.failed && retake)
    requires k < |Split(row.prerequisites, ',')| && Strip(Split(row.prerequisites, ',')[k]) != ""
    requires forall j :: 0 <= j < k ==> Strip(Split(row.prerequisites, ',')[j]) == ""
    ensures Evaluate(FactOf(row), s, catalog, retake).value.reason ==
              AfterPrerequisite(row.code, Strip(Split(row.prerequisites, ',')[k]))
  {
    NonBlankFirst(Split(row.prerequisites, ','), k);
    ReasonNamesFirstListedPrerequisite(row, s, catalog, retake);
  }

  /** The eligible-course facts the rule declares for `rows`, in row order. */
  function EligibleAmong(rows: seq<CourseRow>, s: Student, catalog: seq<CourseRow>, retake: bool): seq<EligibleCourse>
  {
    FilterSome(rows, row => Evaluate(FactOf(row), s, catalog, retake))
  }

  ghost predicate Declares(row: CourseRow, s: Student, catalog: seq<CourseRow>, retake: bool, e: EligibleCourse) {
    Evaluate(FactOf(row), s, catalog, retake) == Some(e)
  }

  /** A declared fact carries its row's code, and that code is not passed. */
  lemma DeclaredFactIsRowsCode(row: CourseRow, s: Student, catalog: seq<CourseRow>, retake: bool, e: EligibleCourse)
    requires Declares(row, s, catalog, retake, e)
    ensures e.code == row.code && e.code !in s.passed
  {
  }

  /** A fact is declared exactly when some row evaluates to it. */
  lemma EligibleAmongMembers(rows: seq<CourseRow>, s: Student, catalog: seq<CourseRow>, retake: bool)
    ensures forall e :: e in EligibleAmong(rows, s, catalog, retake) <==> exists row :: row in rows && Declares(row, s, catalog, retake, e)
  {
    FilterSomeMembers(rows, row => Evaluate(FactOf(row), s, catalog, retake));
  }

  /** Every eligible-course fact declared in one run over the catalogue. */
  function EligibleFacts(catalog: seq<CourseRow>, s: Student, retake: bool): seq<EligibleCourse> {
    EligibleAmong(catalog, s, catalog, retake)
  }

  /**
   * What reading the fact store gives: each declared fact once (the store keeps no
   * duplicates), in an order the library does not fix.
   */
  ghost predicate FactStoreView(gathered: seq<EligibleCourse>, declared: seq<EligibleCourse>) {
    && (forall i, j :: 0 <= i < j < |gathered| ==> gathered[i] != gathered[j])
    && (forall e :: e in gathered <==> e in declared)
  }
}
