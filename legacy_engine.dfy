/**
 * The older advising engine: an object that owns its credit limit, its recommendation
 * list and its explanation list, three CGPA rules that set the limit, and one pass over
 * the catalogue rows that filters, explains and greedily admits them.
 */
module LegacyEngine {
  import opened Wrappers
  import opened Text
  import opened SeqUtil
  import opened KnowledgeBase

  /** A catalogue row as this engine reads it; a requisite cell is `None` when it is NaN. */
  datatype LegacyRow = LegacyRow(
    code: string,
    prerequisites: Option<string>,
    corequisites: Option<string>,
    credits: int,
    semesterOffered: string,
    level: int)

  /** One line of the explanation list; `Text` is the exact line the engine appends. */
  datatype Note =
    | LowBand
    | MidBand
    | HighBand
    | LevelTooHigh(code: string, courseLevel: int, studentLevel: int)
    | UnmetPrerequisites(code: string, field: string)
    | UnmetCorequisites(code: string, field: string)
    | PrioritizedRetake(code: string)
    | FitsAllRules(code: string)
  {
    function Text(): (t: string)
      ensures !(LowBand? || MidBand? || HighBand?) ==> |t| > |code| && t[..|code|] == code
    {
      match this
      case LowBand => "CGPA < 2.0 \U{2192} max 12 credits"
      case MidBand => "2.0 \U{2264} CGPA < 3.0 \U{2192} max 15 credits"
      case HighBand => "CGPA \U{2265} 3.0 \U{2192} max 18 credits"
      case LevelTooHigh(c, cl, sl) =>
        c + " skipped (Level " + IntToString(cl) + " too high for Level " + IntToString(sl) + " student)."
      case UnmetPrerequisites(c, f) => c + " not added due to unmet prerequisites: " + f
      case UnmetCorequisites(c, f) => c + " not added due to unmet co-requisites: " + f
      case PrioritizedRetake(c) => c + " prioritized as it was failed previously."
      case FitsAllRules(c) => c + " recommended (fits all rules)."
    }

    /** The notes written for a row that reached the explanation step. */
    predicate IsVerdict() {
      PrioritizedRetake? || FitsAllRules?
    }
  }

  // ---------------------------------------------------------------------------------
  // The credit limit rules

  /** The limit the three CGPA rules set: 12 below 2.0, 15 from 2.0 below 3.0, 18 from 3.0. */
  function CreditLimitFor(cgpa: real): int {
    if cgpa < 2.0 then 12 else if cgpa < 3.0 then 15 else 18
  }

  /** The note the rule that fires for `cgpa` appends. */
  function BandNote(cgpa: real): Note {
    if cgpa < 2.0 then LowBand else if cgpa < 3.0 then MidBand else HighBand
  }

  /** The rule conditions `x < 2.0`, `2.0 <= x < 3.0` and `x >= 3.0` (rule order). */
  predicate RuleApplies(rule: int, cgpa: real) {
    (rule == 0 && cgpa < 2.0) || (rule == 1 && 2.0 <= cgpa < 3.0) || (rule == 2 && cgpa >= 3.0)
  }

  /** Exactly one of the three rules applies to any CGPA, and its limit and note are the ones set. */
  lemma {:induction false} ExactlyOneRuleApplies(cgpa: real)
    ensures exists rule :: RuleApplies(rule, cgpa)
    ensures forall r1, r2 :: RuleApplies(r1, cgpa) && RuleApplies(r2, cgpa) ==> r1 == r2
    ensures forall rule :: RuleApplies(rule, cgpa) ==> CreditLimitFor(cgpa) == [12, 15, 18][rule]
    ensures forall rule :: RuleApplies(rule, cgpa) ==> BandNote(cgpa) == [LowBand, MidBand, HighBand][rule]
  {
    if cgpa < 2.0 {
      assert RuleApplies(0, cgpa);
    } else if cgpa < 3.0 {
      assert RuleApplies(1, cgpa);
    } else {
      assert RuleApplies(2, cgpa);
    }
  }

  /** A higher CGPA never lowers the limit. */
  lemma CreditLimitMonotone(a: real, b: real)
    requires a <= b
    ensures CreditLimitFor(a) <= CreditLimitFor(b)
  {
  }

  /**
   * The two engines agree with the example band table of the current engine everywhere
   * in [0, 4] except on the two band edges, where the older rules take the upper band and
   * the current lookup the lower one.
   */
  lemma {:induction false} BandsAgreeOffTheEdges(cgpa: real)
    requires 0.0 <= cgpa <= 4.0
    ensures cgpa != 2.0 && cgpa != 3.0 ==> MaxCreditsForCgpa(ExampleBands, cgpa) == Success(CreditLimitFor(cgpa))
    ensures cgpa == 2.0 ==> CreditLimitFor(cgpa) == 15 && MaxCreditsForCgpa(ExampleBands, cgpa) == Success(12)
    ensures cgpa == 3.0 ==> CreditLimitFor(cgpa) == 18 && MaxCreditsForCgpa(ExampleBands, cgpa) == Success(15)
  {
    var bands := ExampleBands;
    if cgpa <= 2.0 {
      FirstContainingBandWins(bands, cgpa, 0);
    } else if cgpa <= 3.0 {
      assert !InBand(bands[0], cgpa);
      FirstContainingBandWins(bands, cgpa, 1);
    } else {
      assert !InBand(bands[0], cgpa) && !InBand(bands[1], cgpa);
      FirstContainingBandWins(bands, cgpa, 2);
    }
  }

  // ---------------------------------------------------------------------------------
  // The row checks, as functions of the row and the student

  /** `prerequisites_met` / `corequisites_met`: a NaN or empty cell, or every stripped piece passed. */
  predicate RequirementsMet(field: Option<string>, passed: seq<string>) {
    field.None? || field.value == "" || AllPiecesPassed(Split(field.value, ','), passed)
  }

  /** Every piece, once stripped, is a passed code. */
  predicate AllPiecesPassed(pieces: seq<string>, passed: seq<string>) {
    |pieces| == 0 || (Strip(pieces[0]) in passed && AllPiecesPassed(pieces[1..], passed))
  }

  /** The piece check holds exactly when no stripped piece is missing from the passed list. */
  lemma {:induction false} AllPiecesPassedMeans(pieces: seq<string>, passed: seq<string>)
    ensures AllPiecesPassed(pieces, passed) <==> forall j :: 0 <= j < |pieces| ==> Strip(pieces[j]) in passed
  {
    if |pieces| > 0 {
      AllPiecesPassedMeans(pieces[1..], passed);
      assert forall j :: 1 <= j < |pieces| ==> pieces[1..][j - 1] == pieces[j];
    }
  }

  /** `is_semester_offered`, which answers "skip": the semester is not part of the cell, which is not "Both". */
  predicate SemesterSkip(offered: string, semester: string) {
    !Occurs(semester, offered) && offered != "Both"
  }

  /** `is_course_level`'s condition: more than one level up, while the student is below level 4. */
  predicate LevelSkip(courseLevel: int, level: int) {
    courseLevel > level + 1 && level + 1 <= 4
  }

  /** A student at level 4 or above is never skipped for level. */
  lemma NoLevelSkipFromLevelFour(courseLevel: int, level: int)
    requires level >= 4
    ensures !LevelSkip(courseLevel, level)
  {
  }

  /** A row offered in exactly the student's semester, or in a cell that contains it, is kept. */
  lemma SemesterInCellIsKept(offered: string, semester: string, before: string, after: string)
    requires offered == before + semester + after
    ensures !SemesterSkip(offered, semester)
  {
    OccursInside(semester, before, after);
  }

  /** How far one row gets through the checks, in the engine's order. */
  datatype Verdict = OffSemester | TooHigh | PrerequisitesUnmet | CorequisitesUnmet | AlreadyPassed | Considered

  ghost function VerdictOf(row: LegacyRow, semester: string, level: int, passed: seq<string>): Verdict {
    if SemesterSkip(row.semesterOffered, semester) then OffSemester
    else if LevelSkip(row.level, level) then TooHigh
    else if !RequirementsMet(row.prerequisites, passed) then PrerequisitesUnmet
    else if !RequirementsMet(row.corequisites, passed) then CorequisitesUnmet
    else if row.code in passed then AlreadyPassed
    else Considered
  }

  /** The verdict of every row, in catalogue order. */
  ghost function Verdicts(rows: seq<LegacyRow>, semester: string, level: int, passed: seq<string>): (r: seq<Verdict>)
    ensures |r| == |rows|
  {
    if |rows| == 0 then []
    else Verdicts(rows[..|rows| - 1], semester, level, passed) + [VerdictOf(rows[|rows| - 1], semester, level, passed)]
  }

  /** Entry `i` of the verdicts is the verdict of row `i`. */
  lemma {:induction false} VerdictsAt(rows: seq<LegacyRow>, semester: string, level: int, passed: seq<string>, i: nat)
    requires i < |rows|
    ensures Verdicts(rows, semester, level, passed)[i] == VerdictOf(rows[i], semester, level, passed)
  {
    if i < |rows| - 1 {
      VerdictsAt(rows[..|rows| - 1], semester, level, passed, i);
    }
  }

  /** The notes one row contributes, given its verdict; they do not depend on the credit limit. */
  function RowNotes(row: LegacyRow, verdict: Verdict, level: int, failed: seq<string>): seq<Note> {
    match verdict
    case OffSemester => []
    case TooHigh => [LevelTooHigh(row.code, row.level, level)]
    case PrerequisitesUnmet => [UnmetPrerequisites(row.code, row.prerequisites.GetOr(""))]
    case CorequisitesUnmet => [UnmetCorequisites(row.code, row.corequisites.GetOr(""))]
    case AlreadyPassed => []
    case Considered => [if row.code in failed then PrioritizedRetake(row.code) else FitsAllRules(row.code)]
  }

  /** The admitted rows and their running total after the loop has seen `n` rows. */
  datatype Admission = Admission(chosen: seq<LegacyRow>, total: int)

  function AdmitRows(rows: seq<LegacyRow>, verdicts: seq<Verdict>, limit: int, n: nat): Admission
    requires n <= |rows| == |verdicts|
  {
    if n == 0 then Admission([], 0)
    else
      var prev := AdmitRows(rows, verdicts, limit, n - 1);
      var row := rows[n - 1];
      if verdicts[n - 1] == Considered && prev.total + row.credits <= limit
      then Admission(prev.chosen + [row], prev.total + row.credits)
      else prev
  }

  /** The notes the loop has written after `n` rows; the credit limit plays no part in them. */
  function RowsNotes(rows: seq<LegacyRow>, verdicts: seq<Verdict>, level: int, failed: seq<string>, n: nat): seq<Note>
    requires n <= |rows| == |verdicts|
  {
    if n == 0 then []
    else RowsNotes(rows, verdicts, level, failed, n - 1) + RowNotes(rows[n - 1], verdicts[n - 1], level, failed)
  }

  /** One more row: it is admitted exactly when it was considered and still fits, and its notes are appended. */
  lemma AdmitRowsStep(rows: seq<LegacyRow>, verdicts: seq<Verdict>, limit: int, level: int, failed: seq<string>, n: nat)
    requires n < |rows| == |verdicts|
    ensures var prev := AdmitRows(rows, verdicts, limit, n);
            var admit := verdicts[n] == Considered && prev.total + rows[n].credits <= limit;
            && AdmitRows(rows, verdicts, limit, n + 1).chosen == prev.chosen + (if admit then [rows[n]] else [])
            && AdmitRows(rows, verdicts, limit, n + 1).total == (if admit then prev.total + rows[n].credits else prev.total)
            && RowsNotes(rows, verdicts, level, failed, n + 1) ==
                 RowsNotes(rows, verdicts, level, failed, n) + RowNotes(rows[n], verdicts[n], level, failed)
  {
  }

  function RowCredits(rows: seq<LegacyRow>): int {
    if |rows| == 0 then 0 else RowCredits(rows[..|rows| - 1]) + rows[|rows| - 1].credits
  }

  /**
   * The loop's invariant: the running total is the credits admitted, and it stays within
   * the limit once anything is admitted.
   */
  lemma {:induction false} AdmissionInvariant(rows: seq<LegacyRow>, verdicts: seq<Verdict>, limit: int, n: nat)
    requires n <= |rows| == |verdicts|
    ensures var a := AdmitRows(rows, verdicts, limit, n);
            && a.total == RowCredits(a.chosen)
            && (a.chosen == [] || a.total <= limit)
  {
    if n > 0 {
      AdmissionInvariant(rows, verdicts, limit, n - 1);
      var prev := AdmitRows(rows, verdicts, limit, n - 1);
      RowCreditsAppend(prev.chosen, rows[n - 1]);
    }
  }

  lemma RowCreditsAppend(rows: seq<LegacyRow>, row: LegacyRow)
    ensures RowCredits(rows + [row]) == RowCredits(rows) + row.credits
  {
    assert (rows + [row])[..|rows|] == rows;
  }

  /** The admitted rows keep catalogue order. */
  lemma {:induction false} AdmissionKeepsOrder(rows: seq<LegacyRow>, verdicts: seq<Verdict>, limit: int, n: nat)
    requires n <= |rows| == |verdicts|
    ensures IsSubsequence(AdmitRows(rows, verdicts, limit, n).chosen, rows[..n])
  {
    if n > 0 {
      AdmissionKeepsOrder(rows, verdicts, limit, n - 1);
      var prev := AdmitRows(rows, verdicts, limit, n - 1).chosen;
      var row := rows[n - 1];
      assert rows[..n] == rows[..n - 1] + [row];
      SubsequenceExtend(prev, rows[..n - 1], row);
    }
  }

  /** Only rows whose verdict is `Considered` are ever admitted. */
  lemma {:induction false} OnlyConsideredRowsAdmitted(rows: seq<LegacyRow>, verdicts: seq<Verdict>, limit: int, n: nat)
    requires n <= |rows| == |verdicts|
    ensures forall row :: row in AdmitRows(rows, verdicts, limit, n).chosen ==>
              exists i :: 0 <= i < n && rows[i] == row && verdicts[i] == Considered
  {
    if n > 0 {
      OnlyConsideredRowsAdmitted(rows, verdicts, limit, n - 1);
      var prev := AdmitRows(rows, verdicts, limit, n - 1).chosen;
      forall row | row in AdmitRows(rows, verdicts, limit, n).chosen
        ensures exists i :: 0 <= i < n && rows[i] == row && verdicts[i] == Considered
      {
        if row !in prev {
          assert rows[n - 1] == row && verdicts[n - 1] == Considered;
        }
      }
    }
  }

  /** Admitted rows are never passed courses, and they meet every check of the loop. */
  lemma AdmittedRowsPassEveryCheck(rows: seq<LegacyRow>, semester: string, level: int, passed: seq<string>,
                                   limit: int, row: LegacyRow)
    requires row in AdmitRows(rows, Verdicts(rows, semester, level, passed), limit, |rows|).chosen
    ensures row.code !in passed
    ensures !SemesterSkip(row.semesterOffered, semester) && !LevelSkip(row.level, level)
    ensures RequirementsMet(row.prerequisites, passed) && RequirementsMet(row.corequisites, passed)
  {
    var verdicts := Verdicts(rows, semester, level, passed);
    OnlyConsideredRowsAdmitted(rows, verdicts, limit, |rows|);
    var i :| 0 <= i < |rows| && rows[i] == row && verdicts[i] == Considered;
    VerdictsAt(rows, semester, level, passed, i);
  }

  /** How many of the verdicts are `Considered`, i.e. how many rows reach the explanation step. */
  function CountConsidered(verdicts: seq<Verdict>): nat {
    if |verdicts| == 0 then 0
    else CountConsidered(verdicts[..|verdicts| - 1]) + (if verdicts[|verdicts| - 1] == Considered then 1 else 0)
  }

  function CountVerdicts(notes: seq<Note>): nat {
    if |notes| == 0 then 0
    else CountVerdicts(notes[..|notes| - 1]) + (if notes[|notes| - 1].IsVerdict() then 1 else 0)
  }

  lemma {:induction false} CountVerdictsAppend(a: seq<Note>, b: seq<Note>)
    ensures CountVerdicts(a + b) == CountVerdicts(a) + CountVerdicts(b)
    decreases |b|
  {
    if |b| == 0 {
      assert a + b == a;
    } else {
      var n := |b| - 1;
      assert (a + b)[..|a + b| - 1] == a + b[..n];
      assert (a + b)[|a + b| - 1] == b[n];
      CountVerdictsAppend(a, b[..n]);
    }
  }

  /** A row writes one "prioritized" or "recommended" note when it is considered, and none otherwise. */
  lemma RowNotesVerdictCount(row: LegacyRow, verdict: Verdict, level: int, failed: seq<string>)
    ensures |RowNotes(row, verdict, level, failed)| <= 1
    ensures CountVerdicts(RowNotes(row, verdict, level, failed)) == if verdict == Considered then 1 else 0
  {
    var one := RowNotes(row, verdict, level, failed);
    if |one| == 1 {
      assert one[..0] == [];
    }
  }

  /** Every row that reaches the explanation step gets exactly one "prioritized" or "recommended" note. */
  lemma {:induction false} OneVerdictPerConsideredRow(rows: seq<LegacyRow>, verdicts: seq<Verdict>, level: int,
                                                      failed: seq<string>, n: nat)
    requires n <= |rows| == |verdicts|
    ensures CountVerdicts(RowsNotes(rows, verdicts, level, failed, n)) == CountConsidered(verdicts[..n])
  {
    if n > 0 {
      OneVerdictPerConsideredRow(rows, verdicts, level, failed, n - 1);
      CountVerdictsAppend(RowsNotes(rows, verdicts, level, failed, n - 1), RowNotes(rows[n - 1], verdicts[n - 1], level, failed));
      RowNotesVerdictCount(rows[n - 1], verdicts[n - 1], level, failed);
      assert verdicts[..n][..n - 1] == verdicts[..n - 1];
    }
  }

  /** No more rows are admitted than reach the explanation step, whatever the limit. */
  lemma {:induction false} AdmittedAtMostConsidered(rows: seq<LegacyRow>, verdicts: seq<Verdict>, limit: int, n: nat)
    requires n <= |rows| == |verdicts|
    ensures |AdmitRows(rows, verdicts, limit, n).chosen| <= CountConsidered(verdicts[..n])
  {
    if n > 0 {
      AdmittedAtMostConsidered(rows, verdicts, limit, n - 1);
      assert verdicts[..n][..n - 1] == verdicts[..n - 1];
    }
  }

  /**
   * A row the limit turns away still gets its "recommended" or "prioritized" note, and the
   * admitted list and the total stay as they were.
   */
  lemma RejectedRowStillExplained(rows: seq<LegacyRow>, semester: string, level: int, passed: seq<string>,
                                  failed: seq<string>, limit: int, i: nat)
    requires i < |rows|
    requires VerdictOf(rows[i], semester, level, passed) == Considered
    requires AdmitRows(rows, Verdicts(rows, semester, level, passed), limit, i).total + rows[i].credits > limit
    ensures var verdicts := Verdicts(rows, semester, level, passed);
            && AdmitRows(rows, verdicts, limit, i + 1) == AdmitRows(rows, verdicts, limit, i)
            && RowsNotes(rows, verdicts, level, failed, i + 1) == RowsNotes(rows, verdicts, level, failed, i) +
                 [if rows[i].code in failed then PrioritizedRetake(rows[i].code) else FitsAllRules(rows[i].code)]
  {
    VerdictsAt(rows, semester, level, passed, i);
  }

  /**
   * The prerequisite check comes before the passed check: a passed course whose
   * prerequisite cell is not met is reported as having unmet prerequisites.
   */
  lemma PassedRowWithUnmetPrerequisitesIsReported(row: LegacyRow, semester: string, level: int,
                                                  passed: seq<string>, failed: seq<string>)
    requires row.code in passed
    requires !SemesterSkip(row.semesterOffered, semester) && !LevelSkip(row.level, level)
    requires !RequirementsMet(row.prerequisites, passed)
    ensures RowNotes(row, VerdictOf(row, semester, level, passed), level, failed) ==
              [UnmetPrerequisites(row.code, row.prerequisites.value)]
  {
  }

  // ---------------------------------------------------------------------------------
  // The engine object

  class CourseRecommendation {
    const courses: seq<LegacyRow>
    const passed: seq<string>
    const failed: seq<string>
    var recommendations: seq<LegacyRow>
    var explanations: seq<Note>
    var creditLimit: int

    constructor(courses: seq<LegacyRow>, passed: seq<string>, failed: seq<string>)
      ensures this.courses == courses && this.passed == passed && this.failed == failed
      ensures recommendations == [] && explanations == [] && creditLimit == 0
    {
      this.courses := courses;
      this.passed := passed;
      this.failed := failed;
      recommendations := [];
      explanations := [];
      creditLimit := 0;
    }

    method LowCgpa()
      modifies this
      ensures creditLimit == 12 && explanations == old(explanations) + [LowBand]
      ensures recommendations == old(recommendations)
    {
      creditLimit := 12;
      explanations := explanations + [LowBand];
    }

    method MidCgpa()
      modifies this
      ensures creditLimit == 15 && explanations == old(explanations) + [MidBand]
      ensures recommendations == old(recommendations)
    {
      creditLimit := 15;
      explanations := explanations + [MidBand];
    }

    method HighCgpa()
      modifies this
      ensures creditLimit == 18 && explanations == old(explanations) + [HighBand]
      ensures recommendations == old(recommendations)
    {
      creditLimit := 18;
      explanations := explanations + [HighBand];
    }

    /** Fires the one CGPA rule whose condition holds. */
    method ApplyCgpaBand(cgpa: real)
      modifies this
      ensures creditLimit == CreditLimitFor(cgpa)
      ensures explanations == old(explanations) + [BandNote(cgpa)]
      ensures recommendations == old(recommendations)
    {
      if cgpa < 2.0 {
        LowCgpa();
      } else if 2.0 <= cgpa < 3.0 {
        MidCgpa();
      } else {
        HighCgpa();
      }
    }

    /** `prerequisites_met` and `corequisites_met`, which share one body. */
    method RequisitesMet(field: Option<string>) returns (met: bool)
      ensures met == RequirementsMet(field, passed)
    {
      if field.None? || field.value == "" {
        return true;
      }
      var pieces := Split(field.value, ',');
      for k := 0 to |pieces|
        invariant AllPiecesPassed(pieces[k..], passed) == AllPiecesPassed(pieces, passed)
      {
        assert pieces[k..][1..] == pieces[k + 1..];
        if Strip(pieces[k]) !in passed {
          return false;
        }
      }
      return true;
    }

    method IsSemesterOffered(row: LegacyRow, semester: string) returns (skip: bool)
      ensures skip == SemesterSkip(row.semesterOffered, semester)
      ensures row.semesterOffered == semester || row.semesterOffered == "Both" ==> !skip
    {
      OccursInItself(semester);
      skip := !Occurs(semester, row.semesterOffered) && row.semesterOffered != "Both";
    }

    /** Answers "skip" and writes the level note exactly when it skips. */
    method IsCourseLevel(row: LegacyRow, level: int) returns (skip: bool)
      modifies this
      ensures skip == LevelSkip(row.level, level)
      ensures explanations == old(explanations) + (if skip then [LevelTooHigh(row.code, row.level, level)] else [])
      ensures recommendations == old(recommendations) && creditLimit == old(creditLimit)
    {
      var courseLevel := row.level;
      if courseLevel > level + 1 && level + 1 <= 4 {
        explanations := explanations + [LevelTooHigh(row.code, courseLevel, level)];
        return true;
      }
      return false;
    }

    method IsPassedCourse(row: LegacyRow) returns (isPassed: bool)
      ensures isPassed <==> row.code in passed
    {
      isPassed := row.code in passed;
    }

    method AddExplanation(row: LegacyRow)
      modifies this
      ensures explanations == old(explanations) +
                [if row.code in failed then PrioritizedRetake(row.code) else FitsAllRules(row.code)]
      ensures recommendations == old(recommendations) && creditLimit == old(creditLimit)
    {
      var code := row.code;
      if code in failed {
        explanations := explanations + [PrioritizedRetake(code)];
      } else {
        explanations := explanations + [FitsAllRules(code)];
      }
    }

    /** Appends the row exactly when it fits under the limit, and says whether it did. */
    method AddToRecommendations(row: LegacyRow, totalCredits: int) returns (added: bool)
      modifies this
      ensures added <==> totalCredits + row.credits <= creditLimit
      ensures recommendations == old(recommendations) + (if added then [row] else [])
      ensures explanations == old(explanations) && creditLimit == old(creditLimit)
    {
      if totalCredits + row.credits <= creditLimit {
        recommendations := recommendations + [row];
        return true;
      }
      return false;
    }

    /**
     * One iteration of `recommend_courses`: the checks in order, the note of the first one
     * that fails or the verdict note, and the admission under the limit. Returns the new
     * running total.
     */
    method ConsiderRow(row: LegacyRow, semester: string, level: int, totalCredits: int, ghost verdict: Verdict)
      returns (newTotal: int)
      requires verdict == VerdictOf(row, semester, level, passed)
      modifies this
      ensures var admit := verdict == Considered && totalCredits + row.credits <= creditLimit;
              && explanations == old(explanations) + RowNotes(row, verdict, level, failed)
              && recommendations == old(recommendations) + (if admit then [row] else [])
              && newTotal == (if admit then totalCredits + row.credits else totalCredits)
      ensures creditLimit == old(creditLimit)
    {
      newTotal := totalCredits;
      var skip := IsSemesterOffered(row, semester);
      if skip {
        return;
      }
      skip := IsCourseLevel(row, level);
      if skip {
        return;
      }
      var met := RequisitesMet(row.prerequisites);
      if !met {
        explanations := explanations + [UnmetPrerequisites(row.code, row.prerequisites.value)];
        return;
      }
      met := RequisitesMet(row.corequisites);
      if !met {
        explanations := explanations + [UnmetCorequisites(row.code, row.corequisites.value)];
        return;
      }
      var isPassed := IsPassedCourse(row);
      if isPassed {
        return;
      }
      AddExplanation(row);
      var added := AddToRecommendations(row, totalCredits);
      if added {
        newTotal := totalCredits + row.credits;
      }
    }

    /** The `recommend_courses` rule: one pass over the rows, appending to both lists. */
    method RecommendCourses(semester: string, level: int)
      modifies this
      ensures creditLimit == old(creditLimit)
      ensures var verdicts := Verdicts(courses, semester, level, passed);
              && recommendations == old(recommendations) + AdmitRows(courses, verdicts, old(creditLimit), |courses|).chosen
              && explanations == old(explanations) + RowsNotes(courses, verdicts, level, failed, |courses|)
    {
      ghost var verdicts := Verdicts(courses, semester, level, passed);
      var totalCredits := 0;
      for i := 0 to |courses|
        invariant creditLimit == old(creditLimit)
        invariant recommendations == old(recommendations) + AdmitRows(courses, verdicts, creditLimit, i).chosen
        invariant totalCredits == AdmitRows(courses, verdicts, creditLimit, i).total
        invariant explanations == old(explanations) + RowsNotes(courses, verdicts, level, failed, i)
      {
        VerdictsAt(courses, semester, level, passed, i);
        AdmitRowsStep(courses, verdicts, creditLimit, level, failed, i);
        totalCredits := ConsiderRow(courses[i], semester, level, totalCredits, verdicts[i]);
      }
    }

    /** `run_engine`, with the CGPA rule taken to fire before `recommend_courses`. */
    method RunEngine(semester: string, cgpa: real, level: int) returns (recs: seq<LegacyRow>, notes: seq<Note>)
      modifies this
      ensures creditLimit == CreditLimitFor(cgpa)
      ensures var verdicts := Verdicts(courses, semester, level, passed);
              && recs == recommendations == old(recommendations) + AdmitRows(courses, verdicts, CreditLimitFor(cgpa), |courses|).chosen
              && notes == explanations == old(explanations) + [BandNote(cgpa)] + RowsNotes(courses, verdicts, level, failed, |courses|)
    {
      ApplyCgpaBand(cgpa);
      RecommendCourses(semester, level);
      return recommendations, explanations;
    }
  }
}
