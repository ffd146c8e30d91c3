/**
 * The catalogue and the advising policy as in-memory tables, with the lookups the
 * engine uses: every course row, the first row for a code, the credit cap of the
 * first GPA band that contains a CGPA, and the retake-priority flag.
 */
module KnowledgeBase {
  import opened Wrappers

  /** One row of the course table (the columns of the catalogue file). */
  datatype CourseRow = CourseRow(
    code: string,
    name: string,
    prerequisites: string,   // comma-separated codes, '' when none
    corequisites: string,    // comma-separated codes, '' when none
    credits: int,
    semesterOffered: string, // 'Fall', 'Spring' or 'Both'
    track: string,           // 'All' matches every track
    level: int,
    description: string)

  /** One entry of `credit_limits`: both bounds are inclusive. */
  datatype Band = Band(minCgpa: real, maxCgpa: real, maxCredits: int)

  /** The policy document: the ordered bands and the optional `retake_failed_priority` key. */
  datatype Policy = Policy(creditLimits: seq<Band>, retakeFailedPriority: Option<bool>)

  /** The `ValueError` raised when no band contains the CGPA. */
  datatype PolicyError = CgpaOutOfRange(cgpa: real)

  /** Every row, in table order. */
  function ListAllCourses(courses: seq<CourseRow>): (r: seq<CourseRow>)
    ensures |r| == |courses|
    ensures forall i :: 0 <= i < |r| ==> r[i] == courses[i]
  {
    courses
  }

  /** The first row whose code is `code`, or `None` when no row has it. */
  function GetCourse(courses: seq<CourseRow>, code: string): (r: Option<CourseRow>)
    ensures r.None? <==> forall i :: 0 <= i < |courses| ==> courses[i].code != code
    ensures r.Some? ==> r.value in courses && r.value.code == code
    decreases |courses|
  {
    if |courses| == 0 then None
    else if courses[0].code == code then Some(courses[0])
    else
      var r := GetCourse(courses[1..], code);
      assert forall i :: 1 <= i < |courses| ==> courses[i] == courses[1..][i - 1];
      r
  }

  /** When rows before `k` have other codes and row `k` has `code`, the lookup returns row `k`. */
  lemma {:induction false} GetCourseFirstMatch(courses: seq<CourseRow>, code: string, k: nat)
    requires k < |courses| && courses[k].code == code
    requires forall j :: 0 <= j < k ==> courses[j].code != code
    ensures GetCourse(courses, code) == Some(courses[k])
  {
    if k > 0 {
      GetCourseFirstMatch(courses[1..], code, k - 1);
    }
  }

  predicate InBand(b: Band, cgpa: real) {
    b.minCgpa <= cgpa <= b.maxCgpa
  }

  /** The `max_credits` of the first band, in list order, that contains `cgpa`. */
  function MaxCreditsForCgpa(bands: seq<Band>, cgpa: real): (r: Result<int, PolicyError>)
    ensures r.Failure? <==> forall i :: 0 <= i < |bands| ==> !InBand(bands[i], cgpa)
    ensures r.Failure? ==> r.error == CgpaOutOfRange(cgpa)
    ensures r.Success? ==> exists i :: 0 <= i < |bands| && InBand(bands[i], cgpa) && r.value == bands[i].maxCredits
    decreases |bands|
  {
    if |bands| == 0 then Failure(CgpaOutOfRange(cgpa))
    else if InBand(bands[0], cgpa) then Success(bands[0].maxCredits)
    else
      var r := MaxCreditsForCgpa(bands[1..], cgpa);
      assert forall i :: 1 <= i < |bands| ==> bands[i] == bands[1..][i - 1];
      r
  }

  /** First match wins: if band `k` is the first to contain `cgpa`, its cap is the answer. */
  lemma {:induction false} FirstContainingBandWins(bands: seq<Band>, cgpa: real, k: nat)
    requires k < |bands| && InBand(bands[k], cgpa)
    requires forall j :: 0 <= j < k ==> !InBand(bands[j], cgpa)
    ensures MaxCreditsForCgpa(bands, cgpa) == Success(bands[k].maxCredits)
  {
    if k > 0 {
      FirstContainingBandWins(bands[1..], cgpa, k - 1);
    }
  }

  /**
   * Bounds are inclusive at both ends, so a CGPA on the edge shared by bands `k` and `k + 1`
   * is resolved by the earlier band `k`.
   */
  lemma SharedEdgeGoesToEarlierBand(bands: seq<Band>, k: nat)
    requires k + 1 < |bands|
    requires bands[k].minCgpa <= bands[k].maxCgpa == bands[k + 1].minCgpa
    requires forall j :: 0 <= j < k ==> !InBand(bands[j], bands[k].maxCgpa)
    ensures MaxCreditsForCgpa(bands, bands[k].maxCgpa) == Success(bands[k].maxCredits)
    ensures bands[k].maxCredits != bands[k + 1].maxCredits ==>
              MaxCreditsForCgpa(bands, bands[k].maxCgpa) != Success(bands[k + 1].maxCredits)
  {
    FirstContainingBandWins(bands, bands[k].maxCgpa, k);
  }

  /** `retake_failed_priority`, read with a default of `False`. */
  function RetakeFailedFirst(policy: Policy): (r: bool)
    ensures policy.retakeFailedPriority.None? ==> !r
    ensures policy.retakeFailedPriority.Some? ==> r == policy.retakeFailedPriority.value
  {
    policy.retakeFailedPriority.GetOr(false)
  }

  /** A three-band table: [0, 2] -> 12, [2, 3] -> 15, [3, 4] -> 18. */
  const ExampleBands: seq<Band> := [Band(0.0, 2.0, 12), Band(2.0, 3.0, 15), Band(3.0, 4.0, 18)]

  /**
   * What the first-match scan does with the example table: 2.0 and 3.0 land in the lower
   * band (12 and 15), and 4.1 is out of range.
   */
  lemma ExampleBandLookups()
    ensures MaxCreditsForCgpa(ExampleBands, 1.5) == Success(12)
    ensures MaxCreditsForCgpa(ExampleBands, 2.0) == Success(12)
    ensures MaxCreditsForCgpa(ExampleBands, 2.5) == Success(15)
    ensures MaxCreditsForCgpa(ExampleBands, 3.0) == Success(15)
    ensures MaxCreditsForCgpa(ExampleBands, 3.5) == Success(18)
    ensures MaxCreditsForCgpa(ExampleBands, 4.1) == Failure(CgpaOutOfRange(4.1))
  {
    SharedEdgeGoesToEarlierBand(ExampleBands, 0);
    SharedEdgeGoesToEarlierBand(ExampleBands, 1);
    FirstContainingBandWins(ExampleBands, 3.5, 2);
    FirstContainingBandWins(ExampleBands, 2.5, 1);
  }
}
