/**
 * `recommend_courses` of the current engine: the eligible-course facts the rule run
 * declared are ranked by (level, -credits), admitted greedily under the CGPA credit cap,
 * and every other catalogue course that is not passed is explained in code order.
 */
module InferenceEngine {
  import opened Wrappers
  import opened Text
  import opened SeqUtil
  import opened KnowledgeBase
  import opened Eligibility
  import opened Ranking
  import opened Explanations

  /** The two lists `recommend_courses` returns. */
  datatype Advice = Advice(recommendations: seq<EligibleCourse>, explanations: seq<Explanation>)

  /** `{r['course_code'] for r in recommendations}`. */
  function RecommendedCodes(recs: seq<EligibleCourse>): (r: set<string>)
    ensures forall c :: c in r <==> exists i :: 0 <= i < |recs| && recs[i].code == c
  {
    set i | 0 <= i < |recs| :: recs[i].code
  }

  /**
   * What `recommend_courses` returns for the facts `gathered` read back from the fact
   * store, or the error raised when the CGPA lies in no band.
   */
  function Advise(catalog: seq<CourseRow>, policy: Policy, s: Student, gathered: seq<EligibleCourse>): Result<Advice, PolicyError> {
    match MaxCreditsForCgpa(policy.creditLimits, s.cgpa)
    case Failure(e) => Failure(e)
    case Success(cap) =>
      var recs := SelectUnderCap(RankOrder(gathered), cap);
      var pending := PendingCodes(catalog, RecommendedCodes(recs), s.passed);
      Success(Advice(recs, ExplainAll(pending, catalog, s, RetakeFailedFirst(policy))))
  }

  /**
   * The body of `recommend_courses` after the rule run: sort, the cap loop and the
   * explanation loop. `gathered` is what `engine.facts.values()` yields.
   */
  method RecommendCourses(catalog: seq<CourseRow>, policy: Policy, s: Student, gathered: seq<EligibleCourse>)
    returns (r: Result<Advice, PolicyError>)
    ensures r == Advise(catalog, policy, s, gathered)
  {
    var eligibles := RankOrder(gathered);
    var limit := MaxCreditsForCgpa(policy.creditLimits, s.cgpa);
    if limit.Failure? {
      return Failure(limit.error);
    }
    var recommendations := AdmitUnderCap(eligibles, limit.value);
    var retake := RetakeFailedFirst(policy);
    var pending := PendingCodes(catalog, RecommendedCodes(recommendations), s.passed);
    forall code | code in pending ensures GetCourse(catalog, code).Some? {
      PendingCodeIsInCatalog(catalog, RecommendedCodes(recommendations), s.passed, code);
    }
    var explanations := ExplainPending(pending, catalog, s, retake);
    return Success(Advice(recommendations, explanations));
  }

  /** The cap loop: each ranked course is admitted when it still fits under the cap. */
  method AdmitUnderCap(eligibles: seq<EligibleCourse>, cap: int) returns (recommendations: seq<EligibleCourse>)
    ensures recommendations == SelectUnderCap(eligibles, cap)
  {
    recommendations := [];
    var total := 0;
    var i := 0;
    while i < |eligibles|
      invariant 0 <= i <= |eligibles|
      invariant Selection(recommendations, total) == CapPass(eligibles, cap, i)
    {
      var f := eligibles[i];
      if total + f.credits <= cap {
        recommendations := recommendations + [f];
        total := total + f.credits;
      }
      i := i + 1;
    }
  }

  /** The explanation loop over the pending codes, each looked up in the catalogue. */
  method ExplainPending(pending: seq<string>, catalog: seq<CourseRow>, s: Student, retake: bool)
    returns (explanations: seq<Explanation>)
    requires forall code :: code in pending ==> GetCourse(catalog, code).Some?
    ensures explanations == ExplainAll(pending, catalog, s, retake)
  {
    explanations := [];
    for k := 0 to |pending|
      invariant explanations == ExplainAll(pending[..k], catalog, s, retake)
    {
      var code := pending[k];
      ExplainAllStep(pending, k, catalog, s, retake);
      var course := GetCourse(catalog, code);
      assert course.Some? by { assert code in pending; }
      var explained := ExplainCourse(course.value, s, retake);
      assert ExplainCode(code, catalog, s, retake) == (if explained.Some? then [explained.value] else []);
      if explained.Some? {
        explanations := explanations + [explained.value];
      }
    }
    assert pending[..|pending|] == pending;
  }

  /** The run fails exactly when the CGPA lies in no band, and then nothing is recommended. */
  lemma AdviseFailsOutsideEveryBand(catalog: seq<CourseRow>, policy: Policy, s: Student, gathered: seq<EligibleCourse>)
    ensures Advise(catalog, policy, s, gathered).Failure? <==>
              forall i :: 0 <= i < |policy.creditLimits| ==> !InBand(policy.creditLimits[i], s.cgpa)
    ensures Advise(catalog, policy, s, gathered).Failure? ==>
              Advise(catalog, policy, s, gathered).error == CgpaOutOfRange(s.cgpa)
  {
  }

  /**
   * The recommended credits fit under the cap of the student's band, and the
   * recommendations keep the ranked order: sorted by (level, -credits), drawn from the
   * gathered facts, and in their ranked order.
   */
  lemma RecommendationsFitAndKeepRank(catalog: seq<CourseRow>, policy: Policy, s: Student, gathered: seq<EligibleCourse>)
    requires Advise(catalog, policy, s, gathered).Success?
    ensures var recs := Advise(catalog, policy, s, gathered).value.recommendations;
            var cap := MaxCreditsForCgpa(policy.creditLimits, s.cgpa).value;
            && (recs == [] || SumCredits(recs) <= cap)
            && IsSubsequence(recs, RankOrder(gathered))
            && Ranked(recs)
            && (forall e :: e in recs ==> e in gathered)
  {
    var cap := MaxCreditsForCgpa(policy.creditLimits, s.cgpa).value;
    var ranked := RankOrder(gathered);
    var recs := SelectUnderCap(ranked, cap);
    SelectionWithinCap(ranked, cap);
    RankOrderSortsAndPermutes(gathered);
    CapPassRanked(ranked, cap, |ranked|);
    SubsequenceElements(recs, ranked);
    forall e | e in recs ensures e in gathered {
      assert e in multiset(ranked);
    }
  }

  /** Whatever the cap loop admits from a ranked sequence is itself ranked. */
  lemma {:induction false} CapPassRanked(ranked: seq<EligibleCourse>, cap: int, n: nat)
    requires n <= |ranked| && Ranked(ranked)
    ensures Ranked(CapPass(ranked, cap, n).chosen)
  {
    if n > 0 {
      CapPassRanked(ranked, cap, n - 1);
      CapPassInvariant(ranked, cap, n - 1);
      var prev := CapPass(ranked, cap, n - 1).chosen;
      var c := ranked[n - 1];
      SubsequenceElements(prev, ranked[..n - 1]);
      if CapPass(ranked, cap, n).chosen != prev {
        var next := prev + [c];
        assert CapPass(ranked, cap, n).chosen == next;
        forall i, j | 0 <= i < j < |next| ensures RanksBefore(next[i], next[j]) {
          if j == |prev| {
            assert next[i] in ranked[..n - 1];
            var k :| 0 <= k < n - 1 && ranked[..n - 1][k] == next[i];
            assert ranked[k] == next[i];
          } else {
            assert next[i] == prev[i] && next[j] == prev[j];
          }
        }
      }
    }
  }

  /**
   * Soundness of the recommendations: when the gathered facts are the store's view of
   * what the rule declared, every recommended course was declared for some catalogue row
   * that passes all six checks of the rule.
   */
  lemma RecommendationsAreEligible(catalog: seq<CourseRow>, policy: Policy, s: Student, gathered: seq<EligibleCourse>)
    requires FactStoreView(gathered, EligibleFacts(catalog, s, RetakeFailedFirst(policy)))
    requires Advise(catalog, policy, s, gathered).Success?
    ensures forall e :: e in Advise(catalog, policy, s, gathered).value.recommendations ==>
              e.code !in s.passed &&
              exists row :: row in catalog && Declares(row, s, catalog, RetakeFailedFirst(policy), e)
  {
    var retake := RetakeFailedFirst(policy);
    RecommendationsFitAndKeepRank(catalog, policy, s, gathered);
    EligibleAmongMembers(catalog, s, catalog, retake);
    forall e | e in Advise(catalog, policy, s, gathered).value.recommendations
      ensures e.code !in s.passed && exists row :: row in catalog && Declares(row, s, catalog, retake, e)
    {
      assert e in EligibleFacts(catalog, s, retake);
      var row :| row in catalog && Declares(row, s, catalog, retake, e);
      DeclaredFactIsRowsCode(row, s, catalog, retake, e);
    }
  }

  /**
   * The explanations, completely: one per catalogue code that is neither recommended nor
   * passed and whose first catalogue row is not skipped as a prioritised retake, each the
   * one that row gets, in strictly ascending code order.
   */
  lemma ExplanationsCharacterized(catalog: seq<CourseRow>, policy: Policy, s: Student, gathered: seq<EligibleCourse>)
    requires Advise(catalog, policy, s, gathered).Success?
    ensures var a := Advise(catalog, policy, s, gathered).value;
            && CodesAscend(a.explanations)
            && forall x :: x in a.explanations <==>
                 && GetCourse(catalog, x.code).Some?
                 && x.code !in RecommendedCodes(a.recommendations)
                 && x.code !in s.passed
                 && ExplainCourse(GetCourse(catalog, x.code).value, s, RetakeFailedFirst(policy)) == Some(x)
  {
    var retake := RetakeFailedFirst(policy);
    var a := Advise(catalog, policy, s, gathered).value;
    var pending := PendingCodes(catalog, RecommendedCodes(a.recommendations), s.passed);
    assert a.explanations == ExplainAll(pending, catalog, s, retake);
    ExplainAllAscending(pending, catalog, s, retake);
    ExplainAllMembers(pending, catalog, s, retake);
    forall x ensures x in a.explanations <==>
                 && GetCourse(catalog, x.code).Some?
                 && x.code !in RecommendedCodes(a.recommendations)
                 && x.code !in s.passed
                 && ExplainCourse(GetCourse(catalog, x.code).value, s, retake) == Some(x)
    {
      if x in a.explanations {
        var k :| 0 <= k < |pending| && x in ExplainCode(pending[k], catalog, s, retake);
        ExplainCodeMembers(pending[k], catalog, s, retake);
        ExplainsCodeNamesIt(x, pending[k], catalog, s, retake);
      }
      if GetCourse(catalog, x.code).Some? && x.code !in RecommendedCodes(a.recommendations) && x.code !in s.passed
         && ExplainCourse(GetCourse(catalog, x.code).value, s, retake) == Some(x) {
        var row := GetCourse(catalog, x.code).value;
        var i :| 0 <= i < |catalog| && catalog[i] == row;
        assert x.code in pending;
        var k :| 0 <= k < |pending| && pending[k] == x.code;
        ExplainCodeMembers(pending[k], catalog, s, retake);
      }
    }
  }
}
