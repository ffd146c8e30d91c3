/**
 * The explanation pass of the current engine: for every catalogue code that is neither
 * recommended nor passed, in sorted code order, the first unmet prerequisite (as written
 * in the field, not stripped), nothing for a failed course under retake priority, or a
 * generic "unavailable" note.
 */
module Explanations {
  import opened Wrappers
  import opened Text
  import opened KnowledgeBase
  import opened Eligibility
  import opened SeqUtil

  /** One explanation; `Message` is the exact sentence shown to the student. */
  datatype Explanation =
    | UnmetPrerequisite(code: string, prerequisite: string)
    | Unavailable(code: string)
  {
    function Message(): (m: string)
      ensures |m| > |code| && m[..|code|] == code
    {
      match this
      case UnmetPrerequisite(c, p) => c + " is unavailable due to an unmet prerequisite, " + p + "."
      case Unavailable(c) => c + " is unavailable."
    }
  }

  /** The prerequisite list of the explanation pass: split on ',', blanks dropped, NOT stripped. */
  function RawPrerequisites(field: string): seq<string> {
    NonBlank(Split(field, ','))
  }

  /**
   * The rule's codes and the explanation pass's pieces line up one to one: each code the
   * rule checks is the stripped form of the piece the explanation pass checks.
   */
  lemma ParseCodesStripsRawPieces(field: string)
    ensures |ParseCodes(field)| == |RawPrerequisites(field)|
    ensures forall i :: 0 <= i < |ParseCodes(field)| ==> ParseCodes(field)[i] == Strip(RawPrerequisites(field)[i])
  {
  }

  /** `next((p for p in prereqs if p not in passed), None)`. */
  function FirstUnmet(prereqs: seq<string>, passed: seq<string>): (r: Option<string>)
    ensures r.None? <==> forall p :: p in prereqs ==> p in passed
    ensures r.Some? ==> r.value in prereqs && r.value !in passed
  {
    if |prereqs| == 0 then None
    else if prereqs[0] !in passed then Some(prereqs[0])
    else
      assert forall p :: p in prereqs <==> p == prereqs[0] || p in prereqs[1..];
      FirstUnmet(prereqs[1..], passed)
  }

  /** The answer is the earliest listed code that is not passed. */
  lemma {:induction false} FirstUnmetAt(prereqs: seq<string>, passed: seq<string>, k: nat)
    requires k < |prereqs| && prereqs[k] !in passed
    requires forall j :: 0 <= j < k ==> prereqs[j] in passed
    ensures FirstUnmet(prereqs, passed) == Some(prereqs[k])
  {
    if k > 0 {
      FirstUnmetAt(prereqs[1..], passed, k - 1);
    }
  }

  /** The explanation written for one catalogue course, or `None` when it is skipped. */
  function ExplainCourse(row: CourseRow, s: Student, retake: bool): (r: Option<Explanation>)
    ensures r.Some? ==> r.value.code == row.code
  {
    var unmet := FirstUnmet(RawPrerequisites(row.prerequisites), s.passed);
    if unmet.Some? && unmet.value != "" then Some(UnmetPrerequisite(row.code, unmet.value))
    else if row.code in s.failed && retake then None
    else Some(Unavailable(row.code))
  }

  /**
   * The three outcomes: a course with an unmet prerequisite names the first one as written
   * in its field; otherwise a failed course under retake priority gets no explanation;
   * otherwise it is "unavailable".
   */
  lemma ExplainCourseCases(row: CourseRow, s: Student, retake: bool)
    ensures var unmet := FirstUnmet(RawPrerequisites(row.prerequisites), s.passed);
            && (unmet.Some? ==> ExplainCourse(row, s, retake) == Some(UnmetPrerequisite(row.code, unmet.value)))
            && (unmet.None? && row.code in s.failed && retake ==> ExplainCourse(row, s, retake) == None)
            && (unmet.None? && !(row.code in s.failed && retake) ==> ExplainCourse(row, s, retake) == Some(Unavailable(row.code)))
  {
    var raw := RawPrerequisites(row.prerequisites);
    var unmet := FirstUnmet(raw, s.passed);
    if unmet.Some? {
      NonBlankMembers(Split(row.prerequisites, ','));
      assert Strip(unmet.value) != "";
      assert unmet.value != "";
    }
  }

  /**
   * The explanation pass keeps the pieces as written while the rule strips them: for a
   * field "A, B" with both A and B passed, the rule finds every prerequisite met, yet the
   * explanation pass reports " B", with its leading space, as an unmet prerequisite.
   */
  lemma UnstrippedPrerequisiteReported(row: CourseRow, s: Student, retake: bool, a: string, b: string)
    requires a != "" && Strip(a) == a && ',' !in a
    requires b != "" && Strip(b) == b && ',' !in b
    requires row.prerequisites == a + [','] + [' '] + b
    requires a in s.passed && b in s.passed && [' '] + b !in s.passed
    ensures forall p :: p in ParseCodes(row.prerequisites) ==> p in s.passed
    ensures ExplainCourse(row, s, retake) == Some(UnmetPrerequisite(row.code, [' '] + b))
  {
    CommaSpaceRequisitesMet(row, s, a, b);
    SpacedPieceReported(row, s, retake, a, b);
  }

  /** The rule finds both codes of "a, b" passed. */
  lemma CommaSpaceRequisitesMet(row: CourseRow, s: Student, a: string, b: string)
    requires a != "" && Strip(a) == a && ',' !in a
    requires b != "" && Strip(b) == b && ',' !in b
    requires row.prerequisites == a + [','] + [' '] + b
    requires a in s.passed && b in s.passed
    ensures forall p :: p in ParseCodes(row.prerequisites) ==> p in s.passed
  {
    CommaSpaceParsesStripped(a, b);
  }

  /** The explanation pass reports " b" of "a, b" when `a` is passed and " b" is not. */
  lemma SpacedPieceReported(row: CourseRow, s: Student, retake: bool, a: string, b: string)
    requires a != "" && Strip(a) == a && ',' !in a
    requires b != "" && Strip(b) == b && ',' !in b
    requires row.prerequisites == a + [','] + [' '] + b
    requires a in s.passed && [' '] + b !in s.passed
    ensures ExplainCourse(row, s, retake) == Some(UnmetPrerequisite(row.code, [' '] + b))
  {
    var spaced := [' '] + b;
    CommaSpaceKeptRaw(a, b);
    assert RawPrerequisites(row.prerequisites) == [a, spaced];
    FirstUnmetAt([a, spaced], s.passed, 1);
    assert spaced != "";
  }

  /** The rule's parsing of "a, b" strips the space: the codes are `a` and `b`. */
  lemma CommaSpaceParsesStripped(a: string, b: string)
    requires a != "" && Strip(a) == a && ',' !in a
    requires b != "" && Strip(b) == b && ',' !in b
    ensures ParseCodes(a + [','] + [' '] + b) == [a, b]
  {
    var field := a + [','] + [' '] + b;
    CommaSpaceKeptRaw(a, b);
    ParseCodesStripsRawPieces(field);
    StripDropsLeadingSpace(' ', b);
  }

  /** The explanation pass keeps " b" as the second piece of "a, b". */
  lemma CommaSpaceKeptRaw(a: string, b: string)
    requires a != "" && Strip(a) == a && ',' !in a
    requires b != "" && Strip(b) == b && ',' !in b
    ensures RawPrerequisites(a + [','] + [' '] + b) == [a, [' '] + b]
  {
    SplitCommaSpace(a, b);
    StripDropsLeadingSpace(' ', b);
    NonBlankTwo(a, [' '] + b);
  }

  /** What one iteration of the loop appends for `code`. */
  function ExplainCode(code: string, catalog: seq<CourseRow>, s: Student, retake: bool): seq<Explanation> {
    match GetCourse(catalog, code)
    case None => []
    case Some(row) =>
      match ExplainCourse(row, s, retake)
      case None => []
      case Some(x) => [x]
  }

  /** The explanations for `codes`, visited in order. */
  function ExplainAll(codes: seq<string>, catalog: seq<CourseRow>, s: Student, retake: bool): seq<Explanation> {
    if |codes| == 0 then []
    else ExplainAll(codes[..|codes| - 1], catalog, s, retake) + ExplainCode(codes[|codes| - 1], catalog, s, retake)
  }

  /** One more code visited by the loop appends what that code contributes. */
  lemma ExplainAllStep(codes: seq<string>, k: nat, catalog: seq<CourseRow>, s: Student, retake: bool)
    requires k < |codes|
    ensures ExplainAll(codes[..k + 1], catalog, s, retake) ==
              ExplainAll(codes[..k], catalog, s, retake) + ExplainCode(codes[k], catalog, s, retake)
  {
    assert codes[..k + 1][..k] == codes[..k];
  }

  /** The code of every catalogue row, in table order (duplicates kept). */
  function CatalogCodes(catalog: seq<CourseRow>): (r: seq<string>)
    ensures forall c :: c in r <==> exists i :: 0 <= i < |catalog| && catalog[i].code == c
  {
    if |catalog| == 0 then []
    else
      var rest := CatalogCodes(catalog[1..]);
      assert forall i :: 1 <= i < |catalog| ==> catalog[i] == catalog[1..][i - 1];
      [catalog[0].code] + rest
  }

  /** Keeps the codes that are neither in `recommended` nor in `passed`, in order. */
  function KeepPending(codes: seq<string>, recommended: set<string>, passed: seq<string>): (r: seq<string>)
    ensures |r| <= |codes|
  {
    if |codes| == 0 then []
    else (if codes[0] in recommended || codes[0] in passed then [] else [codes[0]]) + KeepPending(codes[1..], recommended, passed)
  }

  lemma {:induction false} KeepPendingMembers(codes: seq<string>, recommended: set<string>, passed: seq<string>)
    ensures forall c :: c in KeepPending(codes, recommended, passed) <==> c in codes && c !in recommended && c !in passed
  {
    if |codes| > 0 {
      KeepPendingMembers(codes[1..], recommended, passed);
      assert forall c :: c in codes <==> c == codes[0] || c in codes[1..];
    }
  }

  lemma {:induction false} KeepPendingAscending(codes: seq<string>, recommended: set<string>, passed: seq<string>)
    requires StrictlyAscending(codes)
    ensures StrictlyAscending(KeepPending(codes, recommended, passed))
  {
    if |codes| > 0 {
      var rest := KeepPending(codes[1..], recommended, passed);
      KeepPendingAscending(codes[1..], recommended, passed);
      KeepPendingMembers(codes[1..], recommended, passed);
      var r := KeepPending(codes, recommended, passed);
      if r != rest {
        assert r == [codes[0]] + rest;
        forall i, j | 0 <= i < j < |r| ensures StrLess(r[i], r[j]) {
          assert r[j] == rest[j - 1] && rest[j - 1] in codes[1..];
          if i > 0 {
            assert r[i] == rest[i - 1];
          } else {
            var k :| 0 <= k < |codes[1..]| && codes[1..][k] == r[j];
            assert codes[k + 1] == r[j];
          }
        }
      }
    }
  }

  /** `sorted(all_codes - rec_codes - set(passed))`. */
  function PendingCodes(catalog: seq<CourseRow>, recommended: set<string>, passed: seq<string>): (r: seq<string>)
    ensures StrictlyAscending(r)
    ensures forall c :: c in r <==>
              (exists i :: 0 <= i < |catalog| && catalog[i].code == c) && c !in recommended && c !in passed
  {
    var sorted := SortedCodes(CatalogCodes(catalog));
    KeepPendingMembers(sorted, recommended, passed);
    KeepPendingAscending(sorted, recommended, passed);
    KeepPending(sorted, recommended, passed)
  }

  /** Every pending code names a catalogue course. */
  lemma PendingCodeIsInCatalog(catalog: seq<CourseRow>, recommended: set<string>, passed: seq<string>, code: string)
    requires code in PendingCodes(catalog, recommended, passed)
    ensures GetCourse(catalog, code).Some?
  {
    var i :| 0 <= i < |catalog| && catalog[i].code == code;
  }

  ghost predicate ExplainsCode(x: Explanation, code: string, catalog: seq<CourseRow>, s: Student, retake: bool) {
    GetCourse(catalog, code).Some? && ExplainCourse(GetCourse(catalog, code).value, s, retake) == Some(x)
  }

  /** One code yields at most one explanation, and it is the one its first catalogue row gets. */
  lemma ExplainCodeMembers(code: string, catalog: seq<CourseRow>, s: Student, retake: bool)
    ensures |ExplainCode(code, catalog, s, retake)| <= 1
    ensures forall x :: x in ExplainCode(code, catalog, s, retake) <==> ExplainsCode(x, code, catalog, s, retake)
  {
  }

  /** What each code of `codes` contributes, position by position. */
  function ExplainParts(codes: seq<string>, catalog: seq<CourseRow>, s: Student, retake: bool): (r: seq<seq<Explanation>>)
    ensures |r| == |codes|
    ensures forall k :: 0 <= k < |codes| ==> r[k] == ExplainCode(codes[k], catalog, s, retake)
  {
    seq(|codes|, k requires 0 <= k < |codes| => ExplainCode(codes[k], catalog, s, retake))
  }

  lemma {:induction false} ExplainAllFlattens(codes: seq<string>, catalog: seq<CourseRow>, s: Student, retake: bool)
    ensures ExplainAll(codes, catalog, s, retake) == Flatten(ExplainParts(codes, catalog, s, retake))
  {
    if |codes| > 0 {
      var n := |codes| - 1;
      ExplainAllFlattens(codes[..n], catalog, s, retake);
      var parts := ExplainParts(codes, catalog, s, retake);
      assert parts[..n] == ExplainParts(codes[..n], catalog, s, retake);
    }
  }

  /** The explanations for `codes` are exactly those of the individual codes. */
  lemma ExplainAllMembers(codes: seq<string>, catalog: seq<CourseRow>, s: Student, retake: bool)
    ensures forall x :: x in ExplainAll(codes, catalog, s, retake) <==>
              exists k :: 0 <= k < |codes| && x in ExplainCode(codes[k], catalog, s, retake)
  {
    ExplainAllFlattens(codes, catalog, s, retake);
    FlattenMembers(ExplainParts(codes, catalog, s, retake));
  }

  /** An explanation made for `code` is about `code`. */
  lemma ExplainsCodeNamesIt(x: Explanation, code: string, catalog: seq<CourseRow>, s: Student, retake: bool)
    requires ExplainsCode(x, code, catalog, s, retake)
    ensures x.code == code
  {
  }

  /** The explanations name their courses in strictly ascending code order. */
  predicate CodesAscend(xs: seq<Explanation>) {
    forall i, j :: 0 <= i < j < |xs| ==> StrLess(xs[i].code, xs[j].code)
  }

  /** When the codes ascend, the explained codes ascend too: one explanation per code at most. */
  lemma {:induction false} ExplainAllAscending(codes: seq<string>, catalog: seq<CourseRow>, s: Student, retake: bool)
    requires StrictlyAscending(codes)
    ensures CodesAscend(ExplainAll(codes, catalog, s, retake))
  {
    if |codes| > 0 {
      var n := |codes| - 1;
      var init := codes[..n];
      ExplainAllAscending(init, catalog, s, retake);
      ExplainAllMembers(init, catalog, s, retake);
      var prev := ExplainAll(init, catalog, s, retake);
      var last := ExplainCode(codes[n], catalog, s, retake);
      var all := ExplainAll(codes, catalog, s, retake);
      assert all == prev + last;
      ExplainCodeMembers(codes[n], catalog, s, retake);
      forall i, j | 0 <= i < j < |all| ensures StrLess(all[i].code, all[j].code) {
        if j >= |prev| {
          assert i < |prev|;
          assert all[j] in last && all[i] in prev;
          ExplainsCodeNamesIt(all[j], codes[n], catalog, s, retake);
          var k :| 0 <= k < |init| && all[i] in ExplainCode(init[k], catalog, s, retake);
          ExplainCodeMembers(init[k], catalog, s, retake);
          ExplainsCodeNamesIt(all[i], init[k], catalog, s, retake);
          assert codes[k] == init[k];
          assert StrLess(codes[k], codes[n]);
          assert all[i].code == codes[k] && all[j].code == codes[n];
        } else {
          assert all[i] == prev[i] && all[j] == prev[j];
        }
      }
    }
  }
}
