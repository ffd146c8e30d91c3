# Course-advising engine: verified model

This project models the decision logic of a course-registration advisor.
The advisor reads a course catalogue, a credit-limit policy keyed on CGPA, and one
student's record (CGPA, passed and failed codes, target semester, track). It then:

- decides which courses are eligible;
- ranks them by level and credits;
- admits them greedily under the credit cap of the student's CGPA band;
- explains the catalogue courses it leaves out.

Four pieces of the program are modelled, one Dafny module (or two) each:

- **Current engine** (`src/inference_engine.py`).
  - `Eligibility` is the per-course rule `_evaluate`: the short-circuit chain (passed,
    semester, track, prerequisites, corequisites, level progression) and the choice of
    reason text.
  - `Ranking` is the stable sort by (level, -credits) and the greedy cap loop, written
    as specification functions.
  - `Explanations` is the explanation pass.
  - `InferenceEngine` is `recommend_courses` as a method with both loops, proved equal
    to the specification function `Advise`. Lemmas on `Advise` give the promised
    properties.
  - The eligible facts come out of the rule engine's fact store in an order the
    library does not fix. So they are a parameter, `gathered`. The lemmas that need
    to know what it holds require `FactStoreView`: each declared fact once, in any
    order.
- **Policy and catalogue lookups** (`src/KnowledgeBase.py`): module `KnowledgeBase`.
  - Band lookup is first-match with inclusive bounds. A CGPA in no band is an error
    result.
  - `get_course` returns the first row with the code.
  - The retake flag defaults to false.
- **Older engine** (root `inference_engine.py`): module `LegacyEngine`.
  - It is a class `CourseRecommendation` with the same fields as the source object.
  - The three CGPA rules, the row checks and the `recommend_courses` loop are
    methods. Each is proved to produce exactly the state described by specification
    functions.
  - `Verdicts` says how far each row gets through the checks. `AdmitRows` is the
    admission under the limit, and `RowsNotes` is the notes written. `RowsNotes`
    does not take the limit as a parameter, so the notes cannot depend on it.
- **Catalogue editor** (`src/KB_Editor.py`): module `KbEditor`.
  - `list`, `add` and `delete` are functions on a sequence of rows.
  - `edit` is a method: a loop over the eight editable columns updates the first
    matching row.

Python string behaviour the logic depends on is modelled in `Text`:

- `str.strip` over Python's white-space characters;
- `str.split(',')`, including `"".split(',') == ['']`;
- substring `in` (as the older engine's semester check uses it);
- the code-point order `sorted` uses;
- `str(int)`.

Messages are datatypes (`Reason`, `Explanation`, `Note`). Each has a function that
renders the exact sentence the program writes.

Behaviour kept exactly as the code has it:

- **Band edges.** Band lookup takes the first band whose inclusive range contains the
  CGPA. With the table `[(0.0,2.0,12), (2.0,3.0,15), (3.0,4.0,18)]` a CGPA of 2.0 gets
  12 and 3.0 gets 15. The older engine's rules (inference_engine.py:20-33) give 15 and 18 at
  those points; see `LegacyEngine.BandsAgreeOffTheEdges`.
  - `KnowledgeBase.ExampleBandLookups` and `KnowledgeBase.SharedEdgeGoesToEarlierBand`
    state the code's behaviour.
  - `LegacyEngine.BandsAgreeOffTheEdges` also shows the two engines agree everywhere
    in [0, 4] except on the two edges.
- **Duplicate codes.** The catalogue is not checked for duplicate codes. Every lookup
  takes the first row with a code.
- **Current level.** The current level is the highest level among the passed codes
  that are found in the catalogue. Unknown passed codes are ignored, and the level is
  0 when none is found.
- **Unstripped pieces in the explanation pass.** The explanation pass splits the
  prerequisite cell on ',' but does not strip the pieces, while the eligibility rule
  does. For a cell "A, B" with A and B passed, the rule finds both prerequisites met.
  A course that is then left out (by the cap, for example) is still explained as
  having the unmet prerequisite " B". `Explanations.UnstrippedPrerequisiteReported`
  proves this.
- **Older engine, explanation before admission.** The older engine writes its
  "recommended (fits all rules)" note before it tries the cap, so a row the cap turns
  away still gets it. A passed course with an unmet prerequisite cell gets an "unmet
  prerequisites" note, because the passed check comes last.
- **Older engine, trailing commas.** The older engine does not drop blank pieces. A
  cell such as "A," needs the empty code "" to be passed.

## Model

| member | source | states |
|---|---|---|
| `KnowledgeBase.ListAllCourses` | src/KnowledgeBase.py:11-12 | every row is returned, in table order |
| `KnowledgeBase.GetCourse` | src/KnowledgeBase.py:14-16 | absent exactly when no row has the code; otherwise a row of the table with that code |
| `KnowledgeBase.GetCourseFirstMatch` | src/KnowledgeBase.py:14-16 | the row returned is the first one with the code |
| `KnowledgeBase.InBand` | src/KnowledgeBase.py:20 | the inclusive band test (no contract of its own; used in the contract of `KnowledgeBase.MaxCreditsForCgpa`) |
| `KnowledgeBase.MaxCreditsForCgpa` | src/KnowledgeBase.py:18-22 | fails with the out-of-range error exactly when no band contains the CGPA (bounds inclusive); otherwise the cap of a band that contains it |
| `KnowledgeBase.FirstContainingBandWins` | src/KnowledgeBase.py:19-21 | the cap is that of the first band in list order that contains the CGPA |
| `KnowledgeBase.SharedEdgeGoesToEarlierBand` | src/KnowledgeBase.py:20 | a CGPA on the shared edge of two adjacent bands gets the earlier band's cap, never the later one's when they differ |
| `KnowledgeBase.ExampleBandLookups` | src/KnowledgeBase.py:18-22 | with the three-band table `ExampleBands`: 1.5→12, 2.0→12, 2.5→15, 3.0→15, 3.5→18, 4.1 fails |
| `KnowledgeBase.RetakeFailedFirst` | src/KnowledgeBase.py:24-25 | the configured flag, false when the key is absent |
| `Text.IsSpace` | src/inference_engine.py:56 | the white-space characters of Python's `str.isspace()` (no contract of its own; a definition used by `Text.Strip`) |
| `Text.TrimLeft` | src/inference_engine.py:56 | the result is a suffix of the input; only white space is dropped, and the result does not start with white space |
| `Text.TrimRight` | src/inference_engine.py:56 | the result is a prefix of the input; only white space is dropped, and the result does not end with white space |
| `Text.Strip` | src/inference_engine.py:56 | neither end of the result is white space; the result is empty exactly when the input is all white space |
| `Text.StripRemovesOnlyEnds` | src/inference_engine.py:56 | the stripped string is a slice of the input with only white space before and after it, so nothing but the two white-space runs is removed |
| `Text.StripKeepsTrimmed` | src/inference_engine.py:56 | a string without white space at its ends is unchanged by stripping |
| `Text.StripDropsLeadingSpace` | src/inference_engine.py:56 | a leading white-space character does not survive stripping |
| `Text.Split` | src/inference_engine.py:56 | at least one piece, and no piece contains the separator |
| `Text.SplitWithoutSeparator` | src/inference_engine.py:56 | a string without the separator splits into itself alone |
| `Text.SplitAtSeparator` | src/inference_engine.py:56 | the piece before the first separator comes first, and the rest is split the same way |
| `Text.SplitJoin` | src/inference_engine.py:56 | joining the pieces with the separator gives the original string back |
| `Text.SplitCommaSpace` | src/inference_engine.py:56 | a cell "A, B" splits on ',' into "A" and " B" |
| `Text.Occurs` | inference_engine.py:57 | Python's substring `in` (no contract of its own; specified by `Text.OccursAt`) |
| `Text.OccursAt` | inference_engine.py:57 | the substring test holds exactly when the needle is a prefix of some suffix of the haystack |
| `Text.OccursInItself` | inference_engine.py:57 | the substring test accepts an exact match |
| `Text.OccursInside` | inference_engine.py:57 | a string occurs in any string built around it |
| `Text.StrLess` | src/inference_engine.py:184 | Python's `<` on `str`, by code point (no contract of its own; specified as a strict total order by the four lemmas below) |
| `Text.StrLessIrreflexive` | src/inference_engine.py:184 | no code sorts before itself |
| `Text.StrLessAsymmetric` | src/inference_engine.py:184 | two codes are never each before the other |
| `Text.StrLessTransitive` | src/inference_engine.py:184 | the code order is transitive |
| `Text.StrLessTotal` | src/inference_engine.py:184 | two different codes are always ordered |
| `Text.InsertCode` | src/inference_engine.py:184 | inserting into a strictly ascending list keeps it strictly ascending and adds exactly the new code |
| `Text.SortedCodes` | src/inference_engine.py:184 | `sorted(set(...))`: strictly ascending, with exactly the given codes |
| `Text.AscendingHeadIsLeast` | src/inference_engine.py:184 | the first code of a sorted list precedes all the others |
| `Text.AscendingUnique` | src/inference_engine.py:184 | two strictly ascending lists with the same codes are equal, so the sorted order is unique |
| `Text.NatToString` | inference_engine.py:63 | at least one character, all decimal digits, and no leading zero |
| `Text.NatToStringValue` | inference_engine.py:63 | reading the digits back gives the number |
| `Text.IntToStringValue` | inference_engine.py:63 | `str(n)`: a '-' exactly for a negative number, followed by the digits of its absolute value, which read back as that value |
| `SeqUtil.SubsequenceExtend` | src/inference_engine.py:170-178 | appending to the source list, or to both lists, keeps a subsequence a subsequence |
| `SeqUtil.SubsequenceElements` | src/inference_engine.py:170-178 | every element of a subsequence is an element of the list |
| `SeqUtil.FlattenMembers` | src/inference_engine.py:184-197 | an element of the concatenated parts is an element of one of the parts, and conversely |
| `SeqUtil.FilterSomeMembers` | src/inference_engine.py:52-58 | the values kept are exactly those some element maps to |
| `SeqUtil.FilterAppend` | src/inference_engine.py:56 | filtering a concatenation is the concatenation of the filtered parts, so filtering keeps order and count |
| `SeqUtil.FilterFirst` | src/inference_engine.py:56 | the first element kept is the first element accepted |
| `Eligibility.NonBlank` | src/inference_engine.py:56 | never more pieces than given (the filter `if c.strip()`, shared with line 187; its content is `Eligibility.NonBlankMembers`, its order `Eligibility.NonBlankAppend` and `Eligibility.NonBlankFirst`) |
| `Eligibility.NonBlankMembers` | src/inference_engine.py:187 | the pieces kept are exactly those that are not blank, unstripped |
| `Eligibility.NonBlankKeepsAll` | src/inference_engine.py:187 | nothing is dropped when no piece is blank |
| `Eligibility.NonBlankTwo` | src/inference_engine.py:187 | two pieces that are not blank are both kept, in order and unstripped |
| `Eligibility.NonBlankIsFilter` | src/inference_engine.py:56 | the filter keeps exactly the pieces whose strip is not empty, in the general filter's sense |
| `Eligibility.NonBlankAppend` | src/inference_engine.py:56 | filtering a concatenation filters each part: the kept pieces stay in the cell's order, each kept once |
| `Eligibility.NonBlankFirst` | src/inference_engine.py:187 | the first piece kept is the cell's first piece that is not blank |
| `Eligibility.StripEach` | src/inference_engine.py:56 | one result per piece, in order, each the stripped piece |
| `Eligibility.CleanCodes` | src/inference_engine.py:56-57 | one code per non-blank piece, in order: code i is the stripped form of the i-th non-blank piece |
| `Eligibility.ParseCodes` | src/inference_engine.py:56-57 | the cell's codes are the non-blank pieces of its split on ',', in order, each stripped |
| `Eligibility.CleanCodesMembers` | src/inference_engine.py:56-57 | the parsed codes are exactly the non-empty stripped pieces of the cell |
| `Eligibility.FactOf` | src/inference_engine.py:55-67 | the fact loaded for a row: its code, name, parsed requisite lists, credits, semester, track and level (no contract of its own; its lists are specified by `Eligibility.ParseCodes`) |
| `Eligibility.PassedLevels` | src/inference_engine.py:112-116 | the levels of the passed codes found in the catalogue (no contract of its own; specified by `Eligibility.PassedLevelsMembers`) |
| `Eligibility.PassedLevelsMembers` | src/inference_engine.py:112-116 | the listed levels are exactly the levels of the passed codes found in the catalogue |
| `Eligibility.MaxOrZero` | src/inference_engine.py:117 | 0 for no levels; otherwise one of the levels, and no level exceeds it |
| `Eligibility.CurrentLevel` | src/inference_engine.py:112-117 | at least the level of every passed code found in the catalogue; 0 when none is found; otherwise the level of one of them |
| `Eligibility.Unmet` | src/inference_engine.py:104-110 | exactly the listed codes that are not passed |
| `Eligibility.Reason.Message` | src/inference_engine.py:122-127 | the sentence for a reason; it opens with the course code |
| `Eligibility.ChooseReason` | src/inference_engine.py:122-127 | "prioritized" exactly for a failed code under retake priority; otherwise it names the first prerequisite exactly when there is one; otherwise the generic reason |
| `Eligibility.Evaluate` | src/inference_engine.py:90-135 | a fact is declared exactly when the code is not passed, the semester is the student's or 'Both', the track is the student's or 'All', every prerequisite and corequisite is passed, and the level is at most the current level + 1; the fact carries the course's code, credits, level and the chosen reason |
| `Eligibility.ReasonNamesFirstListedPrerequisite` | src/inference_engine.py:122-127 | for a declared course that is not a prioritised retake and has a non-blank prerequisite piece, the reason names the first kept piece of the cell, stripped |
| `Eligibility.ReasonNamesFirstNonBlankPiece` | src/inference_engine.py:122-127 | the same stated on the cell itself: the piece named is piece k of the split, the first that is not blank (through `Eligibility.NonBlankFirst`) |
| `Eligibility.DeclaredFactIsRowsCode` | src/inference_engine.py:94-135 | a declared fact carries its row's code, and that code is not passed |
| `Eligibility.EligibleAmong` | src/inference_engine.py:90-135 | the facts the rule declares for the given rows, in row order (no contract of its own; specified by `Eligibility.EligibleAmongMembers`) |
| `Eligibility.EligibleAmongMembers` | src/inference_engine.py:52-135 | the declared facts are exactly those some catalogue row evaluates to |
| `Eligibility.EligibleFacts` | src/inference_engine.py:52-135 | every fact declared in one run over the catalogue (no contract of its own; `Eligibility.EligibleAmong` over the whole catalogue) |
| `Ranking.Insert` | src/inference_engine.py:164 | one insertion step of the sort (no contract of its own; specified by `Ranking.InsertElements`, `Ranking.InsertRanked` and `Ranking.InsertWithKey`) |
| `Ranking.RankOrder` | src/inference_engine.py:164 | the sort, as a stable insertion sort (no contract of its own; specified by `Ranking.RankOrderSortsAndPermutes` and `Ranking.RankOrderIsStable`) |
| `Ranking.InsertElements` | src/inference_engine.py:164 | one insertion step of the sort adds exactly the inserted fact |
| `Ranking.InsertRanked` | src/inference_engine.py:164 | one insertion step keeps the list ranked |
| `Ranking.RankOrderSortsAndPermutes` | src/inference_engine.py:164 | the sorted list is ordered by (level ascending, credits descending) and is a permutation of the input |
| `Ranking.InsertWithKey` | src/inference_engine.py:164 | one insertion step keeps equal-key facts in their relative order |
| `Ranking.RankOrderIsStable` | src/inference_engine.py:164 | facts with the same (level, credits) keep their input order |
| `Ranking.CapPass` | src/inference_engine.py:168-178 | the admitted facts and running total after n facts (no contract of its own; specified by `Ranking.CapPassInvariant` and `Ranking.SelectionStep`) |
| `Ranking.SelectUnderCap` | src/inference_engine.py:167-178 | what the cap loop admits (no contract of its own; specified by `Ranking.SelectionWithinCap` and `Ranking.SelectionStep`) |
| `Ranking.CapPassInvariant` | src/inference_engine.py:167-178 | the running total equals the admitted credits; once anything is admitted the total is within the cap; the admitted facts are a subsequence of those seen |
| `Ranking.CapPassAgree` | src/inference_engine.py:170-178 | what the loop has admitted after n facts depends only on those n facts |
| `Ranking.SelectionWithinCap` | src/inference_engine.py:167-178 | the admitted credits sum to at most the cap, and the admitted facts are a subsequence of the ranked list |
| `Ranking.SelectionStep` | src/inference_engine.py:170-178 | a fact is admitted exactly when the credits admitted before it plus its own fit the cap; a rejected fact changes nothing |
| `Explanations.RawPrerequisites` | src/inference_engine.py:187 | the non-blank pieces of the split, unstripped (no contract of its own; specified by `Eligibility.NonBlankMembers`) |
| `Explanations.ParseCodesStripsRawPieces` | src/inference_engine.py:187 | the rule's codes and the explanation pass's pieces line up one to one, code i being piece i stripped |
| `Explanations.FirstUnmet` | src/inference_engine.py:188 | none exactly when every prerequisite is passed; otherwise a prerequisite that is not passed |
| `Explanations.FirstUnmetAt` | src/inference_engine.py:188 | the prerequisite reported is the earliest one that is not passed |
| `Explanations.Explanation.Message` | src/inference_engine.py:190-197 | the sentence for an explanation; it opens with the course code |
| `Explanations.ExplainCourse` | src/inference_engine.py:185-197 | any explanation made is about the course itself |
| `Explanations.ExplainCourseCases` | src/inference_engine.py:185-197 | the first unmet prerequisite is reported when there is one; otherwise a failed course under retake priority gets nothing; otherwise "unavailable" |
| `Explanations.UnstrippedPrerequisiteReported` | src/inference_engine.py:187-191 | for a cell "A, B" with A and B passed and " B" not passed, the rule finds every prerequisite met, yet the explanation names " B" as unmet |
| `Explanations.CommaSpaceParsesStripped` | src/inference_engine.py:56 | the rule reads the cell "A, B" as the codes A and B |
| `Explanations.CommaSpaceKeptRaw` | src/inference_engine.py:187 | the explanation pass reads the cell "A, B" as the pieces "A" and " B" |
| `Explanations.CommaSpaceRequisitesMet` | src/inference_engine.py:56 | with A and B passed, every code the rule parses from "A, B" is passed |
| `Explanations.SpacedPieceReported` | src/inference_engine.py:187-191 | with A passed and " B" not passed, the explanation for "A, B" names " B" |
| `Explanations.ExplainAll` | src/inference_engine.py:184-197 | the explanations for the codes visited in order (no contract of its own; specified by `Explanations.ExplainAllMembers` and `Explanations.ExplainAllAscending`) |
| `Explanations.ExplainAllStep` | src/inference_engine.py:184-197 | one more loop iteration appends what that code contributes |
| `Explanations.CatalogCodes` | src/inference_engine.py:182 | exactly the codes of the catalogue rows |
| `Explanations.KeepPending` | src/inference_engine.py:184 | never more codes than given (its content is `Explanations.KeepPendingMembers`, its order `Explanations.KeepPendingAscending`) |
| `Explanations.KeepPendingMembers` | src/inference_engine.py:184 | exactly the codes that are neither recommended nor passed are kept |
| `Explanations.KeepPendingAscending` | src/inference_engine.py:184 | filtering a strictly ascending list keeps it strictly ascending |
| `Explanations.PendingCodes` | src/inference_engine.py:182-184 | strictly ascending, and exactly the catalogue codes that are neither recommended nor passed |
| `Explanations.PendingCodeIsInCatalog` | src/inference_engine.py:185 | every code visited by the explanation loop has a catalogue row |
| `Explanations.ExplainCode` | src/inference_engine.py:185-197 | what one loop iteration appends for a code (no contract of its own; specified by `Explanations.ExplainCodeMembers`) |
| `Explanations.ExplainCodeMembers` | src/inference_engine.py:185-197 | one code yields at most one explanation, the one its first catalogue row gets |
| `Explanations.ExplainParts` | src/inference_engine.py:184-197 | one part per code, each that code's contribution |
| `Explanations.ExplainAllFlattens` | src/inference_engine.py:184-197 | the loop's output is the concatenation of the per-code contributions |
| `Explanations.ExplainAllMembers` | src/inference_engine.py:184-197 | the explanations are exactly those of the individual codes |
| `Explanations.ExplainsCodeNamesIt` | src/inference_engine.py:190-197 | an explanation made for a code names that code |
| `Explanations.ExplainAllAscending` | src/inference_engine.py:184 | for ascending codes, the explained codes strictly ascend |
| `InferenceEngine.RecommendedCodes` | src/inference_engine.py:183 | exactly the codes of the recommendations |
| `InferenceEngine.Advise` | src/inference_engine.py:158-199 | what `recommend_courses` returns (no contract of its own; specified by the `InferenceEngine` lemmas below) |
| `InferenceEngine.RecommendCourses` | src/inference_engine.py:158-199 | the sort, the cap loop and the explanation loop return exactly `Advise`: the error when the CGPA is in no band, otherwise the capped selection from the ranked facts and the explanations of the pending codes |
| `InferenceEngine.AdmitUnderCap` | src/inference_engine.py:167-178 | the cap loop admits exactly the selection `SelectUnderCap` describes |
| `InferenceEngine.ExplainPending` | src/inference_engine.py:184-197 | the explanation loop produces exactly `ExplainAll` of the pending codes |
| `InferenceEngine.AdviseFailsOutsideEveryBand` | src/inference_engine.py:167 | the run fails exactly when no band contains the CGPA, with the out-of-range error |
| `InferenceEngine.RecommendationsFitAndKeepRank` | src/inference_engine.py:164-178 | the recommended credits are within the cap; the recommendations are a subsequence of the ranked facts, are themselves ranked, and are drawn from the gathered facts |
| `InferenceEngine.CapPassRanked` | src/inference_engine.py:170-178 | whatever the cap loop admits from a ranked list is ranked |
| `InferenceEngine.RecommendationsAreEligible` | src/inference_engine.py:94-178 | every recommendation is not passed and was declared by some catalogue row that passes all six checks |
| `InferenceEngine.ExplanationsCharacterized` | src/inference_engine.py:180-197 | the explanations strictly ascend by code and are exactly the explanations of the catalogue codes that are neither recommended nor passed, each the one its first row gets |
| `LegacyEngine.CreditLimitFor` | inference_engine.py:20-33 | the limit the CGPA rule that fires sets (no contract of its own; specified by `LegacyEngine.ExactlyOneRuleApplies`) |
| `LegacyEngine.ExactlyOneRuleApplies` | inference_engine.py:20-33 | exactly one of the three CGPA rules applies to any CGPA; the limit set is 12, 15 or 18 and the note the band's own, accordingly |
| `LegacyEngine.BandNote` | inference_engine.py:20-33 | the note of the rule that fires (no contract of its own; specified by `LegacyEngine.ExactlyOneRuleApplies`) |
| `LegacyEngine.Note.Text` | inference_engine.py:23-99 | the exact line for a note; every note about a course opens with its code |
| `LegacyEngine.CreditLimitMonotone` | inference_engine.py:20-33 | a higher CGPA never gives a lower limit |
| `LegacyEngine.BandsAgreeOffTheEdges` | inference_engine.py:20-33 | the older rules and the three-band table agree on [0, 4] off 2.0 and 3.0; on 2.0 the rules give 15 and the table 12, on 3.0 18 and 15 |
| `LegacyEngine.SemesterSkip` | inference_engine.py:56-57 | `is_semester_offered`, which answers "skip" (no contract of its own; see `LegacyEngine.SemesterInCellIsKept`) |
| `LegacyEngine.LevelSkip` | inference_engine.py:59-61 | `is_course_level`'s condition (no contract of its own; see `LegacyEngine.NoLevelSkipFromLevelFour`) |
| `LegacyEngine.NoLevelSkipFromLevelFour` | inference_engine.py:59-65 | a student at level 4 or above is never skipped for level |
| `LegacyEngine.SemesterInCellIsKept` | inference_engine.py:56-57 | a row whose offered cell contains the semester is not skipped |
| `LegacyEngine.RequirementsMet` | inference_engine.py:36-54 | `prerequisites_met` / `corequisites_met`: a NaN or empty cell, or every piece passed (no contract of its own; specified by `LegacyEngine.AllPiecesPassedMeans`) |
| `LegacyEngine.AllPiecesPassed` | inference_engine.py:40-44 | the piece loop (no contract of its own; specified by `LegacyEngine.AllPiecesPassedMeans`) |
| `LegacyEngine.AllPiecesPassedMeans` | inference_engine.py:40-44 | the piece loop succeeds exactly when every stripped piece is a passed code |
| `LegacyEngine.VerdictOf` | inference_engine.py:88-103 | how far one row gets through the checks, in the loop's order (no contract of its own; used by the lemmas below) |
| `LegacyEngine.Verdicts` | inference_engine.py:86-103 | one verdict per row |
| `LegacyEngine.VerdictsAt` | inference_engine.py:86-103 | entry i of the verdicts is how far row i gets through the checks |
| `LegacyEngine.AdmitRows` | inference_engine.py:77-108 | the admitted rows and running total after n rows (no contract of its own; specified by the admission lemmas below) |
| `LegacyEngine.RowNotes` | inference_engine.py:88-106 | the notes one row contributes given its verdict, independent of the limit (no contract of its own; specified by `LegacyEngine.RowNotesVerdictCount`) |
| `LegacyEngine.RowsNotes` | inference_engine.py:88-108 | the notes written after n rows; it takes no limit (no contract of its own; specified by `LegacyEngine.OneVerdictPerConsideredRow`) |
| `LegacyEngine.AdmitRowsStep` | inference_engine.py:86-108 | one more row is admitted exactly when it was considered and fits, and its notes are appended |
| `LegacyEngine.AdmissionInvariant` | inference_engine.py:77-108 | the total is the admitted credits, and within the limit once anything is admitted |
| `LegacyEngine.AdmissionKeepsOrder` | inference_engine.py:86-108 | the admitted rows keep catalogue order |
| `LegacyEngine.OnlyConsideredRowsAdmitted` | inference_engine.py:102-108 | only rows that pass every check are admitted |
| `LegacyEngine.AdmittedRowsPassEveryCheck` | inference_engine.py:88-103 | an admitted row is not passed, is offered, is not level-skipped, and meets its prerequisite and corequisite cells |
| `LegacyEngine.CountVerdictsAppend` | inference_engine.py:70-75 | the "prioritized"/"recommended" notes of two lists add up |
| `LegacyEngine.RowNotesVerdictCount` | inference_engine.py:88-106 | a row contributes at most one note, and one "prioritized"/"recommended" note exactly when it is considered |
| `LegacyEngine.OneVerdictPerConsideredRow` | inference_engine.py:70-108 | each row that reaches the explanation step gets exactly one "prioritized"/"recommended" note |
| `LegacyEngine.AdmittedAtMostConsidered` | inference_engine.py:102-108 | no more rows are admitted than reach the explanation step, so there are at least as many such notes as admitted rows |
| `LegacyEngine.RejectedRowStillExplained` | inference_engine.py:105-108 | a row the limit turns away still gets its note, and the admitted rows and total are unchanged |
| `LegacyEngine.PassedRowWithUnmetPrerequisitesIsReported` | inference_engine.py:88-103 | a passed course with an unmet prerequisite cell gets the "unmet prerequisites" note |
| `LegacyEngine.CourseRecommendation.constructor` | inference_engine.py:11-18 | the lists start empty and the limit at 0 |
| `LegacyEngine.CourseRecommendation.LowCgpa` | inference_engine.py:20-23 | limit 12 and the "CGPA < 2.0" note appended |
| `LegacyEngine.CourseRecommendation.MidCgpa` | inference_engine.py:25-28 | limit 15 and the "2.0 ≤ CGPA < 3.0" note appended |
| `LegacyEngine.CourseRecommendation.HighCgpa` | inference_engine.py:30-33 | limit 18 and the "CGPA ≥ 3.0" note appended |
| `LegacyEngine.CourseRecommendation.ApplyCgpaBand` | inference_engine.py:20-33 | the one rule that applies fires: limit and note of the CGPA's band |
| `LegacyEngine.CourseRecommendation.RequisitesMet` | inference_engine.py:36-54 | true exactly for a NaN or empty cell, or when every comma-separated stripped piece is passed |
| `LegacyEngine.CourseRecommendation.IsSemesterOffered` | inference_engine.py:56-57 | "skip" exactly when the semester is not in the cell and the cell is not "Both"; never for an exact match or "Both" |
| `LegacyEngine.CourseRecommendation.IsCourseLevel` | inference_engine.py:59-65 | "skip" exactly when the course is more than one level up and the student is below level 4, and the note is appended exactly then |
| `LegacyEngine.CourseRecommendation.IsPassedCourse` | inference_engine.py:67-68 | true exactly for a passed code |
| `LegacyEngine.CourseRecommendation.AddExplanation` | inference_engine.py:70-75 | appends "prioritized" for a failed code, otherwise "recommended (fits all rules)" |
| `LegacyEngine.CourseRecommendation.ConsiderRow` | inference_engine.py:88-108 | one iteration: the note of the row's verdict is appended, and the row is admitted exactly when it was considered and fits under the limit |
| `LegacyEngine.CourseRecommendation.AddToRecommendations` | inference_engine.py:77-81 | appends the row exactly when the total plus its credits is within the limit, and says whether it did |
| `LegacyEngine.CourseRecommendation.RecommendCourses` | inference_engine.py:83-108 | appends exactly the rows `AdmitRows` admits under the current limit, and the notes `RowsNotes` gives, to the two lists; the limit is unchanged |
| `LegacyEngine.CourseRecommendation.RunEngine` | inference_engine.py:110-114 | the band rule, then the loop: limit of the band, the band note, then the loop's rows and notes |
| `KbEditor.HasCode` | src/KB_Editor.py:23 | some row has the code, as `code in df['Course Code'].values` (no contract of its own; the refusal condition in the contracts below) |
| `KbEditor.RowsWithCode` | src/KB_Editor.py:18 | exactly the rows with the code, in table order |
| `KbEditor.RowsWithoutCode` | src/KB_Editor.py:66 | exactly the rows without the code, in table order |
| `KbEditor.FiltersPartition` | src/KB_Editor.py:15-67 | every row goes to exactly one of the two filters |
| `KbEditor.RowsWithoutAbsentCode` | src/KB_Editor.py:66 | removing a code no row has keeps the table |
| `KbEditor.ListCourses` | src/KB_Editor.py:15-19 | the whole table without a code (or with an empty one); otherwise exactly `RowsWithCode`, the rows with that code in table order |
| `KbEditor.NewRow` | src/KB_Editor.py:26-36 | the row `add` builds, a missing requisite or description as '' (no contract of its own; used in the contract of `KbEditor.AddCourse`) |
| `KbEditor.AddCourse` | src/KB_Editor.py:21-38 | refused with "already exists" exactly when the code is present; otherwise the table with one new row at the end, missing requisites and description as '' |
| `KbEditor.AddedCourseIsFound` | src/KB_Editor.py:21-38 | after an add, looking the code up finds the new row |
| `KbEditor.DeleteCourse` | src/KB_Editor.py:61-67 | refused with "not found" exactly when the code is absent; otherwise exactly `RowsWithoutCode`, the rows without the code in table order, and fewer rows |
| `KbEditor.AddThenDelete` | src/KB_Editor.py:21-67 | deleting a course just added gives the original table back |
| `KbEditor.IndexOfCode` | src/KB_Editor.py:42-46 | absent exactly when no row has the code; otherwise the first position with the code |
| `KbEditor.SetColumn` | src/KB_Editor.py:57-58 | one column assignment, done only when the value was given (no contract of its own; specified by `KbEditor.SetColumnStep`) |
| `KbEditor.SetColumnStep` | src/KB_Editor.py:47-58 | visiting one more editable column applies that column's given value |
| `KbEditor.EditCourse` | src/KB_Editor.py:40-59 | refused with "not found" exactly when the code is absent; otherwise only the first row with the code changes, every given field takes its new value, and the code and the other fields stay |
| `KbEditor.EditedCourseIsFound` | src/KB_Editor.py:40-59 | after an edit, looking the code up finds the edited row |

## Left out

- File loading and saving (the CSV and JSON reads, `load_kb`/`save_kb`) are not modelled. Tables and the policy are in-memory inputs, and saving is the returned table.
- Command-line parsing, `sys.exit`, the markdown print of `list`, logging, the `collections.Mapping` patch and the `__main__` demos are not modelled. Failures are error results.
- The Streamlit application `src/App.py` is not part of this model.
- Rule-engine internals are not modelled: fact storage, pattern matching and agenda order.
  - Current engine: the eligible facts are the `gathered` parameter; lemmas that rely on their content require `FactStoreView`.
  - Older engine: the CGPA rule is taken to fire before `recommend_courses` (`RunEngine`). `reset()` does not clear the object's lists, and the model keeps them accumulating.
- The sort is the library's stable `list.sort`. It is modelled as a stable insertion sort function (`Ranking.RankOrder`), not run in place.
- A NaN CGPA, for which none of the comparisons hold, is not modelled; CGPAs are reals.
- NaN requisite cells are modelled only in the older engine (`None`). The current engine's catalogue is read with NaN replaced by ''.
- The editor reads every column as text. The model keeps credits and level as integers.
- Unicode handling beyond Python's white-space set is not modelled: strings are sequences of code points compared by code point.
- Messages are datatypes with a rendering function. The proofs are about the datatypes, not the rendered strings.
- `pandas` operations (`iterrows`, `concat`, boolean filters, `df.at`) are modelled as sequence operations.
