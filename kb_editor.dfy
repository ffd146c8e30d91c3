/**
 * The catalogue editor's table operations: list (optionally one code), add a course
 * under a new code, edit the supplied fields of the first row with a code, and delete
 * every row with a code. Each failure is an error result instead of an exit.
 */
module KbEditor {
  import opened Wrappers
  import opened SeqUtil
  import opened KnowledgeBase

  datatype EditorError = AlreadyExists(code: string) | NotFound(code: string)

  /** The arguments of `add`; the optional ones are `None` when not given. */
  datatype NewCourse = NewCourse(
    code: string,
    name: string,
    prereqs: Option<string>,
    coreqs: Option<string>,
    credits: int,
    semester: string,
    track: string,
    level: int,
    description: Option<string>)

  /** The arguments of `edit`; a field is changed only when its value is given. */
  datatype CourseEdit = CourseEdit(
    name: Option<string>,
    prerequisites: Option<string>,
    corequisites: Option<string>,
    credits: Option<int>,
    semesterOffered: Option<string>,
    track: Option<string>,
    level: Option<int>,
    description: Option<string>)

  predicate HasCode(table: seq<CourseRow>, code: string) {
    exists i :: 0 <= i < |table| && table[i].code == code
  }

  /** The rows whose code is `code`, in table order. */
  function RowsWithCode(table: seq<CourseRow>, code: string): (r: seq<CourseRow>)
    ensures forall row :: row in r <==> row in table && row.code == code
    ensures IsSubsequence(r, table)
  {
    if |table| == 0 then []
    else
      var init := table[..|table| - 1];
      var last := table[|table| - 1];
      var rest := RowsWithCode(init, code);
      assert table == init + [last];
      SubsequenceExtend(rest, init, last);
      if last.code == code then rest + [last] else rest
  }

  /** The rows whose code is not `code`, in table order. */
  function RowsWithoutCode(table: seq<CourseRow>, code: string): (r: seq<CourseRow>)
    ensures forall row :: row in r <==> row in table && row.code != code
    ensures IsSubsequence(r, table)
  {
    if |table| == 0 then []
    else
      var init := table[..|table| - 1];
      var last := table[|table| - 1];
      var rest := RowsWithoutCode(init, code);
      assert table == init + [last];
      SubsequenceExtend(rest, init, last);
      if last.code != code then rest + [last] else rest
  }

  /** Every row goes to exactly one of the two filters. */
  lemma {:induction false} FiltersPartition(table: seq<CourseRow>, code: string)
    ensures |RowsWithCode(table, code)| + |RowsWithoutCode(table, code)| == |table|
  {
    if |table| > 0 {
      FiltersPartition(table[..|table| - 1], code);
    }
  }

  /** Filtering out a code no row has keeps the table as it is. */
  lemma {:induction false} RowsWithoutAbsentCode(table: seq<CourseRow>, code: string)
    requires !HasCode(table, code)
    ensures RowsWithoutCode(table, code) == table
  {
    if |table| > 0 {
      var init, last := table[..|table| - 1], table[|table| - 1];
      assert !HasCode(init, code) by {
        forall i | 0 <= i < |init| ensures init[i].code != code {
          assert init[i] == table[i];
        }
      }
      assert last.code != code;
      RowsWithoutAbsentCode(init, code);
      assert RowsWithoutCode(table, code) == RowsWithoutCode(init, code) + [last];
      assert table == init + [last];
    }
  }

  /** `list_courses`: the whole table, or only the rows of the code when one is given. */
  function ListCourses(table: seq<CourseRow>, code: Option<string>): (r: seq<CourseRow>)
    ensures code.None? || code == Some("") ==> r == table
    ensures code.Some? && code.value != "" ==> r == RowsWithCode(table, code.value)
    ensures code.Some? && code.value != "" ==> forall row :: row in r <==> row in table && row.code == code.value
  {
    if code.Some? && code.value != "" then RowsWithCode(table, code.value) else table
  }

  /** The row `add` builds: missing requisites and description become ''. */
  function NewRow(c: NewCourse): CourseRow {
    CourseRow(c.code, c.name, c.prereqs.GetOr(""), c.coreqs.GetOr(""), c.credits,
              c.semester, c.track, c.level, c.description.GetOr(""))
  }

  /** `add_course`: refused for a code already present, otherwise one row appended at the end. */
  function AddCourse(table: seq<CourseRow>, c: NewCourse): (r: Result<seq<CourseRow>, EditorError>)
    ensures r.Failure? <==> HasCode(table, c.code)
    ensures r.Failure? ==> r.error == AlreadyExists(c.code)
    ensures r.Success? ==> |r.value| == |table| + 1 && r.value[..|table|] == table
    ensures r.Success? ==> r.value[|table|] == NewRow(c)
  {
    if HasCode(table, c.code) then Failure(AlreadyExists(c.code))
    else
      var t := table + [NewRow(c)];
      assert t[..|table|] == table;
      Success(t)
  }

  /** After a successful add, looking the code up finds the new row with the given fields. */
  lemma AddedCourseIsFound(table: seq<CourseRow>, c: NewCourse)
    requires AddCourse(table, c).Success?
    ensures GetCourse(AddCourse(table, c).value, c.code) == Some(NewRow(c))
  {
    var t := AddCourse(table, c).value;
    forall j | 0 <= j < |table| ensures t[j].code != c.code {
      assert t[j] == table[j];
    }
    GetCourseFirstMatch(t, c.code, |table|);
  }

  /** `delete_course`: refused for an absent code, otherwise every row with the code removed. */
  function DeleteCourse(table: seq<CourseRow>, code: string): (r: Result<seq<CourseRow>, EditorError>)
    ensures r.Failure? <==> !HasCode(table, code)
    ensures r.Failure? ==> r.error == NotFound(code)
    ensures r.Success? ==> r.value == RowsWithoutCode(table, code)
    ensures r.Success? ==> forall row :: row in r.value <==> row in table && row.code != code
    ensures r.Success? ==> IsSubsequence(r.value, table) && |r.value| < |table|
  {
    if !HasCode(table, code) then Failure(NotFound(code))
    else
      FiltersPartition(table, code);
      var i :| 0 <= i < |table| && table[i].code == code;
      assert table[i] in RowsWithCode(table, code);
      Success(RowsWithoutCode(table, code))
  }

  /** Deleting a course just added gives the table back. */
  lemma AddThenDelete(table: seq<CourseRow>, c: NewCourse)
    requires AddCourse(table, c).Success?
    ensures DeleteCourse(AddCourse(table, c).value, c.code) == Success(table)
  {
    var t := AddCourse(table, c).value;
    assert t == table + [NewRow(c)];
    assert t[..|t| - 1] == table;
    RowsWithoutAbsentCode(table, c.code);
    assert HasCode(t, c.code) by { assert t[|table|].code == c.code; }
  }

  /** `df.index[df['Course Code'] == code][0]`: the first position of the code, if any. */
  function IndexOfCode(table: seq<CourseRow>, code: string): (r: Option<nat>)
    ensures r.None? <==> !HasCode(table, code)
    ensures r.Some? ==> r.value < |table| && table[r.value].code == code &&
                        forall j :: 0 <= j < r.value ==> table[j].code != code
  {
    if |table| == 0 then None
    else if table[0].code == code then Some(0)
    else
      match IndexOfCode(table[1..], code)
      case None =>
        assert forall i :: 1 <= i < |table| ==> table[i] == table[1..][i - 1];
        None
      case Some(i) =>
        assert table[1..][i] == table[i + 1];
        Some(i + 1)
  }

  /** The columns `edit` may change, in the order it visits them. */
  datatype Column = CourseName | Prerequisites | Corequisites | CreditHours | SemesterOffered | Track | Level | Description

  const EditableColumns: seq<Column> :=
    [CourseName, Prerequisites, Corequisites, CreditHours, SemesterOffered, Track, Level, Description]

  /** One `df.at[i, field] = val`, done only when the value was given. */
  function SetColumn(row: CourseRow, edit: CourseEdit, column: Column): CourseRow {
    match column
    case CourseName => if edit.name.Some? then row.(name := edit.name.value) else row
    case Prerequisites => if edit.prerequisites.Some? then row.(prerequisites := edit.prerequisites.value) else row
    case Corequisites => if edit.corequisites.Some? then row.(corequisites := edit.corequisites.value) else row
    case CreditHours => if edit.credits.Some? then row.(credits := edit.credits.value) else row
    case SemesterOffered => if edit.semesterOffered.Some? then row.(semesterOffered := edit.semesterOffered.value) else row
    case Track => if edit.track.Some? then row.(track := edit.track.value) else row
    case Level => if edit.level.Some? then row.(level := edit.level.value) else row
    case Description => if edit.description.Some? then row.(description := edit.description.value) else row
  }

  /** The edited row field by field: a given value replaces the old one; the code never changes. */
  ghost predicate EditedFrom(r: CourseRow, row: CourseRow, edit: CourseEdit) {
    && r.code == row.code
    && r.name == edit.name.GetOr(row.name)
    && r.prerequisites == edit.prerequisites.GetOr(row.prerequisites)
    && r.corequisites == edit.corequisites.GetOr(row.corequisites)
    && r.credits == edit.credits.GetOr(row.credits)
    && r.semesterOffered == edit.semesterOffered.GetOr(row.semesterOffered)
    && r.track == edit.track.GetOr(row.track)
    && r.level == edit.level.GetOr(row.level)
    && r.description == edit.description.GetOr(row.description)
  }

  /** The row once the first `k` columns of `EditableColumns` have been visited. */
  ghost predicate EditedUpTo(r: CourseRow, row: CourseRow, edit: CourseEdit, k: int) {
    && r.code == row.code
    && r.name == (if k > 0 then edit.name.GetOr(row.name) else row.name)
    && r.prerequisites == (if k > 1 then edit.prerequisites.GetOr(row.prerequisites) else row.prerequisites)
    && r.corequisites == (if k > 2 then edit.corequisites.GetOr(row.corequisites) else row.corequisites)
    && r.credits == (if k > 3 then edit.credits.GetOr(row.credits) else row.credits)
    && r.semesterOffered == (if k > 4 then edit.semesterOffered.GetOr(row.semesterOffered) else row.semesterOffered)
    && r.track == (if k > 5 then edit.track.GetOr(row.track) else row.track)
    && r.level == (if k > 6 then edit.level.GetOr(row.level) else row.level)
    && r.description == (if k > 7 then edit.description.GetOr(row.description) else row.description)
  }

  /** Visiting column `k` extends the edit by that one column. */
  lemma SetColumnStep(r: CourseRow, row: CourseRow, edit: CourseEdit, k: nat)
    requires k < |EditableColumns| && EditedUpTo(r, row, edit, k)
    ensures EditedUpTo(SetColumn(r, edit, EditableColumns[k]), row, edit, k + 1)
  {
  }

  /**
   * `edit_course`: refused when no row has the code; otherwise the first row with the code
   * gets every given field, and every other row is left alone.
   */
  method EditCourse(table: seq<CourseRow>, code: string, edit: CourseEdit) returns (r: Result<seq<CourseRow>, EditorError>)
    ensures r.Failure? <==> !HasCode(table, code)
    ensures r.Failure? ==> r.error == NotFound(code)
    ensures r.Success? ==> |r.value| == |table| && IndexOfCode(table, code).Some?
    ensures r.Success? ==>
              (var i := IndexOfCode(table, code).value;
               && EditedFrom(r.value[i], table[i], edit)
               && forall j :: 0 <= j < |table| && j != i ==> r.value[j] == table[j])
  {
    var idx := IndexOfCode(table, code);
    if idx.None? {
      return Failure(NotFound(code));
    }
    var i := idx.value;
    var df := table;
    for k := 0 to |EditableColumns|
      invariant |df| == |table| && EditedUpTo(df[i], table[i], edit, k)
      invariant forall j :: 0 <= j < |table| && j != i ==> df[j] == table[j]
    {
      SetColumnStep(df[i], table[i], edit, k);
      df := df[i := SetColumn(df[i], edit, EditableColumns[k])];
    }
    return Success(df);
  }

  /** After an edit, the code still finds the edited row first. */
  lemma EditedCourseIsFound(table: seq<CourseRow>, code: string, edited: seq<CourseRow>, i: nat, row: CourseRow)
    requires IndexOfCode(table, code) == Some(i)
    requires |edited| == |table| && edited[i] == row && row.code == code
    requires forall j :: 0 <= j < |table| && j != i ==> edited[j] == table[j]
    ensures GetCourse(edited, code) == Some(row)
  {
    GetCourseFirstMatch(edited, code, i);
  }
}
