/** The snapshot records the exporter fills from the remote course
    (module/items.py): one datatype per record, each with the defaults its
    constructor assigns, and the normalisation a course view applies to its
    own names. */
module Views {
  import opened PyStr
  import opened Wrappers
  import opened Helpers

  /** Identifiers are integers from the remote API; some mappers fall back to
      the empty string when the attribute is missing. */
  datatype Id = IntId(n: int) | StrId(s: string)

  datatype ModuleItemView = ModuleItemView(
    id: int, title: string, contentType: string, url: string, externalUrl: string)

  datatype ModuleView = ModuleView(id: Id, name: string, items: seq<ModuleItemView>)

  datatype PageView = PageView(
    id: int, title: string, body: string, createdDate: string, lastUpdatedDate: string)

  /** A reply declares `body`; the discussion mapper sets a separate `message`
      attribute instead, which a fresh record does not have. */
  datatype TopicReplyView = TopicReplyView(
    id: int, author: string, postedDate: string, body: string, message: Option<string>)

  datatype TopicEntryView = TopicEntryView(
    id: int, author: string, postedDate: string, body: string, topicReplies: seq<TopicReplyView>)

  datatype DiscussionView = DiscussionView(
    id: int, title: string, author: string, postedDate: string, body: string,
    topicEntries: seq<TopicEntryView>, url: string, amountPages: int)

  datatype AttachmentView = AttachmentView(id: int, filename: string, url: string)

  datatype SubmissionView = SubmissionView(
    id: int, attachments: seq<AttachmentView>, grade: string, rawScore: string,
    submissionComments: string, totalPossiblePoints: string, attempt: int,
    userId: string, previewUrl: string, extUrl: string)

  datatype AssignmentView = AssignmentView(
    id: Id, title: string, description: string, assignedDate: string, dueDate: string,
    submissions: seq<SubmissionView>, htmlUrl: string, extUrl: string, updatedUrl: string)

  datatype CourseView = CourseView(
    courseId: int, term: string, courseCode: string, name: string,
    assignments: seq<AssignmentView>, announcements: seq<DiscussionView>,
    discussions: seq<DiscussionView>, modules: seq<ModuleView>)

  /** The records as their constructors leave them: id 0, empty strings and
      empty lists, except that a submission's user id starts as `"no-id"` and a
      discussion's page count starts at 0. */
  const NewModuleItemView := ModuleItemView(0, "", "", "", "")
  const NewModuleView := ModuleView(IntId(0), "", [])
  const NewPageView := PageView(0, "", "", "", "")
  const NewTopicReplyView := TopicReplyView(0, "", "", "", None)
  const NewTopicEntryView := TopicEntryView(0, "", "", "", [])
  const NewDiscussionView := DiscussionView(0, "", "", "", "", [], "", 0)
  const NewSubmissionView := SubmissionView(0, [], "", "", "", "", 0, "no-id", "", "")
  const NewAttachmentView := AttachmentView(0, "", "")
  const NewAssignmentView := AssignmentView(IntId(0), "", "", "", "", [], "", "", "")

  // ---- The double-space rewrite ----

  /** `s.replace('  ', ' ')`: one left-to-right pass that turns each pair of
      spaces it meets into one space. */
  function HalveSpaces(s: string): (r: string)
    ensures |r| <= |s|
  {
    ReplaceShrinks(s, "  ", " ", IsSpace);
    Replace(s, "  ", " ")
  }

  /** `k` spaces. */
  function Spaces(k: nat): (r: string)
    ensures |r| == k
  {
    if k == 0 then [] else [' '] + Spaces(k - 1)
  }

  /** A run of `k` spaces becomes `(k + 1) / 2` spaces, not one: the rewrite
      halves runs, it does not collapse them. */
  lemma {:induction false} HalveSpacesRun(k: nat)
    ensures HalveSpaces(Spaces(k)) == Spaces((k + 1) / 2)
  {
    var s := Spaces(k);
    if k >= 2 {
      var rest := Spaces(k - 2);
      assert s == "  " + rest by {
        assert Spaces(k - 1) == [' '] + rest;
        assert s == [' '] + Spaces(k - 1);
      }
      assert s[..2] == "  ";
      assert s[2..] == rest;
      HalveSpacesRun(k - 2);
      assert (k - 2 + 1) / 2 + 1 == (k + 1) / 2;
      assert Spaces((k + 1) / 2) == [' '] + Spaces((k - 2 + 1) / 2);
    }
  }

  /** So three spaces become two. */
  lemma HalveThreeSpaces()
    ensures HalveSpaces("   ") == "  "
  {
    HalveSpacesRun(3);
    assert Spaces(3) == "   ";
    assert Spaces(2) == "  ";
  }

  /** The rewrite leaves a text alone exactly when it holds no two spaces in a
      row. */
  lemma HalveSpacesFixedPoints(s: string)
    ensures HalveSpaces(s) == s <==> forall i: nat :: !OccursAt(s, "  ", i)
  {
    if forall i: nat :: !OccursAt(s, "  ", i) {
      ReplaceAbsent(s, "  ", " ");
    } else {
      var i: nat :| OccursAt(s, "  ", i);
      ReplaceShortens(s, "  ", " ", i);
    }
  }

  /** The rewrite introduces no new characters: what holds of every character
      of `s` and of the space holds of every character of the result. */
  lemma HalveSpacesChars(s: string, p: char -> bool)
    requires All(s, p) && p(' ')
    ensures All(HalveSpaces(s), p)
  {
    assert All(" ", p);
    ReplaceShrinks(s, "  ", " ", p);
  }

  // ---- Course view ----

  /** The attributes of a remote course the view reads; each may be missing. */
  datatype CourseHandle = CourseHandle(
    id: Option<int>, term: Option<map<string, string>>, courseCode: Option<string>, name: Option<string>)

  /** The term's name, or `""` when the course has no term or the term no name. */
  function TermName(c: CourseHandle): string
  {
    if c.term.Some? && "name" in c.term.value then c.term.value["name"] else ""
  }

  /** `CourseView.__init__`: the id or 0; the term name sanitised into a file
      name; the course code sanitised and then rid of double spaces; the name
      only rid of double spaces, never sanitised; no assignments,
      announcements, discussions or modules yet. */
  function NewCourseView(c: CourseHandle): (v: CourseView)
    ensures v.courseId == c.id.GetOr(0)
    ensures All(v.term, IsFilenameChar) && |v.term| <= |TermName(c)|
    ensures TermName(c) == "" ==> v.term == ""
    ensures All(v.courseCode, IsFilenameChar) && |v.courseCode| <= |c.courseCode.GetOr("")|
    ensures c.courseCode.None? ==> v.courseCode == ""
    ensures |v.name| <= |c.name.GetOr("")|
    ensures v.assignments == [] && v.announcements == [] && v.discussions == [] && v.modules == []
  {
    var code := MakeValidFilename(c.courseCode.GetOr(""));
    HalveSpacesChars(code, IsFilenameChar);
    CourseView(
      c.id.GetOr(0),
      MakeValidFilename(TermName(c)),
      HalveSpaces(code),
      HalveSpaces(c.name.GetOr("")),
      [], [], [], [])
  }

  /** The course name keeps every character, even those a file name may not
      hold; it only loses one space of each pair. */
  lemma CourseNameKept(c: CourseHandle)
    requires forall i: nat :: !OccursAt(c.name.GetOr(""), "  ", i)
    ensures NewCourseView(c).name == c.name.GetOr("")
  {
    HalveSpacesFixedPoints(c.name.GetOr(""));
  }

  /** A course code that is already a clean file name with no two spaces in a
      row survives unchanged. */
  lemma CourseCodeKept(c: CourseHandle)
    requires c.courseCode.Some?
    requires IsCleanFilename(c.courseCode.value)
    requires forall i: nat :: !OccursAt(c.courseCode.value, "  ", i)
    ensures NewCourseView(c).courseCode == c.courseCode.value
  {
    MakeValidFilenameFixedPoints(c.courseCode.value);
    HalveSpacesFixedPoints(c.courseCode.value);
  }

  lemma HalveSpacesExample()
    ensures HalveSpaces("A   B") == "A  B"
  {
    var code := "A   B";
    var tail := code[1..];
    assert code[..2] != "  " && tail == "   B";
    assert tail[..2] == "  " && tail[2..] == " B";
    var last := " B";
    assert last[..2] == last && last[1] == 'B' && last[1..] == "B";
    assert last[..2] != "  ";
    assert Replace("B", "  ", " ") == "B";
    assert Replace(" B", "  ", " ") == [' '] + Replace("B", "  ", " ");
    assert Replace(tail, "  ", " ") == " " + Replace(" B", "  ", " ");
    assert Replace(code, "  ", " ") == [code[0]] + Replace(tail, "  ", " ");
  }

  lemma CleanCodeExample()
    ensures MakeValidFilename("A   B") == "A   B"
  {
    var code := "A   B";
    assert IsCleanFilename(code) by {
      assert forall i :: 0 <= i < |code| ==> code[i] in {'A', ' ', 'B'};
    }
    MakeValidFilenameFixedPoints(code);
  }

  /** A course code with a run of three spaces keeps two of them: the code is
      sanitised first, and the space rewrite does not collapse runs. */
  lemma CourseCodeThreeSpaces(c: CourseHandle)
    requires c.courseCode == Some("A   B")
    ensures NewCourseView(c).courseCode == "A  B"
  {
    CleanCodeExample();
    HalveSpacesExample();
  }

  // ---- Probing a course ----

  /** The outcome of the request `test_course` sends: a status code, or an
      exception raised before any response. */
  datatype Probe = Status(code: int) | Raised

  /** `test_course`'s verdict: the course is usable exactly when the request
      returned status 200. */
  function CourseReachable(p: Probe): (valid: bool)
    ensures valid <==> p == Status(200)
  {
    match p
    case Status(code) => code == 200
    case Raised => false
  }
}
