/** How remote course objects become snapshot records (module/get_canvas.py):
    discussions with their entries and replies, assignments with the user's
    submission, and modules with the files they hold. Remote objects are
    records of optional attributes; remote calls either return or raise;
    formatted dates are taken as given strings. */
module Canvas {
  import opened PyStr
  import opened Wrappers
  import opened Helpers
  import opened Views
  import opened Files

  /** A remote call: it returns a value, or raises. A listing that fails part
      way through is the listing of the items it yielded. */
  datatype Call<T> = Raises | Returns(value: T)

  // ---- Discussions (get_discussion_view) ----

  datatype ReplyHandle = ReplyHandle(
    id: Option<int>, userName: Option<string>, postedDate: Option<string>, message: Option<string>)

  datatype EntryHandle = EntryHandle(
    id: Option<int>, userName: Option<string>, postedDate: Option<string>, message: Option<string>,
    replies: Call<seq<ReplyHandle>>)

  datatype TopicHandle = TopicHandle(
    id: Option<int>, title: Option<string>, userName: Option<string>, postedDate: Option<string>,
    message: Option<string>, htmlUrl: Option<string>, subentryCount: Option<int>,
    entries: Call<seq<EntryHandle>>)

  /** Entries per page of a discussion. */
  const EntriesPerPage: nat := 50

  /** `int(counter / 50) + 1` for a count of entries. */
  function PageCount(counter: nat): (pages: nat)
    ensures pages >= 1
  {
    counter / EntriesPerPage + 1
  }

  /** A discussion has `k + 1` pages exactly when its counter lies in
      `[50 * k, 50 * (k + 1))`. */
  lemma PageCountRange(counter: nat, k: nat)
    ensures PageCount(counter) == k + 1 <==> EntriesPerPage * k <= counter < EntriesPerPage * (k + 1)
  {
    var q := counter / EntriesPerPage;
    assert EntriesPerPage * q <= counter < EntriesPerPage * (q + 1);
    if q < k {
      assert EntriesPerPage * (q + 1) <= EntriesPerPage * k;
    } else if q > k {
      assert EntriesPerPage * (k + 1) <= EntriesPerPage * q;
    }
  }

  lemma PageCountExamples()
    ensures PageCount(0) == 1 && PageCount(49) == 1 && PageCount(50) == 2 && PageCount(100) == 3
  {
  }

  /** The reply record: the text goes to `message`, while `body` keeps its
      default. */
  function ReplyView(h: ReplyHandle): TopicReplyView
  {
    NewTopicReplyView.(id := h.id.GetOr(0), author := h.userName.GetOr(""),
      postedDate := h.postedDate.GetOr(""), message := Some(h.message.GetOr("")))
  }

  function ReplyViews(rs: seq<ReplyHandle>): (r: seq<TopicReplyView>)
    ensures |r| == |rs|
  {
    if rs == [] then [] else ReplyViews(rs[..|rs| - 1]) + [ReplyView(rs[|rs| - 1])]
  }

  lemma {:induction false} ReplyViewsAt(rs: seq<ReplyHandle>, k: nat)
    requires k < |rs|
    ensures ReplyViews(rs)[k] == ReplyView(rs[k])
  {
    if k < |rs| - 1 {
      ReplyViewsAt(rs[..|rs| - 1], k);
    }
  }

  /** An entry record before its replies are added. */
  function EntryHead(h: EntryHandle): TopicEntryView
  {
    NewTopicEntryView.(id := h.id.GetOr(0), author := h.userName.GetOr(""),
      postedDate := h.postedDate.GetOr(""), body := h.message.GetOr(""))
  }

  function EntryView(h: EntryHandle): TopicEntryView
    requires h.replies.Returns?
  {
    EntryHead(h).(topicReplies := ReplyViews(h.replies.value))
  }

  function EntryViews(es: seq<EntryHandle>): (r: seq<TopicEntryView>)
    requires forall k :: 0 <= k < |es| ==> es[k].replies.Returns?
    ensures |r| == |es|
  {
    if es == [] then [] else EntryViews(es[..|es| - 1]) + [EntryView(es[|es| - 1])]
  }

  lemma {:induction false} EntryViewsAt(es: seq<EntryHandle>, k: nat)
    requires forall j :: 0 <= j < |es| ==> es[j].replies.Returns?
    requires k < |es|
    ensures EntryViews(es)[k] == EntryView(es[k])
  {
    if k < |es| - 1 {
      EntryViewsAt(es[..|es| - 1], k);
    }
  }

  /** How many entries the loop appends: all of them, or those before the first
      entry whose replies cannot be fetched. */
  function EntriesBefore(es: seq<EntryHandle>): (n: nat)
    ensures n <= |es|
    ensures forall k :: 0 <= k < n ==> es[k].replies.Returns?
    ensures n < |es| ==> es[n].replies.Raises?
  {
    if es == [] || es[0].replies.Raises? then 0 else 1 + EntriesBefore(es[1..])
  }

  /** The entry counter when the loop ends: it counts the entry whose replies
      failed too, although that entry is never appended. */
  function EntryCounter(es: seq<EntryHandle>): nat
  {
    var n := EntriesBefore(es);
    if n < |es| then n + 1 else n
  }

  /** The discussion record before its entries are read. */
  function DiscussionHead(t: TopicHandle): DiscussionView
  {
    NewDiscussionView.(id := t.id.GetOr(0), title := HalveSpaces(t.title.GetOr("")),
      author := t.userName.GetOr(""), postedDate := t.postedDate.GetOr(""),
      body := t.message.GetOr(""), url := t.htmlUrl.GetOr(""))
  }

  /** Entries are read only when the topic reports a positive entry count. */
  predicate ReadsEntries(t: TopicHandle)
  {
    t.subentryCount.Some? && t.subentryCount.value > 0
  }

  /** What `get_discussion_view` returns, or that it raises: it raises only when
      the entry listing itself cannot be fetched, which happens outside its
      `try`. */
  function DiscussionOf(t: TopicHandle): Result<DiscussionView>
  {
    if ReadsEntries(t) then
      match t.entries
      case Raises => Failure("get_topic_entries raised")
      case Returns(es) =>
        var n := EntriesBefore(es);
        Success(DiscussionHead(t).(topicEntries := EntryViews(es[..n]), amountPages := PageCount(EntryCounter(es))))
    else
      Success(DiscussionHead(t).(amountPages := PageCount(0)))
  }

  /** `get_discussion_view`: a loop over the entries that counts each one
      before fetching its replies, and stops at the first entry whose replies
      cannot be fetched; an inner loop collects the replies. */
  method GetDiscussionView(t: TopicHandle) returns (r: Result<DiscussionView>)
    ensures r == DiscussionOf(t)
  {
    var view := DiscussionHead(t);
    var counter: nat := 0;
    if ReadsEntries(t) {
      if t.entries.Raises? {
        return Failure("get_topic_entries raised");
      }
      var es := t.entries.value;
      var i := 0;
      var stopped := false;
      while i < |es| && !stopped
        invariant 0 <= i <= |es|
        invariant forall k :: 0 <= k < i ==> es[k].replies.Returns?
        invariant view == DiscussionHead(t).(topicEntries := EntryViews(es[..i]))
        invariant counter == if stopped then i + 1 else i
        invariant stopped ==> i < |es| && es[i].replies.Raises?
        decreases |es| - i, if stopped then 0 else 1
      {
        counter := counter + 1;
        var h := es[i];
        var entry := EntryHead(h);
        if h.replies.Raises? {
          stopped := true;
        } else {
          var rs := h.replies.value;
          var j := 0;
          while j < |rs|
            invariant 0 <= j <= |rs|
            invariant entry == EntryHead(h).(topicReplies := ReplyViews(rs[..j]))
          {
            assert rs[..j + 1][..j] == rs[..j];
            entry := entry.(topicReplies := entry.topicReplies + [ReplyView(rs[j])]);
            j := j + 1;
          }
          assert rs[..j] == rs;
          assert es[..i + 1][..i] == es[..i];
          view := view.(topicEntries := view.topicEntries + [entry]);
          i := i + 1;
        }
      }
      assert counter == EntryCounter(es);
    }
    view := view.(amountPages := counter / EntriesPerPage + 1);
    r := Success(view);
  }

  /** The counter runs at most one ahead of the appended entries, so the page
      count is that of the appended entries or of one more; it is one ahead
      exactly when some entry's replies could not be fetched. */
  lemma DiscussionPages(t: TopicHandle)
    requires DiscussionOf(t).Success?
    ensures var v := DiscussionOf(t).value;
      v.amountPages == PageCount(|v.topicEntries|) || v.amountPages == PageCount(|v.topicEntries| + 1)
    ensures ReadsEntries(t) ==>
      var v := DiscussionOf(t).value;
      var counter := EntryCounter(t.entries.value);
      && |v.topicEntries| <= counter <= |v.topicEntries| + 1
      && v.amountPages == PageCount(counter)
      && ((counter == |v.topicEntries| + 1) <==>
            exists k :: 0 <= k < |t.entries.value| && t.entries.value[k].replies.Raises?)
  {
    if ReadsEntries(t) {
      var es := t.entries.value;
      var n := EntriesBefore(es);
      if exists k :: 0 <= k < |es| && es[k].replies.Raises? {
        var k :| 0 <= k < |es| && es[k].replies.Raises?;
        assert n <= k;
      }
    }
  }

  /** Without a positive entry count no entry is read, and there is one page. */
  lemma NoEntriesWithoutCount(t: TopicHandle)
    requires !ReadsEntries(t)
    ensures DiscussionOf(t).Success?
    ensures DiscussionOf(t).value.topicEntries == [] && DiscussionOf(t).value.amountPages == 1
  {
  }

  /** The mapping raises exactly when entries are due and their listing cannot
      be fetched. */
  lemma DiscussionFails(t: TopicHandle)
    ensures DiscussionOf(t).Failure? <==> ReadsEntries(t) && t.entries.Raises?
  {
  }

  /** A topic with no attributes at all maps to the fresh record, except that
      its page count is 1 where the constructor leaves 0. */
  lemma BareTopic(t: TopicHandle)
    requires t.id.None? && t.title.None? && t.userName.None? && t.postedDate.None?
    requires t.message.None? && t.htmlUrl.None? && t.subentryCount.None?
    ensures DiscussionOf(t) == Success(NewDiscussionView.(amountPages := 1))
  {
    assert HalveSpaces("") == "";
  }

  /** Every reply record keeps an empty `body`; the text of the reply it maps,
      or `""` when that reply has no message, is in `message`. */
  lemma RepliesUseMessage(t: TopicHandle, e: nat, k: nat)
    requires DiscussionOf(t).Success?
    requires e < |DiscussionOf(t).value.topicEntries|
    requires k < |DiscussionOf(t).value.topicEntries[e].topicReplies|
    ensures t.entries.Returns? && e < |t.entries.value| && t.entries.value[e].replies.Returns?
    ensures var replies := t.entries.value[e].replies.value;
      var reply := DiscussionOf(t).value.topicEntries[e].topicReplies[k];
      k < |replies| && reply.body == "" && reply.message == Some(replies[k].message.GetOr(""))
  {
    if !ReadsEntries(t) {
      NoEntriesWithoutCount(t);
      assert false;
    }
    EntriesInOrder(t, e);
    var es := t.entries.value;
    ReplyViewsAt(es[e].replies.value, k);
  }

  lemma EntriesInOrder(t: TopicHandle, e: nat)
    requires DiscussionOf(t).Success? && ReadsEntries(t)
    requires e < |DiscussionOf(t).value.topicEntries|
    ensures e < |t.entries.value| && t.entries.value[e].replies.Returns?
    ensures DiscussionOf(t).value.topicEntries[e] == EntryView(t.entries.value[e])
  {
    var es := t.entries.value;
    EntryViewsAt(es[..EntriesBefore(es)], e);
  }

  // ---- Assignments (find_course_assignments) ----

  /** An attribute that may be missing, present but `None`, or present. */
  datatype Attr<T> = Missing | Null | Present(value: T)

  datatype AttachmentHandle = AttachmentHandle(id: Option<int>, filename: Option<string>, url: Option<string>)

  datatype SubmissionHandle = SubmissionHandle(
    id: Option<int>, grade: Option<string>, score: Option<string>, comments: Option<string>,
    attempt: Attr<int>, userId: Option<nat>, previewUrl: Option<string>, url: Option<string>,
    attachments: Option<seq<AttachmentHandle>>)

  datatype AssignmentHandle = AssignmentHandle(
    id: Option<int>, name: Option<string>, description: Option<string>,
    createdAt: Option<string>, dueAt: Option<string>, htmlUrl: Option<string>, url: Option<string>,
    submissionsDownloadUrl: Option<string>, pointsPossible: Option<string>,
    submission: Call<SubmissionHandle>)

  /** An attachment's attributes are read without a fallback: a missing one
      raises. */
  function AttachmentOf(h: AttachmentHandle): (r: Option<AttachmentView>)
    ensures r.Some? <==> h.id.Some? && h.filename.Some? && h.url.Some?
  {
    if h.id.Some? && h.filename.Some? && h.url.Some? then
      Some(AttachmentView(h.id.value, h.filename.value, h.url.value))
    else None
  }

  /** The attachment loop: every attachment in order, or `None` when one of
      them raises. */
  function AttachmentsOf(hs: seq<AttachmentHandle>): (r: Option<seq<AttachmentView>>)
    ensures r.Some? ==> |r.value| == |hs|
    ensures r.Some? ==> forall k :: 0 <= k < |hs| ==> AttachmentOf(hs[k]) == Some(r.value[k])
  {
    if hs == [] then Some([])
    else
      var prev := AttachmentsOf(hs[..|hs| - 1]);
      var last := AttachmentOf(hs[|hs| - 1]);
      if prev.None? || last.None? then None else Some(prev.value + [last.value])
  }

  /** The attachments fail exactly when one of them lacks an attribute. */
  lemma {:induction false} AttachmentsFail(hs: seq<AttachmentHandle>)
    ensures AttachmentsOf(hs).None? <==> exists k :: 0 <= k < |hs| && AttachmentOf(hs[k]).None?
  {
    if hs != [] {
      var init := hs[..|hs| - 1];
      AttachmentsFail(init);
      if exists k :: 0 <= k < |init| && AttachmentOf(init[k]).None? {
        var k :| 0 <= k < |init| && AttachmentOf(init[k]).None?;
        assert hs[k] == init[k];
      }
      if exists k :: 0 <= k < |hs| && AttachmentOf(hs[k]).None? {
        var k :| 0 <= k < |hs| && AttachmentOf(hs[k]).None?;
        if k < |init| {
          assert init[k] == hs[k];
        }
      }
    }
  }

  /** The attempt number, or 0 when the attribute is missing or `None`. */
  function AttemptOf(a: Attr<int>): (n: int)
    ensures a.Present? ==> n == a.value
    ensures !a.Present? ==> n == 0
  {
    if a.Present? then a.value else 0
  }

  /** `str(submission.user_id)`, or `""` when missing: unlike the record's own
      default, `"no-id"`. */
  function UserIdOf(u: Option<nat>): (s: string)
    ensures u.None? ==> s == ""
    ensures u.Some? ==> s != [] && DecimalValue(s) == u.value
  {
    if u.Some? then DecimalRoundTrip(u.value); Decimal(u.value) else ""
  }

  /** The submission record before its attachments are added. */
  function SubmissionHead(a: AssignmentHandle, s: SubmissionHandle): SubmissionView
  {
    NewSubmissionView.(
      id := s.id.GetOr(0), grade := s.grade.GetOr(""), rawScore := s.score.GetOr(""),
      totalPossiblePoints := a.pointsPossible.GetOr(""), submissionComments := s.comments.GetOr(""),
      attempt := AttemptOf(s.attempt), userId := UserIdOf(s.userId),
      previewUrl := s.previewUrl.GetOr(""), extUrl := s.url.GetOr(""))
  }

  /** The submission record, or the error an attachment without an attribute
      raises. A submission without an `attachments` attribute has none. */
  function SubmissionOf(a: AssignmentHandle, s: SubmissionHandle): Result<SubmissionView>
  {
    if s.attachments.None? then Success(SubmissionHead(a, s))
    else
      var atts := AttachmentsOf(s.attachments.value);
      if atts.None? then Failure("attachment attribute missing")
      else Success(SubmissionHead(a, s).(attachments := atts.value))
  }

  /** The part of the download URL before the first `submissions?`. */
  function UpdatedUrl(a: AssignmentHandle): string
  {
    if a.submissionsDownloadUrl.Some? then BeforeFirst(a.submissionsDownloadUrl.value, "submissions?") else ""
  }

  /** `updated_url`: `""` without a download URL; otherwise a prefix of it that
      ends where `submissions?` first occurs, or the whole URL when it does not
      occur. */
  lemma UpdatedUrlSpec(a: AssignmentHandle)
    ensures a.submissionsDownloadUrl.None? ==> UpdatedUrl(a) == ""
    ensures a.submissionsDownloadUrl.Some? ==>
      var d := a.submissionsDownloadUrl.value;
      var u := UpdatedUrl(a);
      && |u| <= |d| && u == d[..|u|]
      && (forall i: nat :: i < |u| ==> !OccursAt(d, "submissions?", i))
      && (OccursAt(d, "submissions?", |u|) || (u == d && forall i: nat :: !OccursAt(d, "submissions?", i)))
  {
    if a.submissionsDownloadUrl.Some? {
      BeforeFirstSpec(a.submissionsDownloadUrl.value, "submissions?");
    }
  }

  /** The assignment record before its submission is added. */
  function AssignmentHead(a: AssignmentHandle): AssignmentView
  {
    NewAssignmentView.(
      id := if a.id.Some? then IntId(a.id.value) else StrId(""),
      title := if a.name.Some? then MakeValidFilename(HalveSpaces(a.name.value)) else "",
      description := a.description.GetOr(""),
      assignedDate := a.createdAt.GetOr(""), dueDate := a.dueAt.GetOr(""),
      htmlUrl := a.htmlUrl.GetOr(""), extUrl := a.url.GetOr(""),
      updatedUrl := UpdatedUrl(a))
  }

  /** One assignment with the user's submission, or the error that escapes:
      fetching the submission raises, or an attachment lacks an attribute. */
  function AssignmentOf(a: AssignmentHandle): (r: Result<AssignmentView>)
    ensures r.Success? <==> a.submission.Returns? && SubmissionOf(a, a.submission.value).Success?
    ensures r.Success? ==> |r.value.submissions| == 1
  {
    match a.submission
    case Raises => Failure("get_submission raised")
    case Returns(s) =>
      var sub := SubmissionOf(a, s);
      if sub.Failure? then Failure(sub.error)
      else Success(AssignmentHead(a).(submissions := [sub.value]))
  }

  /** The title is the sanitised name after one double-space pass, or `""`
      without a name; either way it holds only file-name characters. */
  lemma AssignmentTitle(a: AssignmentHandle)
    requires AssignmentOf(a).Success?
    ensures var title := AssignmentOf(a).value.title;
      && All(title, IsFilenameChar)
      && (a.name.None? ==> title == "")
      && (a.name.Some? ==> title == MakeValidFilename(HalveSpaces(a.name.value)))
  {
  }

  /** `find_course_assignments`: every assignment in order, or the first error,
      which the function does not catch. */
  function AssignmentsOf(asg: seq<AssignmentHandle>): (r: Result<seq<AssignmentView>>)
    ensures r.Success? ==> |r.value| == |asg|
  {
    if asg == [] then Success([])
    else
      var prev := AssignmentsOf(asg[..|asg| - 1]);
      if prev.Failure? then prev
      else
        var last := AssignmentOf(asg[|asg| - 1]);
        if last.Failure? then Failure(last.error) else Success(prev.value + [last.value])
  }

  /** On success each assignment is mapped at its own position, with exactly
      one submission: the branch for a missing submission cannot be taken. */
  lemma {:induction false} AssignmentsInOrder(asg: seq<AssignmentHandle>, k: nat)
    requires AssignmentsOf(asg).Success? && k < |asg|
    ensures AssignmentOf(asg[k]).Success?
    ensures AssignmentsOf(asg).value[k] == AssignmentOf(asg[k]).value
    ensures |AssignmentsOf(asg).value[k].submissions| == 1
  {
    if k < |asg| - 1 {
      AssignmentsInOrder(asg[..|asg| - 1], k);
    }
  }

  /** The mapping fails exactly when some assignment fails. */
  lemma {:induction false} AssignmentsFail(asg: seq<AssignmentHandle>)
    ensures AssignmentsOf(asg).Failure? <==> exists k :: 0 <= k < |asg| && AssignmentOf(asg[k]).Failure?
  {
    if asg != [] {
      var init := asg[..|asg| - 1];
      AssignmentsFail(init);
      if exists k :: 0 <= k < |init| && AssignmentOf(init[k]).Failure? {
        var k :| 0 <= k < |init| && AssignmentOf(init[k]).Failure?;
        assert asg[k] == init[k];
      }
      if exists k :: 0 <= k < |asg| && AssignmentOf(asg[k]).Failure? {
        var k :| 0 <= k < |asg| && AssignmentOf(asg[k]).Failure?;
        if k < |init| {
          assert init[k] == asg[k];
        }
      }
    }
  }

  /** A submission without attempt or user id gets attempt 0 and user id `""`. */
  lemma SubmissionDefaults(a: AssignmentHandle, s: SubmissionHandle)
    requires s.attempt.Missing? || s.attempt.Null?
    requires s.userId.None? && s.attachments.None?
    ensures SubmissionOf(a, s).Success?
    ensures SubmissionOf(a, s).value.attempt == 0
    ensures SubmissionOf(a, s).value.userId == "" != NewSubmissionView.userId
  {
  }

  /** The loop of `find_course_assignments`, with the attachment loop inside. */
  method FindCourseAssignments(asg: seq<AssignmentHandle>) returns (r: Result<seq<AssignmentView>>)
    ensures r == AssignmentsOf(asg)
  {
    var views: seq<AssignmentView> := [];
    var i := 0;
    while i < |asg|
      invariant 0 <= i <= |asg|
      invariant AssignmentsOf(asg[..i]) == Success(views)
    {
      var a := asg[i];
      assert asg[..i + 1][..i] == asg[..i];
      if a.submission.Raises? {
        AssignmentsPrefixFails(asg, i);
        return Failure("get_submission raised");
      }
      var s := a.submission.value;
      var sub := SubmissionHead(a, s);
      if s.attachments.Some? {
        var hs := s.attachments.value;
        var j := 0;
        var atts: seq<AttachmentView> := [];
        while j < |hs|
          invariant 0 <= j <= |hs|
          invariant AttachmentsOf(hs[..j]) == Some(atts)
        {
          assert hs[..j + 1][..j] == hs[..j];
          var att := AttachmentOf(hs[j]);
          if att.None? {
            AttachmentsPrefixFails(hs, j);
            AssignmentsPrefixFails(asg, i);
            return Failure("attachment attribute missing");
          }
          atts := atts + [att.value];
          j := j + 1;
        }
        assert hs[..j] == hs;
        sub := sub.(attachments := atts);
      }
      views := views + [AssignmentHead(a).(submissions := [sub])];
      i := i + 1;
    }
    assert asg[..i] == asg;
    r := Success(views);
  }

  /** Once one attachment fails, the whole list does. */
  lemma {:induction false} AttachmentsPrefixFails(hs: seq<AttachmentHandle>, j: nat)
    requires j < |hs| && AttachmentOf(hs[j]).None?
    ensures AttachmentsOf(hs).None?
  {
    AttachmentsFail(hs);
  }

  /** Once assignment `i` fails, `find_course_assignments` fails, with the error
      of the first failing assignment, which is `i` when all before it
      succeed. */
  lemma {:induction false} AssignmentsPrefixFails(asg: seq<AssignmentHandle>, i: nat)
    requires i < |asg| && AssignmentOf(asg[i]).Failure?
    requires AssignmentsOf(asg[..i]).Success?
    ensures AssignmentsOf(asg) == Failure(AssignmentOf(asg[i]).error)
  {
    if i < |asg| - 1 {
      var init := asg[..|asg| - 1];
      assert init[..i] == asg[..i];
      AssignmentsPrefixFails(init, i);
    } else {
      assert asg[..|asg| - 1] == asg[..i];
    }
  }

  // ---- Modules (find_course_modules) ----

  datatype FileHandle = FileHandle(displayName: string, url: string)

  datatype ItemHandle = ItemHandle(
    id: Option<int>, title: Option<string>, itemType: Option<string>, htmlUrl: Option<string>,
    externalUrl: Option<string>, file: Call<FileHandle>)

  datatype ModuleHandle = ModuleHandle(id: Option<int>, name: Option<string>, items: Call<seq<ItemHandle>>)

  function ItemView(h: ItemHandle): ModuleItemView
  {
    ModuleItemView(h.id.GetOr(0), HalveSpaces(h.title.GetOr("")), h.itemType.GetOr(""),
      h.htmlUrl.GetOr(""), h.externalUrl.GetOr(""))
  }

  /** The folder a module's files go to: `<modules>/<module folder name>/files`. */
  function FilesDir(modulesDir: Path, moduleName: string): Path
  {
    Child(Child(modulesDir, FolderName(moduleName)), "files")
  }

  /** The "File" gate for one item of a named module: the files folder is
      created if absent; then the file is fetched and downloaded under its
      sanitised display name unless that path exists. A failure to fetch the
      file is caught and skips the download only. */
  function FileStep(st: DiskState, modulesDir: Path, moduleName: string, h: ItemHandle): DiskState
  {
    var dir := FilesDir(modulesDir, moduleName);
    var made := EnsureDir(st, dir);
    match h.file
    case Raises => made
    case Returns(f) =>
      var dest := Child(dir, MakeValidFilename(f.displayName));
      if dest in made.existing then made else Downloaded(made, f.url, dest)
  }

  /** The item loop of one module, over the first items: the records and the
      disk so far, and whether the loop was cut short. A "File" item in a module
      without a name raises when the name is read, which ends the loop before
      that item is appended. */
  function ItemsRun(st: DiskState, modulesDir: Path, m: ModuleHandle, items: seq<ItemHandle>)
    : (r: (seq<ModuleItemView>, DiskState, bool))
    ensures |r.0| <= |items|
    ensures forall k :: 0 <= k < |r.0| ==> r.0[k] == ItemView(items[k])
    ensures !r.2 ==> |r.0| == |items|
    ensures m.name.Some? ==> !r.2
  {
    if items == [] then ([], st, false)
    else
      var init := items[..|items| - 1];
      var prev := ItemsRun(st, modulesDir, m, init);
      var h := items[|items| - 1];
      assert forall k :: 0 <= k < |init| ==> items[k] == init[k];
      if prev.2 then prev
      else
        var grown := prev.0 + [ItemView(h)];
        assert forall k :: 0 <= k < |grown| ==> grown[k] == ItemView(items[k]);
        if ItemView(h).contentType != "File" then (grown, prev.1, false)
        else if m.name.None? then (prev.0, prev.1, true)
        else (grown, FileStep(prev.1, modulesDir, m.name.value, h), false)
  }

  function ModuleId(m: ModuleHandle): Id
  {
    if m.id.Some? then IntId(m.id.value) else StrId("")
  }

  /** One module: its record and the disk afterwards. An item listing that
      raises leaves the module without items. */
  function ModuleOf(st: DiskState, modulesDir: Path, m: ModuleHandle): (ModuleView, DiskState)
  {
    match m.items
    case Raises => (ModuleView(ModuleId(m), m.name.GetOr(""), []), st)
    case Returns(items) =>
      var run := ItemsRun(st, modulesDir, m, items);
      (ModuleView(ModuleId(m), m.name.GetOr(""), run.0), run.1)
  }

  /** The module loop over the first modules. */
  function ModulesRun(st: DiskState, modulesDir: Path, ms: seq<ModuleHandle>): (r: (seq<ModuleView>, DiskState))
    ensures |r.0| == |ms|
  {
    if ms == [] then ([], st)
    else
      var prev := ModulesRun(st, modulesDir, ms[..|ms| - 1]);
      var last := ModuleOf(prev.1, modulesDir, ms[|ms| - 1]);
      (prev.0 + [last.0], last.1)
  }

  /** The `k`-th module record: the module's id (or `""`) and name (or `""`),
      and the records of its items in order. An item listing that raises
      gives no items; a named module keeps a record of every item, its "File"
      items included; a module without a name keeps the records before its
      first "File" item. */
  lemma {:induction false} ModulesRunAt(st: DiskState, modulesDir: Path, ms: seq<ModuleHandle>, k: nat)
    requires k < |ms|
    ensures var v := ModulesRun(st, modulesDir, ms).0[k];
      && v.id == ModuleId(ms[k]) && v.name == ms[k].name.GetOr("")
      && (ms[k].items.Raises? ==> v.items == [])
      && (ms[k].items.Returns? ==>
            |v.items| <= |ms[k].items.value|
            && forall j :: 0 <= j < |v.items| ==> v.items[j] == ItemView(ms[k].items.value[j]))
      && (ms[k].items.Returns? && ms[k].name.Some? ==> v.items == ItemViews(ms[k].items.value))
  {
    var init := ms[..|ms| - 1];
    if k < |ms| - 1 {
      ModulesRunAt(st, modulesDir, init, k);
      assert ms[k] == init[k];
    }
  }

  /** `find_course_modules`: the modules folder is created if absent; a module
      listing that raises is caught and yields no modules. */
  function ModulesOf(st: DiskState, modulesDir: Path, modules: Call<seq<ModuleHandle>>): (seq<ModuleView>, DiskState)
  {
    var made := EnsureDir(st, modulesDir);
    match modules
    case Raises => ([], made)
    case Returns(ms) => ModulesRun(made, modulesDir, ms)
  }

  /** The records of all items, when none of them touches the disk. */
  function ItemViews(items: seq<ItemHandle>): (r: seq<ModuleItemView>)
    ensures |r| == |items|
    ensures forall k :: 0 <= k < |items| ==> r[k] == ItemView(items[k])
  {
    if items == [] then [] else ItemViews(items[..|items| - 1]) + [ItemView(items[|items| - 1])]
  }

  /** The "File" gate: the files folder then exists, and the file is
      downloaded exactly when it can be fetched, its sanitised name is not
      empty, and that path was absent. An empty sanitised name denotes the
      folder itself, which exists by then. */
  lemma FileStepRequests(st: DiskState, modulesDir: Path, moduleName: string, h: ItemHandle)
    ensures Grows(st, FileStep(st, modulesDir, moduleName, h))
    ensures FilesDir(modulesDir, moduleName) in FileStep(st, modulesDir, moduleName, h).existing
    ensures var dir := FilesDir(modulesDir, moduleName);
      FileStep(st, modulesDir, moduleName, h).log == st.log +
        (if h.file.Returns? && MakeValidFilename(h.file.value.displayName) != []
            && Child(dir, MakeValidFilename(h.file.value.displayName)) !in st.existing
         then [Download(h.file.value.url, Child(dir, MakeValidFilename(h.file.value.displayName)))]
         else [])
  {
    var dir := FilesDir(modulesDir, moduleName);
    var made := EnsureDir(st, dir);
    var r := FileStep(st, modulesDir, moduleName, h);
    EnsureDirExists(st, dir);
    PrimitivesGrow(st, dir, "", "", []);
    if h.file.Returns? {
      var dest := Child(dir, MakeValidFilename(h.file.value.displayName));
      PrimitivesGrow(made, dir, "", "", dest);
      GrowsTransitive(st, made, r);
      if MakeValidFilename(h.file.value.displayName) != [] {
        EnsureDirShallow(st, dir, dest);
      }
    }
  }

  /** Only "File" items of a named module touch the disk, which only grows;
      the loop is cut short only in a module without a name, at a "File"
      item. */
  lemma {:induction false} ItemsRunGrows(st: DiskState, modulesDir: Path, m: ModuleHandle, items: seq<ItemHandle>)
    ensures Grows(st, ItemsRun(st, modulesDir, m, items).1)
    ensures (forall k :: 0 <= k < |items| ==> ItemView(items[k]).contentType != "File")
      ==> ItemsRun(st, modulesDir, m, items) == (ItemViews(items), st, false)
    ensures ItemsRun(st, modulesDir, m, items).2 ==>
      m.name.None? && exists k :: 0 <= k < |items| && ItemView(items[k]).contentType == "File"
  {
    if items != [] {
      var init := items[..|items| - 1];
      var prev := ItemsRun(st, modulesDir, m, init);
      var h := items[|items| - 1];
      ItemsRunGrows(st, modulesDir, m, init);
      if !prev.2 && ItemView(h).contentType == "File" && m.name.Some? {
        FileStepRequests(prev.1, modulesDir, m.name.value, h);
        GrowsTransitive(st, prev.1, ItemsRun(st, modulesDir, m, items).1);
      }
      if forall k :: 0 <= k < |items| ==> ItemView(items[k]).contentType != "File" {
        assert forall k :: 0 <= k < |init| ==> ItemView(init[k]).contentType != "File" by {
          assert forall k :: 0 <= k < |init| ==> init[k] == items[k];
        }
        assert ItemView(h).contentType != "File";
      }
      if prev.2 {
        var k :| 0 <= k < |init| && ItemView(init[k]).contentType == "File";
        assert items[k] == init[k];
      }
    }
  }

  /** The module's folder name is the sanitised, shortened module name. */
  lemma FilesDirName(modulesDir: Path, moduleName: string)
    ensures var folder := FolderName(moduleName);
      |folder| <= MaxFolderNameSize && All(folder, IsFilenameChar)
      && FilesDir(modulesDir, moduleName) == Child(modulesDir, folder) + ["files"]
  {
  }

  /** Once the item loop is cut short, later items change nothing. */
  lemma {:induction false} ItemsRunStops(st: DiskState, modulesDir: Path, m: ModuleHandle, items: seq<ItemHandle>, k: nat)
    requires k <= |items| && ItemsRun(st, modulesDir, m, items[..k]).2
    ensures ItemsRun(st, modulesDir, m, items) == ItemsRun(st, modulesDir, m, items[..k])
  {
    if k == |items| {
      assert items[..k] == items;
    } else {
      var init := items[..|items| - 1];
      assert init[..k] == items[..k];
      ItemsRunStops(st, modulesDir, m, init, k);
    }
  }

  /** The item loop of one module: the "File" gate changes the disk in place. */
  method ModuleItems(disk: Disk, modulesDir: Path, m: ModuleHandle, items: seq<ItemHandle>)
    returns (views: seq<ModuleItemView>)
    modifies disk
    ensures views == ItemsRun(old(disk.State()), modulesDir, m, items).0
    ensures disk.State() == ItemsRun(old(disk.State()), modulesDir, m, items).1
  {
    ghost var start := disk.State();
    views := [];
    var j := 0;
    while j < |items|
      invariant 0 <= j <= |items|
      invariant ItemsRun(start, modulesDir, m, items[..j]) == (views, disk.State(), false)
    {
      assert items[..j + 1][..j] == items[..j];
      var h := items[j];
      var item := ItemView(h);
      if item.contentType == "File" {
        if m.name.None? {
          ItemsRunStops(start, modulesDir, m, items, j + 1);
          return;
        }
        var dir := FilesDir(modulesDir, m.name.value);
        disk.EnsureDirectory(dir);
        if h.file.Returns? {
          var dest := Child(dir, MakeValidFilename(h.file.value.displayName));
          var present := disk.Exists(dest);
          if !present {
            disk.Download(h.file.value.url, dest);
          }
        }
      }
      views := views + [item];
      j := j + 1;
    }
    assert items[..j] == items;
  }

  /** The loops of `find_course_modules`, changing the disk in place. */
  method FindCourseModules(disk: Disk, modulesDir: Path, modules: Call<seq<ModuleHandle>>)
    returns (views: seq<ModuleView>)
    modifies disk
    ensures (views, disk.State()) == ModulesOf(old(disk.State()), modulesDir, modules)
  {
    disk.EnsureDirectory(modulesDir);
    views := [];
    if modules.Raises? {
      return;
    }
    var ms := modules.value;
    ghost var start := disk.State();
    var i := 0;
    while i < |ms|
      invariant 0 <= i <= |ms|
      invariant (views, disk.State()) == ModulesRun(start, modulesDir, ms[..i])
    {
      assert ms[..i + 1][..i] == ms[..i];
      var m := ms[i];
      var items: seq<ModuleItemView> := [];
      if m.items.Returns? {
        items := ModuleItems(disk, modulesDir, m, m.items.value);
      }
      views := views + [ModuleView(ModuleId(m), m.name.GetOr(""), items)];
      i := i + 1;
    }
    assert ms[..i] == ms;
  }
}
