/** Download planning (module/threading.py): which folders are created and
    which pages are handed to the archiver, for module items, assignments and
    submissions. Every page is requested only when its file is absent. Each
    plan is a function from the disk before to the disk after; the methods
    make the same changes on a `Disk` in place. */
module Threading {
  import opened PyStr
  import opened Helpers
  import opened Views
  import opened Files

  /** `if not os.path.exists(join(dir, filename)): download_page(url, ..., dir, filename)`. */
  function PageIfAbsent(st: DiskState, url: string, dir: Path, filename: string): DiskState
  {
    if Child(dir, filename) in st.existing then st else Archived(st, url, dir, filename)
  }

  method SavePage(disk: Disk, url: string, dir: Path, filename: string)
    modifies disk
    ensures disk.State() == PageIfAbsent(old(disk.State()), url, dir, filename)
  {
    var present := disk.Exists(Child(dir, filename));
    if !present {
      disk.RequestArchive(url, dir, filename);
    }
  }

  /** The request a page makes, if any: one archive request exactly when the
      file is absent, and the file set does not change. */
  lemma PageRequest(st: DiskState, url: string, dir: Path, filename: string)
    ensures var r := PageIfAbsent(st, url, dir, filename);
      && r.existing == st.existing
      && r.log == st.log + (if Child(dir, filename) in st.existing then [] else [Archive(url, dir, filename)])
      && Grows(st, r)
  {
    PrimitivesGrow(st, dir, url, filename, []);
  }

  // ---- download_module_item ----

  /** The folder of a module's pages: `<modules>/<module folder name>`. */
  function ItemsDir(modulesDir: Path, moduleName: string): Path
  {
    Child(modulesDir, FolderName(moduleName))
  }

  /** The file a page is saved as: the sanitised title with `.html` added. */
  function PageFilename(title: string): (name: string)
    ensures |name| >= 5 && name[|name| - 5..] == ".html"
    ensures All(name[..|name| - 5], IsFilenameChar)
  {
    var stem := MakeValidFilename(title);
    assert (stem + ".html")[..|stem|] == stem;
    stem + ".html"
  }

  function ModuleItemPlan(st: DiskState, modulesDir: Path, owner: ModuleView, item: ModuleItemView): DiskState
  {
    if item.url == "" then st
    else
      var dir := ItemsDir(modulesDir, owner.name);
      PageIfAbsent(EnsureDir(st, dir), item.url, dir, PageFilename(item.title))
  }

  method DownloadModuleItem(disk: Disk, owner: ModuleView, item: ModuleItemView, modulesDir: Path)
    modifies disk
    ensures disk.State() == ModuleItemPlan(old(disk.State()), modulesDir, owner, item)
  {
    var dir := ItemsDir(modulesDir, owner.name);
    if item.url != "" {
      disk.EnsureDirectory(dir);
      SavePage(disk, item.url, dir, PageFilename(item.title));
    }
  }

  /** An item without a URL changes nothing. Otherwise the module folder then
      exists and the page is requested, under the sanitised title with `.html`,
      exactly when that file was absent before. */
  lemma ModuleItemRequests(st: DiskState, modulesDir: Path, owner: ModuleView, item: ModuleItemView)
    ensures Grows(st, ModuleItemPlan(st, modulesDir, owner, item))
    ensures item.url == "" ==> ModuleItemPlan(st, modulesDir, owner, item) == st
    ensures item.url != "" ==>
      var r := ModuleItemPlan(st, modulesDir, owner, item);
      var dir := ItemsDir(modulesDir, owner.name);
      var name := PageFilename(item.title);
      && (dir != [] ==> dir in r.existing)
      && r.log == st.log + (if Child(dir, name) in st.existing then [] else [Archive(item.url, dir, name)])
  {
    if item.url != "" {
      var dir := ItemsDir(modulesDir, owner.name);
      var name := PageFilename(item.title);
      var made := EnsureDir(st, dir);
      EnsureDirExists(st, dir);
      EnsureDirShallow(st, dir, Child(dir, name));
      PageRequest(made, item.url, dir, name);
      PrimitivesGrow(st, dir, item.url, name, []);
      GrowsTransitive(st, made, ModuleItemPlan(st, modulesDir, owner, item));
    }
  }

  // ---- download_submission ----

  /** Submissions of a single-submission assignment go in the assignment's
      folder; otherwise each goes in a folder named after its user id. */
  function SubmissionDir(a: AssignmentView, s: SubmissionView, assignDir: Path): Path
  {
    if |a.submissions| != 1 then Child(assignDir, s.userId) else assignDir
  }

  lemma SubmissionFolder(a: AssignmentView, s: SubmissionView, assignDir: Path)
    ensures |a.submissions| == 1 ==> SubmissionDir(a, s, assignDir) == assignDir
    ensures |a.submissions| != 1 && s.userId != "" ==> SubmissionDir(a, s, assignDir) == assignDir + [s.userId]
  {
  }

  /** When an assignment has several submissions, submissions of distinct
      users, whose ids are written in decimal, go to distinct folders. */
  lemma SubmissionDirsDistinct(a: AssignmentView, s1: SubmissionView, s2: SubmissionView, assignDir: Path, u1: nat, u2: nat)
    requires |a.submissions| != 1
    requires s1.userId == Decimal(u1) && s2.userId == Decimal(u2) && u1 != u2
    ensures SubmissionDir(a, s1, assignDir) != SubmissionDir(a, s2, assignDir)
  {
    if s1.userId == s2.userId {
      DecimalInjective(u1, u2);
      assert false;
    }
    var d1 := SubmissionDir(a, s1, assignDir);
    var d2 := SubmissionDir(a, s2, assignDir);
    assert d1[|assignDir|] == s1.userId && d2[|assignDir|] == s2.userId;
  }

  function AttemptsDir(assignDir: Path): Path
  {
    Child(assignDir, "attempts")
  }

  function AttemptName(i: nat): string
  {
    "attempt_" + Decimal(i) + ".html"
  }

  function AttemptUrl(updatedUrl: string, i: nat): string
  {
    updatedUrl + "/history?version=" + Decimal(i)
  }

  /** Attempt pages are wanted when the attempt is not the first, both URLs are
      set, and they differ once trailing slashes are stripped. */
  predicate WantsAttempts(a: AssignmentView, s: SubmissionView)
  {
    s.attempt != 1 && a.updatedUrl != "" && a.htmlUrl != ""
    && RStrip(a.htmlUrl, IsSlash) != RStrip(a.updatedUrl, IsSlash)
  }

  /** The first `n` rounds of the attempt loop. */
  function AttemptPages(st: DiskState, updatedUrl: string, dir: Path, n: nat): DiskState
  {
    if n == 0 then st
    else PageIfAbsent(AttemptPages(st, updatedUrl, dir, n - 1), AttemptUrl(updatedUrl, n), dir, AttemptName(n))
  }

  /** The attempt loop requests exactly the attempt pages `1..n` whose files
      are absent: at most `n` requests, and no file appears. */
  lemma {:induction false} AttemptRequests(st: DiskState, u: string, dir: Path, n: nat)
    ensures var r := AttemptPages(st, u, dir, n);
      && r.existing == st.existing
      && |st.log| <= |r.log| <= |st.log| + n
      && r.log[..|st.log|] == st.log
      && forall e :: e in r.log[|st.log|..] <==>
           exists i :: 1 <= i <= n && Child(dir, AttemptName(i)) !in st.existing
             && e == Archive(AttemptUrl(u, i), dir, AttemptName(i))
  {
    var r := AttemptPages(st, u, dir, n);
    if n == 0 {
      assert r.log[|st.log|..] == [];
    } else {
      var prev := AttemptPages(st, u, dir, n - 1);
      AttemptRequests(st, u, dir, n - 1);
      var ev := Archive(AttemptUrl(u, n), dir, AttemptName(n));
      PageRequest(prev, AttemptUrl(u, n), dir, AttemptName(n));
      var added := if Child(dir, AttemptName(n)) in st.existing then [] else [ev];
      assert r.log == prev.log + added;
      assert r.log[|st.log|..] == prev.log[|st.log|..] + added;
      forall e
        ensures e in r.log[|st.log|..] <==>
          exists i :: 1 <= i <= n && Child(dir, AttemptName(i)) !in st.existing
            && e == Archive(AttemptUrl(u, i), dir, AttemptName(i))
      {
        if e in prev.log[|st.log|..] {
          var i :| 1 <= i <= n - 1 && Child(dir, AttemptName(i)) !in st.existing
            && e == Archive(AttemptUrl(u, i), dir, AttemptName(i));
          assert 1 <= i <= n;
        } else if e in added {
          assert 1 <= n && Child(dir, AttemptName(n)) !in st.existing && e == ev;
        }
      }
    }
  }

  /** The preview page of one submission. */
  function PreviewPlan(st: DiskState, a: AssignmentView, s: SubmissionView, assignDir: Path): DiskState
  {
    if s.previewUrl == "" then st
    else
      var dir := SubmissionDir(a, s, assignDir);
      PageIfAbsent(EnsureDir(st, dir), s.previewUrl, dir, "submission.html")
  }

  /** `range(attempt)` is empty for a negative attempt. */
  function AttemptRounds(attempt: int): (n: nat)
    ensures attempt >= 0 ==> n == attempt
    ensures attempt < 0 ==> n == 0
  {
    if attempt < 0 then 0 else attempt
  }

  /** The attempt pages of one submission, when wanted. */
  function AttemptsPlan(st: DiskState, a: AssignmentView, s: SubmissionView, assignDir: Path): DiskState
  {
    if WantsAttempts(a, s) then
      var dir := AttemptsDir(assignDir);
      AttemptPages(EnsureDir(st, dir), a.updatedUrl, dir, AttemptRounds(s.attempt))
    else st
  }

  function SubmissionPlan(st: DiskState, a: AssignmentView, s: SubmissionView, assignDir: Path): DiskState
  {
    AttemptsPlan(PreviewPlan(st, a, s, assignDir), a, s, assignDir)
  }

  /** `for i in range(submission.attempt)`, requesting `attempt_<i + 1>.html`. */
  method RequestAttempts(disk: Disk, updatedUrl: string, dir: Path, attempt: int)
    modifies disk
    ensures disk.State() == AttemptPages(old(disk.State()), updatedUrl, dir, AttemptRounds(attempt))
  {
    ghost var start := disk.State();
    var i := 0;
    while i < attempt
      invariant 0 <= i <= AttemptRounds(attempt)
      invariant disk.State() == AttemptPages(start, updatedUrl, dir, i)
    {
      SavePage(disk, updatedUrl + "/history?version=" + Decimal(i + 1), dir, "attempt_" + Decimal(i + 1) + ".html");
      i := i + 1;
    }
  }

  method DownloadSubmission(disk: Disk, a: AssignmentView, s: SubmissionView, assignDir: Path)
    modifies disk
    ensures disk.State() == SubmissionPlan(old(disk.State()), a, s, assignDir)
  {
    var dir := assignDir;
    if |a.submissions| != 1 {
      dir := Child(assignDir, s.userId);
    }
    if s.previewUrl != "" {
      disk.EnsureDirectory(dir);
      SavePage(disk, s.previewUrl, dir, "submission.html");
    }
    ghost var previewed := disk.State();
    if s.attempt != 1 && a.updatedUrl != "" && a.htmlUrl != ""
      && RStrip(a.htmlUrl, IsSlash) != RStrip(a.updatedUrl, IsSlash)
    {
      dir := Child(assignDir, "attempts");
      disk.EnsureDirectory(dir);
      RequestAttempts(disk, a.updatedUrl, dir, s.attempt);
    }
    assert disk.State() == AttemptsPlan(previewed, a, s, assignDir);
  }

  /** The preview request, if any: one exactly when a preview URL is set and
      `submission.html` is absent. Nothing deeper than the submission folder
      appears. */
  lemma PreviewRequest(st: DiskState, a: AssignmentView, s: SubmissionView, assignDir: Path)
    ensures Grows(st, PreviewPlan(st, a, s, assignDir))
    ensures var dir := SubmissionDir(a, s, assignDir);
      PreviewPlan(st, a, s, assignDir).log == st.log +
        (if s.previewUrl != "" && Child(dir, "submission.html") !in st.existing
         then [Archive(s.previewUrl, dir, "submission.html")] else [])
    ensures forall q: Path :: |q| > |assignDir| + 1 ==>
      (q in PreviewPlan(st, a, s, assignDir).existing <==> q in st.existing)
  {
    if s.previewUrl != "" {
      var dir := SubmissionDir(a, s, assignDir);
      var made := EnsureDir(st, dir);
      PrimitivesGrow(st, dir, "", "", []);
      EnsureDirShallow(st, dir, Child(dir, "submission.html"));
      PageRequest(made, s.previewUrl, dir, "submission.html");
      GrowsTransitive(st, made, PreviewPlan(st, a, s, assignDir));
      forall q: Path | |q| > |assignDir| + 1
        ensures q in made.existing <==> q in st.existing
      {
        EnsureDirShallow(st, dir, q);
      }
    }
  }

  /** The attempt requests: some only when attempts are wanted, one per absent
      `attempt_<i>.html` for `i` up to the attempt number, and at most that
      many. */
  lemma AttemptsRequests(st: DiskState, a: AssignmentView, s: SubmissionView, assignDir: Path)
    ensures Grows(st, AttemptsPlan(st, a, s, assignDir))
    ensures var r := AttemptsPlan(st, a, s, assignDir);
      && |r.log| <= |st.log| + (if WantsAttempts(a, s) then AttemptRounds(s.attempt) else 0)
      && forall e :: e in r.log[|st.log|..] <==>
           (WantsAttempts(a, s) &&
              exists i ::
                1 <= i <= s.attempt
                && Child(AttemptsDir(assignDir), AttemptName(i)) !in st.existing
                && e == Archive(AttemptUrl(a.updatedUrl, i), AttemptsDir(assignDir), AttemptName(i)))
  {
    var r := AttemptsPlan(st, a, s, assignDir);
    if WantsAttempts(a, s) {
      var adir := AttemptsDir(assignDir);
      var made := EnsureDir(st, adir);
      AttemptRequests(made, a.updatedUrl, adir, AttemptRounds(s.attempt));
      PrimitivesGrow(st, adir, "", "", []);
      GrowsTransitive(st, made, r);
      forall i | 1 <= i
        ensures Child(adir, AttemptName(i)) in made.existing <==> Child(adir, AttemptName(i)) in st.existing
      {
        EnsureDirShallow(st, adir, Child(adir, AttemptName(i)));
      }
    } else {
      assert r.log[|st.log|..] == [];
    }
  }

  /** The preview request, when due and its file is absent, comes first; the
      attempt requests follow, and there are some only when attempts are
      wanted: one per absent `attempt_<i>.html`, for `i` up to the attempt
      number. */
  lemma SubmissionRequests(st: DiskState, a: AssignmentView, s: SubmissionView, assignDir: Path)
    ensures Grows(st, SubmissionPlan(st, a, s, assignDir))
    ensures var r := SubmissionPlan(st, a, s, assignDir);
      var dir := SubmissionDir(a, s, assignDir);
      var preview := if s.previewUrl != "" && Child(dir, "submission.html") !in st.existing
        then [Archive(s.previewUrl, dir, "submission.html")] else [];
      var start := |st.log| + |preview|;
      && start <= |r.log| <= start + (if WantsAttempts(a, s) then AttemptRounds(s.attempt) else 0)
      && r.log[..start] == st.log + preview
      && forall e :: e in r.log[start..] <==>
           (WantsAttempts(a, s) &&
              exists i ::
                1 <= i <= s.attempt
                && Child(AttemptsDir(assignDir), AttemptName(i)) !in st.existing
                && e == Archive(AttemptUrl(a.updatedUrl, i), AttemptsDir(assignDir), AttemptName(i)))
  {
    var previewed := PreviewPlan(st, a, s, assignDir);
    PreviewRequest(st, a, s, assignDir);
    AttemptsRequests(previewed, a, s, assignDir);
    GrowsTransitive(st, previewed, SubmissionPlan(st, a, s, assignDir));
    forall i | 1 <= i
      ensures Child(AttemptsDir(assignDir), AttemptName(i)) in previewed.existing
          <==> Child(AttemptsDir(assignDir), AttemptName(i)) in st.existing
    {
      assert |Child(AttemptsDir(assignDir), AttemptName(i))| > |assignDir| + 1;
    }
  }

  /** With attempts wanted but an attempt number of 0 or less, the attempts
      folder is created and no attempt page is requested. */
  lemma NoAttemptRounds(st: DiskState, a: AssignmentView, s: SubmissionView, assignDir: Path)
    requires WantsAttempts(a, s) && s.attempt <= 0
    ensures AttemptsDir(assignDir) in SubmissionPlan(st, a, s, assignDir).existing
    ensures SubmissionPlan(st, a, s, assignDir).log == PreviewPlan(st, a, s, assignDir).log
  {
    EnsureDirExists(PreviewPlan(st, a, s, assignDir), AttemptsDir(assignDir));
  }

  // ---- download_assignment ----

  function AssignmentDir(baseDir: Path, a: AssignmentView): Path
  {
    Child(baseDir, FolderName(a.title))
  }

  /** The extra files linked from the description: each is downloaded, whether
      present or not, to its remote display name joined to the assignment's
      folder. The name is not sanitised, so it may name a sub-folder or, when
      absolute, a path outside the folder (`FileDest`). */
  function ExtraFiles(st: DiskState, dir: Path, files: seq<(string, string)>): DiskState
  {
    if files == [] then st
    else
      var last := files[|files| - 1];
      Downloaded(ExtraFiles(st, dir, files[..|files| - 1]), last.1, FileDest(dir, last.0))
  }

  function ExtraEvents(dir: Path, files: seq<(string, string)>): (r: seq<Event>)
    ensures |r| == |files|
    ensures forall k :: 0 <= k < |files| ==> r[k] == Download(files[k].1, FileDest(dir, files[k].0))
  {
    seq(|files|, k requires 0 <= k < |files| => Download(files[k].1, FileDest(dir, files[k].0)))
  }

  /** One download per extra file, in order. */
  lemma {:induction false} ExtraFilesLog(st: DiskState, dir: Path, files: seq<(string, string)>)
    ensures ExtraFiles(st, dir, files).log == st.log + ExtraEvents(dir, files)
  {
    if files != [] {
      var init := files[..|files| - 1];
      ExtraFilesLog(st, dir, init);
      assert ExtraEvents(dir, files) == ExtraEvents(dir, init) + [ExtraEvents(dir, files)[|files| - 1]];
    }
  }

  /** Each destination exists afterwards, and nothing that existed is gone. */
  lemma {:induction false} ExtraFilesExist(st: DiskState, dir: Path, files: seq<(string, string)>)
    ensures st.existing <= ExtraFiles(st, dir, files).existing
    ensures forall k :: 0 <= k < |files| ==> FileDest(dir, files[k].0) in ExtraFiles(st, dir, files).existing
  {
    if files != [] {
      var init := files[..|files| - 1];
      var last := files[|files| - 1];
      ExtraFilesExist(st, dir, init);
      var prev := ExtraFiles(st, dir, init);
      var r := ExtraFiles(st, dir, files);
      assert r.existing == prev.existing + {FileDest(dir, last.0)};
      forall k | 0 <= k < |files|
        ensures FileDest(dir, files[k].0) in r.existing
      {
        if k < |init| {
          assert files[k] == init[k];
          assert FileDest(dir, init[k].0) in prev.existing;
        } else {
          assert files[k] == last;
        }
      }
    }
  }

  lemma ExtraFilesGrow(st: DiskState, dir: Path, files: seq<(string, string)>)
    ensures Grows(st, ExtraFiles(st, dir, files))
  {
    ExtraFilesLog(st, dir, files);
    ExtraFilesExist(st, dir, files);
    assert ExtraFiles(st, dir, files).log[..|st.log|] == st.log;
  }

  /** Everything `download_assignment` does before its submissions: only when
      the assignment has a URL. */
  function AssignmentPagePlan(st: DiskState, baseDir: Path, a: AssignmentView, extraFiles: seq<(string, string)>): DiskState
  {
    if a.htmlUrl == "" then st
    else
      var dir := AssignmentDir(baseDir, a);
      ExtraFiles(PageIfAbsent(EnsureDir(st, dir), a.htmlUrl, dir, "assignment.html"), dir, extraFiles)
  }

  /** The submission loop over the first submissions. */
  function SubmissionsPlan(st: DiskState, a: AssignmentView, subs: seq<SubmissionView>, assignDir: Path): DiskState
  {
    if subs == [] then st
    else SubmissionPlan(SubmissionsPlan(st, a, subs[..|subs| - 1], assignDir), a, subs[|subs| - 1], assignDir)
  }

  function AssignmentPlan(st: DiskState, baseDir: Path, a: AssignmentView, extraFiles: seq<(string, string)>): DiskState
  {
    SubmissionsPlan(AssignmentPagePlan(st, baseDir, a, extraFiles), a, a.submissions, AssignmentDir(baseDir, a))
  }

  /** `for name, url in extra_files: download_file(url, Path(assign_dir, name), ...)`. */
  method DownloadExtraFiles(disk: Disk, dir: Path, extraFiles: seq<(string, string)>)
    modifies disk
    ensures disk.State() == ExtraFiles(old(disk.State()), dir, extraFiles)
  {
    ghost var start := disk.State();
    var k := 0;
    while k < |extraFiles|
      invariant 0 <= k <= |extraFiles|
      invariant disk.State() == ExtraFiles(start, dir, extraFiles[..k])
    {
      assert extraFiles[..k + 1][..k] == extraFiles[..k];
      disk.Download(extraFiles[k].1, FileDest(dir, extraFiles[k].0));
      k := k + 1;
    }
    assert extraFiles[..k] == extraFiles;
  }

  /** `for submission in assignment.submissions: download_submission(...)`. */
  method DownloadSubmissions(disk: Disk, a: AssignmentView, assignDir: Path)
    modifies disk
    ensures disk.State() == SubmissionsPlan(old(disk.State()), a, a.submissions, assignDir)
  {
    ghost var start := disk.State();
    var i := 0;
    while i < |a.submissions|
      invariant 0 <= i <= |a.submissions|
      invariant disk.State() == SubmissionsPlan(start, a, a.submissions[..i], assignDir)
    {
      assert a.submissions[..i + 1][..i] == a.submissions[..i];
      DownloadSubmission(disk, a, a.submissions[i], assignDir);
      i := i + 1;
    }
    assert a.submissions[..i] == a.submissions;
  }

  method DownloadAssignment(disk: Disk, baseDir: Path, a: AssignmentView, extraFiles: seq<(string, string)>)
    modifies disk
    ensures disk.State() == AssignmentPlan(old(disk.State()), baseDir, a, extraFiles)
  {
    var dir := Child(baseDir, FolderName(a.title));
    if a.htmlUrl != "" {
      disk.EnsureDirectory(dir);
      SavePage(disk, a.htmlUrl, dir, "assignment.html");
      DownloadExtraFiles(disk, dir, extraFiles);
    }
    DownloadSubmissions(disk, a, dir);
  }

  /** Without a URL nothing is done before the submissions; with one, the
      assignment page is requested exactly when `assignment.html` is absent,
      and every extra file is downloaded after it. */
  lemma AssignmentPageRequests(st: DiskState, baseDir: Path, a: AssignmentView, extraFiles: seq<(string, string)>)
    ensures Grows(st, AssignmentPagePlan(st, baseDir, a, extraFiles))
    ensures a.htmlUrl == "" ==> AssignmentPagePlan(st, baseDir, a, extraFiles) == st
    ensures a.htmlUrl != "" ==>
      var dir := AssignmentDir(baseDir, a);
      var page := if Child(dir, "assignment.html") in st.existing then [] else [Archive(a.htmlUrl, dir, "assignment.html")];
      AssignmentPagePlan(st, baseDir, a, extraFiles).log == st.log + page + ExtraEvents(dir, extraFiles)
  {
    if a.htmlUrl != "" {
      var dir := AssignmentDir(baseDir, a);
      var made := EnsureDir(st, dir);
      var saved := PageIfAbsent(made, a.htmlUrl, dir, "assignment.html");
      PrimitivesGrow(st, dir, "", "", []);
      EnsureDirShallow(st, dir, Child(dir, "assignment.html"));
      PageRequest(made, a.htmlUrl, dir, "assignment.html");
      ExtraFilesLog(saved, dir, extraFiles);
      ExtraFilesGrow(saved, dir, extraFiles);
      GrowsTransitive(st, made, saved);
      GrowsTransitive(st, saved, AssignmentPagePlan(st, baseDir, a, extraFiles));
    }
  }

  /** The submission loop only adds files and appends requests. */
  lemma {:induction false} SubmissionsGrow(st: DiskState, a: AssignmentView, subs: seq<SubmissionView>, assignDir: Path)
    ensures Grows(st, SubmissionsPlan(st, a, subs, assignDir))
  {
    if subs != [] {
      var prev := SubmissionsPlan(st, a, subs[..|subs| - 1], assignDir);
      SubmissionsGrow(st, a, subs[..|subs| - 1], assignDir);
      SubmissionRequests(prev, a, subs[|subs| - 1], assignDir);
      GrowsTransitive(st, prev, SubmissionsPlan(st, a, subs, assignDir));
    }
  }

  /** Afterwards a submission with a preview URL has its `submission.html` on
      disk or requested. */
  lemma PreviewCovered(st: DiskState, a: AssignmentView, s: SubmissionView, assignDir: Path)
    requires s.previewUrl != ""
    ensures var r := SubmissionPlan(st, a, s, assignDir);
      var dir := SubmissionDir(a, s, assignDir);
      Child(dir, "submission.html") in r.existing || Archive(s.previewUrl, dir, "submission.html") in r.log
  {
    var dir := SubmissionDir(a, s, assignDir);
    var previewed := PreviewPlan(st, a, s, assignDir);
    var r := SubmissionPlan(st, a, s, assignDir);
    PreviewRequest(st, a, s, assignDir);
    AttemptsRequests(previewed, a, s, assignDir);
    if Child(dir, "submission.html") !in st.existing {
      assert previewed.log[|st.log|] == Archive(s.previewUrl, dir, "submission.html");
      assert r.log[|st.log|] == previewed.log[|st.log|];
    }
  }

  /** Every submission is processed, whether or not the assignment has a URL:
      afterwards each submission with a preview URL has its `submission.html`
      on disk or requested. */
  lemma {:induction false} PreviewsCovered(st: DiskState, a: AssignmentView, subs: seq<SubmissionView>, assignDir: Path, k: nat)
    requires k < |subs| && subs[k].previewUrl != ""
    ensures var r := SubmissionsPlan(st, a, subs, assignDir);
      var dir := SubmissionDir(a, subs[k], assignDir);
      Child(dir, "submission.html") in r.existing || Archive(subs[k].previewUrl, dir, "submission.html") in r.log
  {
    var init := subs[..|subs| - 1];
    var prev := SubmissionsPlan(st, a, init, assignDir);
    var r := SubmissionsPlan(st, a, subs, assignDir);
    if k == |subs| - 1 {
      PreviewCovered(prev, a, subs[k], assignDir);
    } else {
      var dir := SubmissionDir(a, subs[k], assignDir);
      var ev := Archive(subs[k].previewUrl, dir, "submission.html");
      PreviewsCovered(st, a, init, assignDir, k);
      assert init[k] == subs[k];
      SubmissionRequests(prev, a, subs[|subs| - 1], assignDir);
      if ev in prev.log {
        var j :| 0 <= j < |prev.log| && prev.log[j] == ev;
        assert r.log[..|prev.log|] == prev.log;
        assert r.log[j] == ev;
      }
    }
  }

  /** The whole of `download_assignment` only adds files and appends
      requests, and with an empty URL it is just the submission loop. */
  lemma AssignmentRequests(st: DiskState, baseDir: Path, a: AssignmentView, extraFiles: seq<(string, string)>)
    ensures Grows(st, AssignmentPlan(st, baseDir, a, extraFiles))
    ensures a.htmlUrl == "" ==>
      AssignmentPlan(st, baseDir, a, extraFiles) == SubmissionsPlan(st, a, a.submissions, AssignmentDir(baseDir, a))
  {
    var mid := AssignmentPagePlan(st, baseDir, a, extraFiles);
    AssignmentPageRequests(st, baseDir, a, extraFiles);
    SubmissionsGrow(mid, a, a.submissions, AssignmentDir(baseDir, a));
    GrowsTransitive(st, mid, AssignmentPlan(st, baseDir, a, extraFiles));
  }
}
