# Canvas course export: the naming, mapping and download-planning core

The exporter saves a Canvas course to disk. It lists the course's assignments, modules, discussions and announcements through the Canvas API. It turns each remote object into a snapshot record. It then has a headless browser ("single-file") save every page as an HTML file, and it downloads attached files. This project models the deterministic rules inside that process and proves what they guarantee:

- **Names** (`Helpers`, on `PyStr`, a model of the Python string operations used):
  - `make_valid_filename` and `make_valid_folder_path` sanitise remote titles into path segments;
  - `shorten_file_name` truncates long ones and marks the cut with `-`;
  - every caller derives folder names with the 70-character limit (`FolderName`).
- **The archiver command** (`SingleFile`):
  - `add_quotes` wraps values in double quotes;
  - the archiver's argument list and its `node ...` command line are built from the values.

  Beyond the layout, the model proves that a POSIX shell splitting that command hands the archiver exactly the intended words. This holds when the values hold no character the shell interprets inside double quotes.
- **Snapshot records** (`Views`):
  - one datatype per `*View` class, with its constructor's defaults as a constant;
  - `CourseView`'s normalisation of the course's term, code and name;
  - the `"  "` → `" "` title rewrite, which is a single left-to-right pass;
  - `test_course`'s verdict on a status code.
- **Mapping remote objects to records** (`Canvas`). Remote objects are records of optional attributes, and each remote call either returns or raises (`Call`). The module covers:
  - `get_discussion_view`, with its entry counter and page count;
  - the field derivations of `find_course_assignments`;
  - the `"File"` gate of `find_course_modules`.

  The loops are methods proved equal to specification functions.
- **Download planning** (`Threading`). `download_module_item`, `download_assignment` and `download_submission` run over an abstract disk (`Files`), which holds:
  - a set of existing paths;
  - a log of requests, each either an archive request to the page archiver or a file download.

  Each operation is a function from the disk before to the disk after, and a method on the `Disk` class makes the same change in place. The lemmas cover:
  - which request is made, under which folder and file name;
  - that every request is made only when its file is absent;
  - that the disk only grows.

Dates are taken as already formatted strings. The host's path separator is a parameter.

## Model

| member | source | states |
|---|---|---|
| Helpers.Substituted | module/helpers.py:14-16 | length kept; each character rewritten one for one: `+` to space, `:` and `/` to `-` |
| Helpers.SubstitutedValid | module/helpers.py:13-17 | a text of allowed characters has nothing to rewrite |
| Helpers.TrimmedName | module/helpers.py:17-20 | the filtered, stripped name is no longer than its input, holds only `-_.() `, ASCII letters and digits, and does not start with a space |
| Helpers.MakeValidFilename | module/helpers.py:5-25 | empty input returned as is; output no longer than input, only allowed characters, never starts with a space, never ends with `.` |
| Helpers.TrimmedNameKept | module/helpers.py:17-20 | a name of allowed characters with no space at either end passes filter and strip unchanged |
| Helpers.CleanFilenameKept | module/helpers.py:5-25 | a clean name (allowed characters, no space at either end, no trailing `.`) is returned unchanged |
| Helpers.TrailingSpaceDropped | module/helpers.py:20-23 | a name ending in a space always comes out strictly shorter |
| Helpers.MakeValidFilenameFixedPoints | module/helpers.py:5-25 | the function returns its input exactly when the input is empty or clean |
| Helpers.MakeValidFilenameFirstPass | module/helpers.py:20-23 | `"a ."` becomes `"a "`: the output may end with a space |
| Helpers.MakeValidFilenameSecondPass | module/helpers.py:20-23 | a second pass turns `"a "` into `"a"`, so the function is not idempotent |
| Helpers.FolderSubstituted | module/helpers.py:32-33 | length kept; `+` to space, `:` to `-`, `/` kept |
| Helpers.KeptFolderPath | module/helpers.py:31-37 | filtered and whitespace-stripped path: allowed characters plus `/`, no longer than input |
| Helpers.SlashlessFolderPath | module/helpers.py:37 | after stripping `/` and `\`, the path does not start with `/` and has no `\` to strip |
| Helpers.TrimmedFolderPath | module/helpers.py:31-40 | before separators are rewritten, the path does not start with `/` and does not end with `.` |
| Helpers.SeparatorsRewritten | module/helpers.py:43 | writing `/` as the separator keeps the length, leaves only allowed characters and separators, and keeps the ends clean |
| Helpers.MakeValidFolderPath | module/helpers.py:28-45 | only allowed characters or the OS separator; never starts with the separator; never ends with `.`; never longer than input |
| Helpers.ShortenFileName | module/helpers.py:48-59 | empty input or `shorten_by <= 0` unchanged; for `0 < shorten_by < len`: a prefix of the input followed by exactly one `-`, at least `shorten_by` shorter |
| Helpers.ShortenFileNameNegativeSlice | module/helpers.py:54 | with `shorten_by >= len` the Python negative slice applies: `("abc", 3)` gives `"ab-"`, `("abc", 5)` gives `"-"` |
| Helpers.ShortenToMax | module/get_canvas.py:47 | with `shorten_by = len - 70`, names of at most 70 characters are unchanged; longer ones become a prefix plus `-`, at most 70 long |
| Helpers.ShortenToMaxChars | module/get_canvas.py:46-47 | shortening a sanitised name keeps it within 70 characters and within the allowed characters |
| Helpers.FolderName | module/threading.py:14-15 | a folder name derived from a title is at most 70 characters of the allowed set |
| PyStr.ReplaceOneChar | module/helpers.py:14-16 | replacing one character by another is pointwise and keeps the length |
| PyStr.KeepAllowed | module/helpers.py:17 | filtering a text made only of allowed characters returns it unchanged |
| PyStr.Keep | module/helpers.py:17 | the filter never lengthens its input and leaves only allowed characters |
| PyStr.KeepOne | module/helpers.py:17 | one character is kept exactly when it is allowed |
| PyStr.KeepConcat | module/helpers.py:17 | the filter of `s + t` is the filter of `s` followed by the filter of `t`; with `KeepOne`, every allowed character of any input survives, in order |
| PyStr.Replace | module/helpers.py:14-16 | definition of `str.replace`: one left-to-right pass over non-overlapping occurrences; its properties are `ReplaceOneChar` and the halving lemmas of `Views` |
| PyStr.Strip | module/helpers.py:37 | definition of `strip` as `lstrip` then `rstrip`; its properties are `StripEnds` |
| PyStr.BeforeFirst | module/get_canvas.py:158 | definition of `split(marker)[0]`; characterised by `BeforeFirstSpec` |
| PyStr.Decimal | module/threading.py:75 | `str(n)` is a non-empty string of digits; `DecimalRoundTrip` reads it back |
| PyStr.Join | module/singlefile.py:26 | definition of `sep.join(xs)`; `ScanJoin` states what the shell makes of the joined arguments |
| PyStr.LStripSuffix | module/helpers.py:20 | `lstrip` returns a suffix of its input |
| PyStr.RStripPrefix | module/helpers.py:23 | `rstrip` returns a prefix of its input |
| PyStr.StripEnds | module/helpers.py:37 | `strip` leaves neither end in the stripped set and keeps every property of the input's characters |
| PyStr.SliceTo | module/helpers.py:54 | `s[:k]` with Python's negative-index rule: a prefix of `s` |
| PyStr.BeforeFirstSpec | module/get_canvas.py:158 | `split(marker)[0]` is the prefix up to the first occurrence of the marker, or the whole text when there is none |
| PyStr.DecimalRoundTrip | module/threading.py:75 | `str(n)` reads back as `n` |
| PyStr.DecimalInjective | module/get_canvas.py:174 | distinct numbers have distinct decimal texts, so user-id folders differ (`SubmissionDirsDistinct`) |
| SingleFile.AddQuotes | module/singlefile.py:7-8 | the result starts and ends with `"`, and the text between neither starts nor ends with `"` |
| SingleFile.StripQuoted | module/singlefile.py:8 | stripping quotes off a wrapped text whose own ends are not quotes gives that text back |
| SingleFile.AddQuotesIdempotent | module/singlefile.py:8 | `add_quotes(add_quotes(s)) == add_quotes(s)` |
| SingleFile.AddQuotesWraps | module/singlefile.py:8 | `add_quotes(s)` is `s` wrapped in quotes exactly when `s` neither starts nor ends with `"` |
| SingleFile.ArchiverArgs | module/singlefile.py:14-23 | five arguments without a template, six with one |
| SingleFile.ArgList | module/singlefile.py:14-23 | definition of the argument list; its properties are `ArchiverArgs`, `ArchiverArgsTemplate`, `ArchiverArgsQuoted` and `ArgListWords` |
| SingleFile.ShellWords | module/singlefile.py:26 | definition of how `sh` splits the command line into words (blanks separate words; double quotes group and are removed); used by `ArchiverCommandWords` |
| SingleFile.ArchiverArgsTemplate | module/singlefile.py:22-23 | a template adds only a sixth, last argument `--filename-template=` plus the quoted template; the first five are unchanged |
| SingleFile.ArchiverArgsQuoted | module/singlefile.py:14-23 | every argument is its fixed flag followed by its value passed through `add_quotes` |
| SingleFile.ArchiverCommand | module/singlefile.py:26 | the command starts with `"node "` |
| SingleFile.BinaryPathQuotable | module/singlefile.py:3 | the archiver path has no character the shell interprets inside quotes |
| SingleFile.ChromePathQuotable | module/singlefile.py:4 | the browser path has no character the shell interprets inside quotes |
| SingleFile.ChromePathUnquoted | module/singlefile.py:16 | stripping quotes off the browser path changes nothing |
| SingleFile.FixedArgsWellFormed | module/singlefile.py:15-16 | the two fixed arguments are a bare flag and a quotable value |
| SingleFile.ArgListWellFormed | module/singlefile.py:14-23 | with quotable values, every argument is well formed |
| SingleFile.IntendedWords | module/singlefile.py:14-23 | the archiver's intended arguments: five, or six with a template |
| SingleFile.ArgListWords | module/singlefile.py:14-23 | the arguments stand for, in order, the archiver path, the browser, the cookie file, the output folder, the URL and the optional template |
| SingleFile.ScanJoin | module/singlefile.py:26 | arguments joined by single spaces are split back into one word each by the shell |
| SingleFile.CommandWordsOfArgs | module/singlefile.py:26 | the shell reads `node` followed by one word per argument |
| SingleFile.ArchiverCommandWords | module/singlefile.py:14-26 | with values free of `"`, `$`, backquote and backslash, `sh` passes the archiver exactly `node`, its path, the browser, cookie, output and URL arguments, and the template, quotes removed |
| Views.HalveSpaces | module/get_canvas.py:38 | the rewrite never lengthens a title |
| Views.HalveSpacesRun | module/get_canvas.py:221 | a run of `k` spaces becomes `(k + 1) / 2` spaces: runs are halved, not collapsed |
| Views.HalveThreeSpaces | module/get_canvas.py:221 | three spaces become two |
| Views.HalveSpacesFixedPoints | module/items.py:105 | a text is unchanged exactly when it has no two spaces in a row |
| Views.HalveSpacesChars | module/items.py:104 | the rewrite introduces no new characters |
| Views.NewCourseView | module/items.py:97-110 | id or 0; term and code are made of allowed characters and are `""` when missing; name is not sanitised; no assignments, announcements, discussions or modules |
| Views.CourseNameKept | module/items.py:102-105 | a name without double spaces is kept character for character, even characters a file name may not hold |
| Views.CourseCodeKept | module/items.py:101-104 | a clean code without double spaces is kept |
| Views.CourseCodeThreeSpaces | module/items.py:101-104 | the code `"A   B"` becomes `"A  B"`: sanitised first, then one rewrite pass |
| Views.CourseReachable | module/items.py:112-122 | valid exactly when the request returned status 200; an exception is invalid |
| Canvas.PageCount | module/get_canvas.py:268 | at least one page |
| Canvas.PageCountRange | module/get_canvas.py:268 | `k + 1` pages exactly when the counter is in `[50k, 50(k+1))` |
| Canvas.PageCountExamples | module/get_canvas.py:268 | 0 → 1, 49 → 1, 50 → 2, 100 → 3 |
| Canvas.ReplyViews | module/get_canvas.py:249-256 | one reply record per reply |
| Canvas.EntriesBefore | module/get_canvas.py:235-261 | the appended entries are those before the first entry whose replies cannot be fetched |
| Canvas.GetDiscussionView | module/get_canvas.py:217-270 | the loops with counter, early stop and inner reply loop compute the specification `DiscussionOf` |
| Canvas.DiscussionPages | module/get_canvas.py:228-268 | the counter is the number of appended entries or one more, one more exactly when a reply fetch failed; the page count follows the counter |
| Canvas.DiscussionOf | module/get_canvas.py:217-270 | definition of `get_discussion_view` as a value; `GetDiscussionView` computes it, and `DiscussionPages`, `DiscussionFails`, `EntriesInOrder` and `RepliesUseMessage` state its properties |
| Canvas.ReplyView | module/get_canvas.py:249-256 | definition of one reply record; see `RepliesUseMessage` |
| Canvas.EntryView | module/get_canvas.py:239-260 | definition of one entry record with its replies; see `EntriesInOrder` |
| Canvas.NoEntriesWithoutCount | module/get_canvas.py:231-268 | without a positive `discussion_subentry_count`: no entries and one page |
| Canvas.DiscussionFails | module/get_canvas.py:231-234 | the mapping raises exactly when entries are due and their listing raises |
| Canvas.BareTopic | module/get_canvas.py:217-270 | a topic with no attributes gives the default record with one page |
| Canvas.RepliesUseMessage | module/get_canvas.py:251-256 | every reply record keeps `body` empty and carries in `message` the text of the reply it maps, or `""` when that reply has no message |
| Canvas.EntriesInOrder | module/get_canvas.py:235-261 | the `e`-th entry record is the mapping of the `e`-th remote entry |
| Canvas.AttachmentOf | module/get_canvas.py:184-188 | an attachment maps exactly when it has id, filename and url |
| Canvas.AttachmentsOf | module/get_canvas.py:178-188 | when no attachment fails, there is one record per attachment, and record `k` is the mapping of attachment `k` |
| Canvas.AttachmentsFail | module/get_canvas.py:183-191 | the attachment loop fails exactly when some attachment lacks an attribute |
| Canvas.SubmissionOf | module/get_canvas.py:165-189 | definition of the submission record; `AssignmentOf` and `AttachmentsPrefixFails` state when it fails |
| Canvas.UpdatedUrl | module/get_canvas.py:158 | definition of `updated_url`; characterised by `UpdatedUrlSpec` |
| Canvas.AssignmentHead | module/get_canvas.py:149-158 | definition of the assignment record before its submission; see `AssignmentTitle` and `UpdatedUrlSpec` |
| Canvas.UserIdOf | module/get_canvas.py:174 | `""` when missing; otherwise a decimal text that reads back as the id |
| Canvas.UpdatedUrlSpec | module/get_canvas.py:158 | `""` without a download URL; otherwise the prefix before the first `submissions?`, or the whole URL |
| Canvas.AssignmentOf | module/get_canvas.py:149-195 | succeeds exactly when the submission and its attachments can be read, and then holds exactly one submission |
| Canvas.AssignmentTitle | module/get_canvas.py:152 | the title is the sanitised, space-halved name, or `""`; only allowed characters |
| Canvas.AssignmentsOf | module/get_canvas.py:143-197 | on success one record per assignment |
| Canvas.AssignmentsInOrder | module/get_canvas.py:161-189 | each record maps the assignment at its position and has exactly one submission, so the `IndexError` branch is unreachable |
| Canvas.AssignmentsFail | module/get_canvas.py:161-191 | the function raises exactly when some assignment fails |
| Canvas.AttachmentsPrefixFails | module/get_canvas.py:183-191 | one failing attachment fails the whole submission |
| Canvas.AssignmentsPrefixFails | module/get_canvas.py:190-191 | the first failing assignment's error escapes |
| Canvas.SubmissionDefaults | module/get_canvas.py:173-174 | without attempt and user id: attempt 0 and user id `""`, not the record's `"no-id"` |
| Canvas.FindCourseAssignments | module/get_canvas.py:143-197 | the loops compute `AssignmentsOf` |
| Canvas.ItemViews | module/get_canvas.py:36-41 | one record per item, record `k` being `ItemView` of item `k` |
| Canvas.ItemView | module/get_canvas.py:36-40 | definition of one item record, its title space-halved |
| Canvas.FileStep | module/get_canvas.py:43-65 | definition of the "File" gate; its properties are `FileStepRequests` |
| Canvas.ModuleOf | module/get_canvas.py:27-71 | definition of one module record and its disk effect; see `ModulesRunAt` and `ItemsRunGrows` |
| Canvas.ModulesOf | module/get_canvas.py:14-77 | definition of `find_course_modules` as a value; `FindCourseModules` computes it |
| Canvas.ItemsRun | module/get_canvas.py:35-69 | record `k` is `ItemView` of item `k`; every item has its record unless the loop is cut short; a named module never cuts it short, so its "File" items are recorded too |
| Canvas.ModulesRunAt | module/get_canvas.py:26-71 | module record `k` has the module's id and name (or `""`); no items when the listing raises; otherwise the records of its first items in order, and of all of them when the module has a name |
| Canvas.FileStepRequests | module/get_canvas.py:43-65 | the files folder then exists; the file is downloaded exactly when it can be fetched, its sanitised name is not empty, and the path was absent; the disk only grows |
| Canvas.ItemsRunGrows | module/get_canvas.py:35-69 | the disk only grows; with no `"File"` item nothing changes on disk; the loop is cut short only in a module without a name |
| Canvas.FilesDirName | module/get_canvas.py:46-48 | files go to `<modules>/<name of at most 70 allowed characters>/files` |
| Canvas.ItemsRunStops | module/get_canvas.py:68-69 | once the item loop is cut short, later items change nothing |
| Canvas.ModuleItems | module/get_canvas.py:31-69 | the item loop changes the disk and builds the records as `ItemsRun` says |
| Canvas.FindCourseModules | module/get_canvas.py:14-77 | the module loop changes the disk and builds the records as `ModulesOf` says |
| Files.ChildShape | module/threading.py:16 | `os.path.join` with a non-empty name adds one component; with an empty one it names the same folder |
| Files.Segments | module/threading.py:46 | `name.split('/')`: at least one piece, none holding a separator |
| Files.SegmentsRoundTrip | module/threading.py:46 | joining the pieces with `/` gives the name back |
| Files.SegmentsSingle | module/threading.py:46 | a name without separators is one piece |
| Files.Significant | module/threading.py:46 | the pieces `pathlib` keeps: each is one of the pieces, not empty and not `.` |
| Files.FileDest | module/threading.py:46 | definition of `Path(assign_dir, name)` for an unsanitised name; its properties are the four `FileDest` lemmas |
| Files.FileDestPlain | module/threading.py:46 | a name without separators, not empty and not `.`, is one component below the folder |
| Files.FileDestRelative | module/threading.py:46 | a name not starting with `/` gives the folder followed by non-empty, separator-free components |
| Files.FileDestNested | module/threading.py:46 | `"a/b"` lands in the sub-folder `a` |
| Files.FileDestParent | module/threading.py:46 | `"../x"` keeps `..` as a component, so the path the operating system resolves leaves the folder |
| Files.FileDestAbsolute | module/threading.py:46 | `"/x"` ignores the folder and names `/x` |
| Files.Ancestry | module/threading.py:19-20 | `os.makedirs` creates the folder and every ancestor, nothing else |
| Files.EnsureDirExists | module/threading.py:19-20 | the folder then exists and nothing is lost |
| Files.EnsureDirShallow | module/threading.py:19-20 | creating a folder creates nothing below it |
| Files.PrimitivesGrow | module/threading.py:19-27 | each primitive only adds files and appends requests |
| Files.Disk.Exists | module/threading.py:19 | `os.path.exists` |
| Files.Disk.MakeDirs | module/threading.py:20 | adds the folder and its ancestors |
| Files.Disk.RequestArchive | module/threading.py:27 | appends the archive request |
| Files.Disk.Download | module/get_canvas.py:63 | adds the destination and appends the download |
| Files.Disk.EnsureDirectory | module/threading.py:19-20 | in place, as `EnsureDir` |
| Threading.SavePage | module/threading.py:26-27 | requests the page only when its file is absent |
| Threading.PageIfAbsent | module/threading.py:26-27 | definition of "request the page unless its file exists"; see `PageRequest` |
| Threading.PageRequest | module/threading.py:26-27 | one archive request exactly when the file is absent; the file set is unchanged |
| Threading.PageFilename | module/threading.py:22 | the sanitised title (allowed characters) followed by `.html` |
| Threading.DownloadModuleItem | module/threading.py:11-27 | in place, as `ModuleItemPlan` |
| Threading.ModuleItemPlan | module/threading.py:11-27 | definition of `download_module_item` as a value; see `ModuleItemRequests` |
| Threading.ModuleItemRequests | module/threading.py:11-27 | no URL: nothing changes; otherwise the module folder exists and the page is requested exactly when `<module folder>/<title>.html` was absent |
| Threading.SubmissionFolder | module/threading.py:53-56 | the assignment folder for a single submission, otherwise `<assignment folder>/<user id>` |
| Threading.SubmissionDir | module/threading.py:53-56 | definition of the submission folder; see `SubmissionFolder` and `SubmissionDirsDistinct` |
| Threading.SubmissionDirsDistinct | module/threading.py:55-56 | with several submissions, users with distinct ids get distinct folders |
| Threading.WantsAttempts | module/threading.py:67-68 | definition of the attempt condition; see `AttemptsRequests` |
| Threading.AttemptPages | module/threading.py:74-79 | definition of the first `n` rounds of the attempt loop; see `AttemptRequests` |
| Threading.AttemptRequests | module/threading.py:74-79 | at most `n` requests, each `attempt_<i>.html` from `<updated_url>/history?version=<i>` for `1 <= i <= n`, made exactly for the absent files |
| Threading.RequestAttempts | module/threading.py:74-79 | the attempt loop computes `AttemptPages` |
| Threading.DownloadSubmission | module/threading.py:52-79 | in place, as `SubmissionPlan` |
| Threading.PreviewPlan | module/threading.py:58-65 | definition of the preview step; see `PreviewRequest` |
| Threading.AttemptsPlan | module/threading.py:67-79 | definition of the attempts step; see `AttemptsRequests` and `NoAttemptRounds` |
| Threading.SubmissionPlan | module/threading.py:52-79 | definition of `download_submission` as a value; see `SubmissionRequests` |
| Threading.PreviewRequest | module/threading.py:58-65 | `submission.html` is requested exactly when a preview URL is set and the file is absent |
| Threading.AttemptsRequests | module/threading.py:67-79 | attempt pages only when the attempt is not 1, both URLs are set and they differ after stripping `/`; one per absent page, at most `attempt` |
| Threading.SubmissionRequests | module/threading.py:52-79 | the preview request first, then exactly the attempt requests above; the disk only grows |
| Threading.NoAttemptRounds | module/threading.py:67-74 | attempts wanted but attempt 0 or less: the attempts folder is created and nothing is requested |
| Threading.ExtraFilesLog | module/threading.py:44-46 | the extra files are downloaded in order, file `k` from its URL to its name joined to the assignment folder (`FileDest`) |
| Threading.ExtraFilesExist | module/threading.py:44-46 | each extra file's destination (`FileDest`) then exists, and nothing is lost |
| Threading.ExtraFilesGrow | module/threading.py:44-46 | the disk only grows |
| Threading.DownloadExtraFiles | module/threading.py:45-46 | the loop computes `ExtraFiles` |
| Threading.DownloadSubmissions | module/threading.py:48-49 | the loop computes `SubmissionsPlan` |
| Threading.DownloadAssignment | module/threading.py:30-49 | in place, as `AssignmentPlan` |
| Threading.AssignmentDir | module/threading.py:31-33 | definition of the assignment folder: the base folder and the title's folder name (`FolderName`) |
| Threading.AssignmentPlan | module/threading.py:30-49 | definition of `download_assignment` as a value; see `AssignmentRequests` |
| Threading.AssignmentPageRequests | module/threading.py:35-46 | no URL: nothing before the submissions; otherwise `assignment.html` is requested exactly when absent, then every extra file is downloaded |
| Threading.SubmissionsGrow | module/threading.py:48-49 | the submission loop only grows the disk |
| Threading.PreviewCovered | module/threading.py:58-65 | afterwards a submission with a preview URL has its page on disk or requested |
| Threading.PreviewsCovered | module/threading.py:48-49 | every submission is processed, whether or not the assignment has a URL |
| Threading.AssignmentRequests | module/threading.py:30-49 | the disk only grows; with no URL only the submissions are processed |

## Left out

- Concurrency: the thread pools of module/download_canvas.py and module/user_files.py, and tqdm progress output. Each item's plan is modelled alone.
- module/download_canvas.py, module/user_files.py, module/api/file.py and export.py: orchestration, credentials, command-line handling and JSON output.
- The `subprocess.run` call of `download_page` and its error handling: an archive request is a log entry. Whether it produces the file is unknown, so the request adds nothing to the file set.
- module/download.py is not part of this model. `download_file` is a download event that always happens and creates its destination. The `download` method of a Canvas file is treated the same way.
- `get_extra_assignment_files` (HTML parsing and HTTP requests): its result is a parameter of `DownloadAssignment`.
- `find_course_pages` and `get_course_page_urls`: API listing with no rule beyond the title rewrite, which `HalveSpaces` models.
- `find_course_discussions` and `find_course_announcements`: each is a plain map of `get_discussion_view` over a listing.
- Date formatting (`dateutil`, `strftime`): handles carry the formatted text.
- The HTTP request of `test_course`: only its status code or its exception is modelled.
- `str()` of attribute values: handles carry the text. `None` is distinguished only for `attempt`, where the source tests it.
- `int(counter / 50)` is floating-point division in the source. It is modelled as integer division on the non-negative counter; the two agree for counts below 2^53.
- Canvas.ModuleOf: an item listing that fails part way through is modelled as the shorter listing it yielded, whose records are kept, as in the source.
- Canvas.AssignmentsOf: takes the listing of assignments as given. `list(course.get_assignments())` raising (get_canvas.py:147), which makes `find_course_assignments` raise, is not modelled.
- Files.FileDest: POSIX `pathlib` only. A name starting with exactly two separators, which `pathlib` keeps as a root of its own, is modelled as `/`. `..` stays a component because the disk model does not resolve paths.
- Canvas.DiscussionOf: a listing that fails part way through is modelled as the shorter listing it yielded. The printed messages are not modelled.
- SingleFile.ShellWords: models only blanks and double quotes. `$`, backquote and backslash inside quotes are excluded by the hypothesis of `ArchiverCommandWords`, not interpreted.
- Helpers.MakeValidFolderPath: `os.sep` is a parameter restricted to `/` or `\`.

## Where the code and its description differ

The model follows the code in each case.

- Sanitising is described as stable under repetition, but `make_valid_filename` strips whitespace before trailing periods. `"a ."` becomes `"a "` and then `"a"`.
- Titles are described as having double spaces collapsed. The code makes one non-overlapping pass, so three spaces become two. For the course code the pass runs after sanitising, not before.
- A failing topic-entry listing is described as logged and skipped. `get_topic_entries()` is called outside the `try`, so the mapping raises (`DiscussionFails`).
- An assignment with no submission is described as a hard failure. The code always builds a one-element list, so that check never fires. What raises is `get_submission` itself, or an attachment missing an attribute (`AssignmentsFail`).
