/** The part of the file system the exporter looks at and changes: which paths
    exist, and the downloads it asks for. Paths are sequences of components,
    relative to the working folder unless the first is `Root`; requests are
    recorded, not performed. */
module Files {

  type Path = seq<string>

  /** `os.path.join(dir, name)`. Joining an empty name only adds a trailing
      separator, which names the same directory. */
  function Child(dir: Path, name: string): Path
  {
    if name == [] then dir else dir + [name]
  }

  /** A child is one component deeper, below its parent. */
  lemma ChildShape(dir: Path, name: string)
    ensures name == [] ==> Child(dir, name) == dir
    ensures name != [] ==>
      |Child(dir, name)| == |dir| + 1 && Child(dir, name)[..|dir|] == dir && Child(dir, name)[|dir|] == name
  {
    assert name != [] ==> (dir + [name])[..|dir|] == dir;
  }

  // ---- Joining an unsanitised name (`pathlib.Path(dir, name)`) ----

  /** `name.split('/')`: the pieces between separators, at least one. */
  function Segments(name: string): (r: seq<string>)
    ensures |r| >= 1
    ensures forall k :: 0 <= k < |r| ==> '/' !in r[k]
  {
    if name == [] then [""]
    else
      var rest := Segments(name[1..]);
      if name[0] == '/' then [""] + rest
      else
        assert '/' !in [name[0]] + rest[0];
        [[name[0]] + rest[0]] + rest[1..]
  }

  /** `'/'.join(parts)`. */
  function JoinSegments(parts: seq<string>): string
    requires |parts| >= 1
  {
    if |parts| == 1 then parts[0] else parts[0] + "/" + JoinSegments(parts[1..])
  }

  /** Splitting loses nothing: joining the pieces gives the name back. */
  lemma {:induction false} SegmentsRoundTrip(name: string)
    ensures JoinSegments(Segments(name)) == name
  {
    if name != [] {
      var rest := Segments(name[1..]);
      SegmentsRoundTrip(name[1..]);
      if name[0] == '/' {
        assert Segments(name) == [""] + rest;
        assert (["" ] + rest)[1..] == rest;
        assert name == "/" + name[1..];
      } else {
        var parts := [[name[0]] + rest[0]] + rest[1..];
        assert Segments(name) == parts;
        assert parts[1..] == rest[1..];
        assert name == [name[0]] + name[1..];
      }
    }
  }

  /** A name without separators is a single piece. */
  lemma {:induction false} SegmentsSingle(name: string)
    requires '/' !in name
    ensures Segments(name) == [name]
  {
    if name != [] {
      SegmentsSingle(name[1..]);
      assert [name[0]] + name[1..] == name;
    }
  }

  /** The pieces pathlib keeps: empty pieces (from `//` or an end separator)
      and `.` pieces are dropped; `..` is kept, as pathlib does not resolve
      it. */
  function Significant(parts: seq<string>): (r: seq<string>)
    ensures |r| <= |parts|
    ensures forall k :: 0 <= k < |r| ==> r[k] in parts && r[k] != "" && r[k] != "."
  {
    if parts == [] then []
    else
      var rest := Significant(parts[1..]);
      if parts[0] == "" || parts[0] == "." then rest else [parts[0]] + rest
  }

  /** The first component of an absolute path: the file-system root, outside
      the tree the exporter writes to. */
  const Root := "/"

  /** `pathlib.Path(dir, name)` for a name taken as it comes: every separator in
      it opens a further folder, and a name starting with a separator is an
      absolute path that replaces `dir`. */
  function FileDest(dir: Path, name: string): Path
  {
    var parts := Significant(Segments(name));
    if name != [] && name[0] == '/' then [Root] + parts else dir + parts
  }

  /** A plain name (no separator, not empty, not `.`) is one component below
      `dir`, as `os.path.join` gives it. */
  lemma FileDestPlain(dir: Path, name: string)
    requires '/' !in name && name != "" && name != "."
    ensures FileDest(dir, name) == Child(dir, name)
  {
    SegmentsSingle(name);
    assert [name][1..] == [];
  }

  /** A relative name stays lexically below `dir`: `dir` followed by the
      name's non-empty, separator-free pieces. */
  lemma FileDestRelative(dir: Path, name: string)
    requires name == [] || name[0] != '/'
    ensures |FileDest(dir, name)| >= |dir| && FileDest(dir, name)[..|dir|] == dir
    ensures forall k :: |dir| <= k < |FileDest(dir, name)| ==>
      var c := FileDest(dir, name)[k]; c != "" && c != "." && '/' !in c
  {
    var parts := Significant(Segments(name));
    assert FileDest(dir, name) == dir + parts;
    assert (dir + parts)[..|dir|] == dir;
    forall k | |dir| <= k < |dir + parts|
      ensures var c := (dir + parts)[k]; c != "" && c != "." && '/' !in c
    {
      assert (dir + parts)[k] == parts[k - |dir|];
    }
  }

  /** A name with a separator lands in a sub-folder of `dir`. */
  lemma FileDestNested(dir: Path)
    ensures FileDest(dir, "a/b") == dir + ["a", "b"]
  {
    assert Segments("") == [""];
    SegmentsSingle("b");
    assert Segments("/b") == ["", "b"] by { assert "/b"[1..] == "b"; }
    assert Segments("a/b") == ["a", "b"] by {
      assert "a/b"[1..] == "/b";
      assert ['a'] + "" == "a" && ["", "b"][1..] == ["b"];
    }
    assert Significant(["b"]) == ["b"] by { assert ["b"][1..] == []; }
    assert Significant(["a", "b"]) == ["a", "b"] by { assert ["a", "b"][1..] == ["b"]; }
  }

  /** `..` is kept as a component: lexically below `dir`, the path the
      operating system resolves is outside it. */
  lemma FileDestParent(dir: Path)
    ensures FileDest(dir, "../x") == dir + ["..", "x"]
  {
    assert Segments("") == [""];
    SegmentsSingle("x");
    assert Segments("/x") == ["", "x"] by { assert "/x"[1..] == "x"; }
    assert Segments("./x") == [".", "x"] by {
      assert "./x"[1..] == "/x";
      assert ['.'] + "" == "." && ["", "x"][1..] == ["x"];
    }
    assert Segments("../x") == ["..", "x"] by {
      assert "../x"[1..] == "./x";
      assert ['.'] + "." == ".." && [".", "x"][1..] == ["x"];
    }
    assert Significant(["x"]) == ["x"] by { assert ["x"][1..] == []; }
    assert Significant(["..", "x"]) == ["..", "x"] by { assert ["..", "x"][1..] == ["x"]; }
  }

  /** An absolute name ignores `dir` altogether. */
  lemma FileDestAbsolute(dir: Path)
    ensures FileDest(dir, "/x") == [Root, "x"]
  {
    assert Segments("") == [""];
    SegmentsSingle("x");
    assert Segments("/x") == ["", "x"] by { assert "/x"[1..] == "x"; }
    assert Significant(["x"]) == ["x"] by { assert ["x"][1..] == []; }
    assert Significant(["", "x"]) == ["x"] by { assert ["", "x"][1..] == ["x"]; }
  }

  /** A request the exporter makes: a page handed to the archiver, to be saved
      as `filename` in `dir`, or a file downloaded to `dest`. */
  datatype Event =
    | Archive(url: string, dir: Path, filename: string)
    | Download(url: string, dest: Path)

  datatype DiskState = DiskState(existing: set<Path>, log: seq<Event>)

  /** The directories `os.makedirs(dir)` leaves in place: `dir` and each of its
      ancestors below the root. */
  function Ancestry(dir: Path): (r: set<Path>)
    ensures forall k :: 1 <= k <= |dir| ==> dir[..k] in r
    ensures forall p :: p in r ==> 1 <= |p| <= |dir| && p == dir[..|p|]
  {
    set k | 1 <= k <= |dir| :: dir[..k]
  }

  /** `if not os.path.exists(dir): os.makedirs(dir)`. */
  function EnsureDir(st: DiskState, dir: Path): (r: DiskState)
    ensures r.log == st.log
    ensures r.existing == if dir in st.existing then st.existing else st.existing + Ancestry(dir)
  {
    if dir in st.existing then st else st.(existing := st.existing + Ancestry(dir))
  }

  /** Afterwards the directory exists (unless it is the root itself), and
      nothing that existed is gone. */
  lemma EnsureDirExists(st: DiskState, dir: Path)
    ensures st.existing <= EnsureDir(st, dir).existing
    ensures dir != [] ==> dir in EnsureDir(st, dir).existing
  {
    if dir != [] && dir !in st.existing {
      assert dir[..|dir|] == dir;
    }
  }

  /** Creating a directory creates nothing below it. */
  lemma EnsureDirShallow(st: DiskState, dir: Path, p: Path)
    requires |p| > |dir|
    ensures p in EnsureDir(st, dir).existing <==> p in st.existing
  {
  }

  /** The archiver is asked for a page. Whether it succeeds is not known, so
      the file set does not change. */
  function Archived(st: DiskState, url: string, dir: Path, filename: string): (r: DiskState)
    ensures r.existing == st.existing
    ensures r.log == st.log + [Archive(url, dir, filename)]
  {
    st.(log := st.log + [Archive(url, dir, filename)])
  }

  /** A file is downloaded to `dest`, which then exists. */
  function Downloaded(st: DiskState, url: string, dest: Path): (r: DiskState)
    ensures r.existing == st.existing + {dest}
    ensures r.log == st.log + [Download(url, dest)]
  {
    DiskState(st.existing + {dest}, st.log + [Download(url, dest)])
  }

  /** `st` can become `st2`: files are only added and requests only
      appended. */
  predicate Grows(st: DiskState, st2: DiskState)
  {
    st.existing <= st2.existing && |st.log| <= |st2.log| && st2.log[..|st.log|] == st.log
  }

  lemma GrowsTransitive(a: DiskState, b: DiskState, c: DiskState)
    requires Grows(a, b) && Grows(b, c)
    ensures Grows(a, c)
  {
    assert c.log[..|b.log|][..|a.log|] == c.log[..|a.log|];
  }

  /** Every primitive change grows the state. */
  lemma PrimitivesGrow(st: DiskState, dir: Path, url: string, filename: string, dest: Path)
    ensures Grows(st, EnsureDir(st, dir))
    ensures Grows(st, Archived(st, url, dir, filename))
    ensures Grows(st, Downloaded(st, url, dest))
  {
    assert Archived(st, url, dir, filename).log[..|st.log|] == st.log;
    assert Downloaded(st, url, dest).log[..|st.log|] == st.log;
  }

  /** The exporter's view of the disk, changed in place. */
  class Disk {
    var existing: set<Path>
    var log: seq<Event>

    function State(): DiskState
      reads this
    {
      DiskState(existing, log)
    }

    constructor (initial: set<Path>)
      ensures State() == DiskState(initial, [])
    {
      existing := initial;
      log := [];
    }

    /** `os.path.exists(p)`. */
    method Exists(p: Path) returns (b: bool)
      ensures b <==> p in existing
    {
      b := p in existing;
    }

    /** `os.makedirs(dir)`. */
    method MakeDirs(dir: Path)
      modifies this
      ensures existing == old(existing) + Ancestry(dir)
      ensures log == old(log)
    {
      existing := existing + Ancestry(dir);
    }

    /** `download_page(url, cookies_path, dir, filename)`: a request to the
        archiver. */
    method RequestArchive(url: string, dir: Path, filename: string)
      modifies this
      ensures State() == Archived(old(State()), url, dir, filename)
    {
      log := log + [Archive(url, dir, filename)];
    }

    /** A file download to `dest`. */
    method Download(url: string, dest: Path)
      modifies this
      ensures State() == Downloaded(old(State()), url, dest)
    {
      existing := existing + {dest};
      log := log + [Event.Download(url, dest)];
    }

    /** `if not os.path.exists(dir): os.makedirs(dir)`. */
    method EnsureDirectory(dir: Path)
      modifies this
      ensures State() == EnsureDir(old(State()), dir)
    {
      var present := Exists(dir);
      if !present {
        MakeDirs(dir);
      }
    }
  }
}
