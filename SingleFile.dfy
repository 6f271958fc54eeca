/** The command line handed to the page archiver (module/singlefile.py): every
    value is wrapped in double quotes and the arguments are joined into one
    shell command. Running the command is not part of this model. */
module SingleFile {
  import opened PyStr
  import opened Wrappers

  /** The archiver's command-line entry point and the browser it drives. */
  const BinaryPath: string := "./node_modules/single-file/cli/single-file"
  const ChromePath: string := "/usr/bin/chromium-browser"

  /** Starts and ends with a double quote, and the text between neither starts
      nor ends with one. */
  predicate IsQuoted(r: string)
  {
    && |r| >= 2 && r[0] == '"' && r[|r| - 1] == '"'
    && var inner := r[1..|r| - 1];
      inner == [] || (inner[0] != '"' && inner[|inner| - 1] != '"')
  }

  /** `add_quotes`: strips double quotes from both ends of `s`, then wraps it in
      one pair. The result starts and ends with a quote, and the text between
      neither starts nor ends with one. */
  function AddQuotes(s: string): (r: string)
    ensures IsQuoted(r)
  {
    var inner := Strip(s, IsQuote);
    StripEnds(s, IsQuote, IsQuote);
    assert ("\"" + inner + "\"")[1..|inner| + 1] == inner;
    "\"" + inner + "\""
  }

  /** Stripping quotes from a quoted text whose own ends are not quotes gives
      back that text. */
  lemma {:induction false} StripQuoted(inner: string)
    requires inner == [] || (inner[0] != '"' && inner[|inner| - 1] != '"')
    ensures Strip("\"" + inner + "\"", IsQuote) == inner
  {
    var w := "\"" + inner + "\"";
    var tail := inner + "\"";
    assert w[0] == '"' && w[1..] == tail;
    assert LStrip(w, IsQuote) == LStrip(tail, IsQuote);
    if inner == [] {
      assert tail[0] == '"' && tail[1..] == [];
      assert LStrip(tail, IsQuote) == [];
    } else {
      assert tail[0] == inner[0];
      assert LStrip(tail, IsQuote) == tail;
      assert tail[|tail| - 1] == '"' && tail[..|tail| - 1] == inner;
      assert RStrip(tail, IsQuote) == RStrip(inner, IsQuote);
      StripUntouched(inner, IsQuote);
    }
  }

  /** Quoting twice is quoting once. */
  lemma {:induction false} AddQuotesIdempotent(s: string)
    ensures AddQuotes(AddQuotes(s)) == AddQuotes(s)
  {
    var inner := Strip(s, IsQuote);
    StripEnds(s, IsQuote, IsQuote);
    StripQuoted(inner);
  }

  /** `add_quotes` wraps `s` as it is exactly when `s` neither starts nor ends
      with a double quote. */
  lemma {:induction false} AddQuotesWraps(s: string)
    ensures AddQuotes(s) == "\"" + s + "\"" <==> (s == [] || (s[0] != '"' && s[|s| - 1] != '"'))
  {
    StripEnds(s, IsQuote, IsQuote);
    var inner := Strip(s, IsQuote);
    if AddQuotes(s) == "\"" + s + "\"" {
      assert |inner| == |s|;
      assert inner == AddQuotes(s)[1..|s| + 1] == s;
    }
    if s == [] || (s[0] != '"' && s[|s| - 1] != '"') {
      StripUntouched(s, IsQuote);
    }
  }

  /** One argument: a fixed flag (possibly empty) followed by a value that
      goes through `add_quotes`. */
  datatype Arg = Arg(flag: string, value: string)

  /** The text of one argument on the command line. */
  function Render(a: Arg): string
  {
    a.flag + AddQuotes(a.value)
  }

  function RenderAll(args: seq<Arg>): (r: seq<string>)
    ensures |r| == |args|
  {
    if args == [] then [] else [Render(args[0])] + RenderAll(args[1..])
  }

  /** Each rendered argument is the rendering of its argument, in order. */
  lemma {:induction false} RenderAllAt(args: seq<Arg>, i: nat)
    requires i < |args|
    ensures RenderAll(args)[i] == Render(args[i])
  {
    if i > 0 {
      RenderAllAt(args[1..], i - 1);
    }
  }

  /** The arguments `download_page` builds, in order: the archiver, the browser
      (with its quotes stripped first), the cookie file, the output directory,
      the page URL, and the file-name template last when it is not empty. */
  function ArgList(url: string, cookiesPath: string, outputPath: string, template: string): seq<Arg>
  {
    [ Arg("", BinaryPath),
      Arg("--browser-executable-path=", Strip(ChromePath, IsQuote)),
      Arg("--browser-cookies-file=", cookiesPath),
      Arg("--output-directory=", outputPath),
      Arg("", url) ]
    + (if template != "" then [Arg("--filename-template=", template)] else [])
  }

  /** The argument strings, one per entry of `ArgList`. */
  function ArchiverArgs(url: string, cookiesPath: string, outputPath: string, template: string): (r: seq<string>)
    ensures |r| == if template == "" then 5 else 6
  {
    RenderAll(ArgList(url, cookiesPath, outputPath, template))
  }

  /** Rendering distributes over concatenation. */
  lemma {:induction false} RenderAllAppend(xs: seq<Arg>, ys: seq<Arg>)
    ensures RenderAll(xs + ys) == RenderAll(xs) + RenderAll(ys)
  {
    if xs == [] {
      assert xs + ys == ys;
    } else {
      assert (xs + ys)[0] == xs[0] && (xs + ys)[1..] == xs[1..] + ys;
      RenderAllAppend(xs[1..], ys);
    }
  }

  /** The template only ever adds a sixth argument: the first five are those
      built without it, and the sixth is the quoted template. */
  lemma {:induction false} ArchiverArgsTemplate(url: string, cookiesPath: string, outputPath: string, template: string)
    requires template != ""
    ensures var r := ArchiverArgs(url, cookiesPath, outputPath, template);
      && r[..5] == ArchiverArgs(url, cookiesPath, outputPath, "")
      && r[5] == "--filename-template=" + AddQuotes(template)
  {
    var base := ArgList(url, cookiesPath, outputPath, "");
    var extra := [Arg("--filename-template=", template)];
    assert ArgList(url, cookiesPath, outputPath, template) == base + extra;
    RenderAllAppend(base, extra);
    assert RenderAll(extra) == [Render(extra[0])] + RenderAll([]);
  }

  /** Every argument carries its value through `add_quotes`: it is its flag
      followed by a quoted text. */
  lemma ArchiverArgsQuoted(url: string, cookiesPath: string, outputPath: string, template: string, i: nat)
    requires i < |ArchiverArgs(url, cookiesPath, outputPath, template)|
    ensures var args := ArgList(url, cookiesPath, outputPath, template);
      var arg := ArchiverArgs(url, cookiesPath, outputPath, template)[i];
      && arg == args[i].flag + AddQuotes(args[i].value)
      && IsQuoted(arg[|args[i].flag|..])
  {
    var args := ArgList(url, cookiesPath, outputPath, template);
    RenderAllAt(args, i);
    var arg := Render(args[i]);
    assert arg[|args[i].flag|..] == AddQuotes(args[i].value);
  }

  /** The shell command: `node`, a space, and the arguments joined by single
      spaces. */
  function ArchiverCommand(url: string, cookiesPath: string, outputPath: string, template: string): (r: string)
    ensures |r| >= 5 && r[..5] == "node "
  {
    "node " + Join(ArchiverArgs(url, cookiesPath, outputPath, template), " ")
  }

  // ---- How a POSIX shell splits the command into words ----

  function Text(word: Option<string>): string
  {
    word.GetOr("")
  }

  function Flush(word: Option<string>): seq<string>
  {
    if word.Some? then [word.value] else []
  }

  /** Word splitting as `sh` does it for blanks and double quotes: a space
      outside quotes ends the current word, a double quote toggles quoting and
      is removed, and an opened pair of quotes makes a word even when empty.
      `word` is the word being read, if any. */
  function Scan(s: string, quoted: bool, word: Option<string>): seq<string>
    decreases |s|
  {
    if s == [] then Flush(word)
    else if s[0] == '"' then Scan(s[1..], !quoted, Some(Text(word)))
    else if s[0] == ' ' && !quoted then Flush(word) + Scan(s[1..], false, None)
    else Scan(s[1..], quoted, Some(Text(word) + [s[0]]))
  }

  /** The words `sh` passes to the program for the command line `s`. */
  function ShellWords(s: string): seq<string>
  {
    Scan(s, false, None)
  }

  /** Characters that stand for themselves outside quotes. */
  predicate IsBareChar(c: char)
  {
    'a' <= c <= 'z' || 'A' <= c <= 'Z' || '0' <= c <= '9' || c == '-' || c == '=' || c == '.' || c == '/' || c == '_'
  }

  /** Characters that stand for themselves inside double quotes: everything but
      the quote itself and `$`, backquote and backslash, which `sh` still
      interprets there (`Scan` does not model their meaning). */
  predicate IsQuotedChar(c: char)
  {
    c != '"' && c != '$' && c != '`' && c != '\\'
  }

  /** Inside quotes every character up to the closing quote joins the word. */
  lemma {:induction false} ScanQuoted(x: string, rest: string, p: string)
    requires All(x, IsQuotedChar)
    ensures Scan(x + "\"" + rest, true, Some(p)) == Scan(rest, false, Some(p + x))
  {
    var s := x + "\"" + rest;
    if x == [] {
      assert s[0] == '"' && s[1..] == rest;
      assert p + x == p;
    } else {
      assert s[0] == x[0] && IsQuotedChar(x[0]);
      assert s[1..] == x[1..] + "\"" + rest;
      assert Scan(s, true, Some(p)) == Scan(s[1..], true, Some(p + [x[0]]));
      ScanQuoted(x[1..], rest, p + [x[0]]);
      assert p + [x[0]] + x[1..] == p + x;
    }
  }

  /** Outside quotes a run of bare characters joins the word. */
  lemma {:induction false} ScanBare(f: string, rest: string, word: Option<string>)
    requires f != [] && All(f, IsBareChar)
    ensures Scan(f + rest, false, word) == Scan(rest, false, Some(Text(word) + f))
  {
    var s := f + rest;
    assert s[0] == f[0] && IsBareChar(f[0]);
    assert s[1..] == f[1..] + rest;
    assert Scan(s, false, word) == Scan(s[1..], false, Some(Text(word) + [f[0]]));
    if |f| > 1 {
      ScanBare(f[1..], rest, Some(Text(word) + [f[0]]));
      assert Text(word) + [f[0]] + f[1..] == Text(word) + f;
    } else {
      assert f[1..] + rest == rest;
      assert Text(word) + [f[0]] == Text(word) + f;
    }
  }

  /** A space outside quotes ends the word. */
  lemma {:induction false} ScanSpace(tail: string, w: string)
    ensures Scan(" " + tail, false, Some(w)) == [w] + Scan(tail, false, None)
  {
    assert (" " + tail)[1..] == tail;
  }

  /** A well-formed argument: a bare flag and a value with no character the
      shell would interpret inside quotes. */
  predicate WellFormed(a: Arg)
  {
    All(a.flag, IsBareChar) && All(a.value, IsQuotedChar)
  }

  /** A well-formed argument's text: `add_quotes` has no quote to strip. */
  function Plain(a: Arg): string
  {
    a.flag + "\"" + a.value + "\""
  }

  lemma {:induction false} RenderPlain(a: Arg)
    requires WellFormed(a)
    ensures Render(a) == Plain(a)
  {
    assert a.value == [] || (IsQuotedChar(a.value[0]) && IsQuotedChar(a.value[|a.value| - 1]));
    StripUntouched(a.value, IsQuote);
  }

  function PlainAll(args: seq<Arg>): (r: seq<string>)
    ensures |r| == |args|
  {
    if args == [] then [] else [Plain(args[0])] + PlainAll(args[1..])
  }

  lemma {:induction false} RenderAllPlain(args: seq<Arg>)
    requires forall i :: 0 <= i < |args| ==> WellFormed(args[i])
    ensures RenderAll(args) == PlainAll(args)
  {
    if args != [] {
      RenderPlain(args[0]);
      RenderAllPlain(args[1..]);
    }
  }

  /** What the program receives for an argument: the flag and the value,
      without the quotes. */
  function Word(a: Arg): string
  {
    a.flag + a.value
  }

  function Words(args: seq<Arg>): (r: seq<string>)
    ensures |r| == |args|
  {
    if args == [] then [] else [Word(args[0])] + Words(args[1..])
  }

  lemma {:induction false} WordsAt(args: seq<Arg>, i: nat)
    requires i < |args|
    ensures Words(args)[i] == Word(args[i])
  {
    if i > 0 {
      WordsAt(args[1..], i - 1);
    }
  }

  /** A written-out argument is read as one word: its flag and its value. */
  lemma {:induction false} ScanArg(a: Arg, rest: string)
    requires WellFormed(a)
    ensures Scan(Plain(a) + rest, false, None) == Scan(rest, false, Some(Word(a)))
  {
    var quoted := "\"" + a.value + "\"" + rest;
    assert quoted[0] == '"' && quoted[1..] == a.value + "\"" + rest;
    if a.flag == [] {
      assert Plain(a) + rest == quoted;
      ScanQuoted(a.value, rest, []);
    } else {
      assert Plain(a) + rest == a.flag + quoted;
      ScanBare(a.flag, quoted, None);
      assert Text(None) + a.flag == a.flag;
      ScanQuoted(a.value, rest, a.flag);
    }
  }

  lemma {:induction false} JoinPlain(args: seq<Arg>)
    requires |args| >= 2
    ensures Join(PlainAll(args), " ") == Plain(args[0]) + (" " + Join(PlainAll(args[1..]), " "))
  {
    var xs := PlainAll(args);
    assert xs[0] == Plain(args[0]) && xs[1..] == PlainAll(args[1..]);
  }

  /** Arguments joined by single spaces are read back one word each. */
  lemma {:induction false} ScanJoin(args: seq<Arg>)
    requires args != []
    requires forall i :: 0 <= i < |args| ==> WellFormed(args[i])
    ensures Scan(Join(PlainAll(args), " "), false, None) == Words(args)
  {
    if |args| == 1 {
      ScanArg(args[0], []);
      assert Plain(args[0]) + [] == Plain(args[0]);
    } else {
      var tail := Join(PlainAll(args[1..]), " ");
      JoinPlain(args);
      ScanArg(args[0], " " + tail);
      ScanSpace(tail, Word(args[0]));
      ScanJoin(args[1..]);
    }
  }

  lemma BinaryPathQuotable()
    ensures All(BinaryPath, IsQuotedChar)
  {
    forall i | 0 <= i < |BinaryPath| ensures IsQuotedChar(BinaryPath[i]) {
      assert BinaryPath[i] in "./node_modulesiglfc-";
    }
  }

  lemma ChromePathQuotable()
    ensures All(ChromePath, IsQuotedChar)
  {
    forall i | 0 <= i < |ChromePath| ensures IsQuotedChar(ChromePath[i]) {
      assert ChromePath[i] in "/usrbinchomwe-";
    }
  }

  /** The fixed parts of the command need no quoting help. */
  lemma FixedArgsWellFormed()
    ensures WellFormed(Arg("", BinaryPath))
    ensures WellFormed(Arg("--browser-executable-path=", ChromePath))
  {
    BinaryPathQuotable();
    ChromePathQuotable();
    assert All("--browser-executable-path=", IsBareChar);
  }

  lemma FlagsBare()
    ensures All("--browser-cookies-file=", IsBareChar)
    ensures All("--output-directory=", IsBareChar)
    ensures All("--filename-template=", IsBareChar)
  {
  }

  lemma ChromePathUnquoted()
    ensures Strip(ChromePath, IsQuote) == ChromePath
  {
    StripUntouched(ChromePath, IsQuote);
  }

  /** Every argument is well formed when the caller's values are. */
  lemma ArgListWellFormed(url: string, cookiesPath: string, outputPath: string, template: string)
    requires All(url, IsQuotedChar) && All(cookiesPath, IsQuotedChar)
    requires All(outputPath, IsQuotedChar) && All(template, IsQuotedChar)
    ensures var args := ArgList(url, cookiesPath, outputPath, template);
      forall i :: 0 <= i < |args| ==> WellFormed(args[i])
  {
    ChromePathUnquoted();
    FixedArgsWellFormed();
    FlagsBare();
  }

  /** The words the archiver is meant to receive: its path, the browser, the
      cookie file, the output folder and the URL, then the template when one is
      given, all without quotes. */
  function IntendedWords(url: string, cookiesPath: string, outputPath: string, template: string): (r: seq<string>)
    ensures |r| == if template != "" then 6 else 5
  {
    [ BinaryPath,
      "--browser-executable-path=" + ChromePath,
      "--browser-cookies-file=" + cookiesPath,
      "--output-directory=" + outputPath,
      url ]
    + (if template != "" then ["--filename-template=" + template] else [])
  }

  /** The words the arguments stand for. */
  lemma ArgListWords(url: string, cookiesPath: string, outputPath: string, template: string)
    ensures Words(ArgList(url, cookiesPath, outputPath, template)) == IntendedWords(url, cookiesPath, outputPath, template)
  {
    ChromePathUnquoted();
    var args := ArgList(url, cookiesPath, outputPath, template);
    var expected := IntendedWords(url, cookiesPath, outputPath, template);
    forall i | 0 <= i < |args| ensures Words(args)[i] == expected[i] {
      WordsAt(args, i);
    }
  }

  /** The shell reads `node` and then one word per argument. */
  lemma CommandWordsOfArgs(url: string, cookiesPath: string, outputPath: string, template: string)
    requires All(url, IsQuotedChar) && All(cookiesPath, IsQuotedChar)
    requires All(outputPath, IsQuotedChar) && All(template, IsQuotedChar)
    ensures ShellWords(ArchiverCommand(url, cookiesPath, outputPath, template))
      == ["node"] + Words(ArgList(url, cookiesPath, outputPath, template))
  {
    var args := ArgList(url, cookiesPath, outputPath, template);
    ArgListWellFormed(url, cookiesPath, outputPath, template);
    RenderAllPlain(args);
    var tail := Join(PlainAll(args), " ");
    ScanJoin(args);
    assert ArchiverCommand(url, cookiesPath, outputPath, template) == "node" + (" " + tail);
    ScanBare("node", " " + tail, None);
    assert Text(None) + "node" == "node";
    ScanSpace(tail, "node");
  }

  /** The quoting does its job: as long as no value holds a character the shell
      interprets inside double quotes, `sh` hands the archiver exactly the
      intended arguments, one per value, spaces in the values included. */
  lemma ArchiverCommandWords(url: string, cookiesPath: string, outputPath: string, template: string)
    requires All(url, IsQuotedChar) && All(cookiesPath, IsQuotedChar)
    requires All(outputPath, IsQuotedChar) && All(template, IsQuotedChar)
    ensures ShellWords(ArchiverCommand(url, cookiesPath, outputPath, template))
      == ["node"] + IntendedWords(url, cookiesPath, outputPath, template)
  {
    CommandWordsOfArgs(url, cookiesPath, outputPath, template);
    ArgListWords(url, cookiesPath, outputPath, template);
  }
}
