/** The archive walker of `download_repo_files`: every entry of the archive,
    in archive order, goes through the extension, path and content filters;
    survivors are optionally normalised and written to the output file as a
    header line, the content and a blank separator line. */
module Walker {
  import opened PyStr
  import opened PathFilter
  import opened ContentClassifier

  /** One archive member: its path inside the archive and its text, already
      decoded from UTF-8. */
  datatype Entry = Entry(path: string, content: string)

  /** The options of one run: the `--lang` list, `--keep-comments` and `--keep-readme`. */
  datatype Options = Options(languages: seq<string>, keepComments: bool, keepReadme: bool)

  // ---------------------------------------------------------------------
  // Extension derivation

  /** `file_path.split('/')[-1]` */
  function FileName(path: string): string
  {
    Last(Split(path, '/'))
  }

  /** `file_name.split('.')[-1] if '.' in file_name else file_name`: the text
      after the last dot of the file name, or the whole name when it has no
      dot (so `Dockerfile` is its own extension). */
  function Extension(path: string): string
  {
    var name := FileName(path);
    if '.' in name then Last(Split(name, '.')) else name
  }

  /** The file name is the final `/`-separated segment of the path. */
  lemma FileNameIsFinalSegment(path: string)
    ensures var name := FileName(path);
      '/' !in name && EndsWith(path, name) &&
      (|name| < |path| ==> path[|path| - |name| - 1] == '/')
  {
    LastPiece(path, '/');
  }

  /** The extension never contains `/`; when the file name contains a dot it
      is the suffix after the last one, otherwise the whole file name. */
  lemma ExtensionAfterLastDot(path: string)
    ensures '/' !in Extension(path)
    ensures var name, ext := FileName(path), Extension(path);
      if '.' in name then
        '.' !in ext && EndsWith(name, ext) && |ext| < |name| && name[|name| - |ext| - 1] == '.'
      else ext == name
  {
    var name := FileName(path);
    FileNameIsFinalSegment(path);
    if '.' in name {
      LastPiece(name, '.');
      SuffixLacks(name, Last(Split(name, '.')), '/');
    }
  }

  /** A suffix of a string without `c` has no `c` either. */
  lemma SuffixLacks(s: string, suffix: string, c: char)
    requires EndsWith(s, suffix) && c !in s
    ensures c !in suffix
  {
    forall k | 0 <= k < |suffix| ensures suffix[k] != c {
      assert suffix[k] == s[|s| - |suffix| + k];
    }
  }

  /** The file name is whatever follows the last `/`. */
  lemma FileNameAfterSlash(dir: string, name: string)
    requires '/' !in name
    ensures FileName(dir + "/" + name) == name
  {
    assert dir + "/" + name == dir + ['/'] + name;
    SplitConcat(dir, name, '/');
    SplitNoSep(name, '/');
  }

  /** A file name `base.ext` with a single dot has the extension `ext`. */
  lemma ExtensionOfDottedName(dir: string, base: string, ext: string)
    requires '/' !in base && '/' !in ext && '.' !in base && '.' !in ext
    ensures Extension(dir + "/" + (base + "." + ext)) == ext
  {
    var name := base + "." + ext;
    assert name == base + ['.'] + ext;
    assert '/' !in name && '.' in name;
    FileNameAfterSlash(dir, name);
    SplitConcat(base, ext, '.');
    SplitNoSep(base, '.');
    SplitNoSep(ext, '.');
  }

  /** A file name without a dot is its own extension. */
  lemma ExtensionOfPlainName(dir: string, name: string)
    requires '/' !in name && '.' !in name
    ensures Extension(dir + "/" + name) == name
  {
    FileNameAfterSlash(dir, name);
  }

  /** `repo/Dockerfile` has the extension `Dockerfile`. */
  lemma DockerfileExtension(p: string)
    requires p == "repo/Dockerfile"
    ensures Extension(p) == "Dockerfile"
  {
    ExtensionOfPlainName("repo", "Dockerfile");
    assert "repo" + "/" + "Dockerfile" == p;
  }

  /** `repo/a.py` has extension `py`. */
  lemma SourceFileExtension(p: string)
    requires p == "repo/a.py"
    ensures Extension(p) == "py"
  {
    ExtensionOfDottedName("repo", "a", "py");
    assert "repo" + "/" + ("a" + "." + "py") == p;
  }

  // ---------------------------------------------------------------------
  // The normaliser

  /** `remove_comments_and_docstrings(source, lang)`. The `astStrip`
      parameter stands for its parse / walk / unparse body, including the
      fall-back to the unchanged source on a syntax error; it relies on
      Python's own parser and is not modelled further. */
  function RemoveCommentsAndDocstrings(source: string, lang: string, astStrip: string -> string): string
  {
    if lang == "py" then astStrip(source) else source
  }

  /** The normaliser returns its input unchanged for every language but `py`. */
  lemma NormaliserKeepsOtherLanguages(source: string, lang: string, astStrip: string -> string)
    requires lang != "py"
    ensures RemoveCommentsAndDocstrings(source, lang, astStrip) == source
  {
  }

  // ---------------------------------------------------------------------
  // What one entry contributes

  /** The content checks, applied only to `py` and `sh` files. */
  predicate ContentRejected(ext: string, content: string)
  {
    ext in ["py", "sh"] && (IsTestFile(content, ext) || !HasSufficientContent(content, DefaultMinLineCount))
  }

  /** An entry survives every `continue` of the loop. */
  predicate Kept(e: Entry, opts: Options)
  {
    var ext := Extension(e.path);
    !EndsWith(e.path, "/") &&
    ext in opts.languages &&
    IsLikelyUsefulFile(e.path, ext, opts.keepReadme) &&
    !ContentRejected(ext, e.content)
  }

  /** The text written for a kept entry: normalised only for `py` without `--keep-comments`. */
  function Body(e: Entry, opts: Options, astStrip: string -> string): string
  {
    var ext := Extension(e.path);
    if ext == "py" && !opts.keepComments then RemoveCommentsAndDocstrings(e.content, ext, astStrip)
    else e.content
  }

  /** `# File: <path>\n`, then the body, then `\n\n`. */
  function Record(path: string, body: string): string
  {
    "# File: " + path + "\n" + body + "\n\n"
  }

  /** What one entry adds to the output. */
  function Contribution(e: Entry, opts: Options, astStrip: string -> string): string
  {
    if Kept(e, opts) then Record(e.path, Body(e, opts, astStrip)) else ""
  }

  /** `f(x)` for each `x` of `xs`, written one after the other. */
  function ConcatMap<T>(xs: seq<T>, f: T -> string): string
    decreases |xs|
  {
    if |xs| == 0 then "" else ConcatMap(xs[..|xs| - 1], f) + f(xs[|xs| - 1])
  }

  /** Mapping over a concatenation concatenates the results. */
  lemma {:induction false} ConcatMapAppend<T>(a: seq<T>, b: seq<T>, f: T -> string)
    ensures ConcatMap(a + b, f) == ConcatMap(a, f) + ConcatMap(b, f)
    decreases |b|
  {
    if |b| == 0 {
      assert a + b == a;
    } else {
      var b' := b[..|b| - 1];
      var ab := a + b;
      assert ab[..|ab| - 1] == a + b';
      assert ab[|ab| - 1] == b[|b| - 1];
      ConcatMapAppend(a, b', f);
    }
  }

  /** Mapping over one element gives its image. */
  lemma ConcatMapSingleton<T>(x: T, f: T -> string)
    ensures ConcatMap([x], f) == f(x)
  {
    assert [x][..0] == [];
    assert "" + f(x) == f(x);
  }

  /** The whole output: each entry's contribution, in archive order. */
  function Combined(entries: seq<Entry>, opts: Options, astStrip: string -> string): string
  {
    ConcatMap(entries, e => Contribution(e, opts, astStrip))
  }

  // ---------------------------------------------------------------------
  // The walk as a loop writing to the output file

  /** The output file opened with mode `"w"`: it starts empty and only grows. */
  class OutputFile {
    var text: string

    constructor ()
      ensures text == ""
    {
      text := "";
    }

    /** `outfile.write(s)` */
    method Write(s: string)
      modifies this
      ensures text == old(text) + s
    {
      text := text + s;
    }
  }

  /** The three writes of one entry append exactly its record. */
  lemma RecordWritten(before: string, path: string, body: string)
    ensures before + ("# File: " + path + "\n") + body + "\n\n" == before + Record(path, body)
  {
  }

  /** The loop of `download_repo_files` over an archive already read into memory. */
  method DownloadRepoFiles(archive: seq<Entry>, opts: Options, astStrip: string -> string)
    returns (outfile: OutputFile)
    ensures fresh(outfile)
    ensures outfile.text == Combined(archive, opts, astStrip)
  {
    outfile := new OutputFile();
    for i := 0 to |archive|
      invariant outfile.text == Combined(archive[..i], opts, astStrip)
    {
      CombinedStep(archive, i, opts, astStrip);
      var filePath := archive[i].path;
      if EndsWith(filePath, "/") {
        continue;
      }
      var fileExtension := Extension(filePath);
      if fileExtension !in opts.languages {
        continue;
      }
      if !IsLikelyUsefulFile(filePath, fileExtension, opts.keepReadme) {
        continue;
      }
      var fileContent := archive[i].content;
      if fileExtension in ["py", "sh"] &&
         (IsTestFile(fileContent, fileExtension) || !HasSufficientContent(fileContent, DefaultMinLineCount)) {
        continue;
      }
      if fileExtension == "py" && !opts.keepComments {
        fileContent := RemoveCommentsAndDocstrings(fileContent, fileExtension, astStrip);
      }
      assert Kept(archive[i], opts) && fileContent == Body(archive[i], opts, astStrip);
      assert Contribution(archive[i], opts, astStrip) == Record(filePath, fileContent);
      ghost var before := outfile.text;
      outfile.Write("# File: " + filePath + "\n");
      outfile.Write(fileContent);
      outfile.Write("\n\n");
      RecordWritten(before, filePath, fileContent);
    }
    assert archive[..|archive|] == archive;
  }

  // ---------------------------------------------------------------------
  // What the walk promises

  /** One more entry adds its contribution at the end. */
  lemma CombinedStep(entries: seq<Entry>, i: int, opts: Options, astStrip: string -> string)
    requires 0 <= i < |entries|
    ensures Combined(entries[..i + 1], opts, astStrip) ==
            Combined(entries[..i], opts, astStrip) + Contribution(entries[i], opts, astStrip)
  {
    assert entries[..i + 1][..i] == entries[..i];
  }

  /** The output of a concatenated archive is the concatenation of the outputs. */
  lemma CombinedConcat(a: seq<Entry>, b: seq<Entry>, opts: Options, astStrip: string -> string)
    ensures Combined(a + b, opts, astStrip) == Combined(a, opts, astStrip) + Combined(b, opts, astStrip)
  {
    ConcatMapAppend(a, b, e => Contribution(e, opts, astStrip));
  }

  /** The kept entries, in archive order. */
  function Survivors(entries: seq<Entry>, opts: Options): (kept: seq<Entry>)
    ensures |kept| <= |entries|
    ensures forall e :: e in kept ==> e in entries && Kept(e, opts)
    decreases |entries|
  {
    if |entries| == 0 then []
    else (if Kept(entries[0], opts) then [entries[0]] else []) + Survivors(entries[1..], opts)
  }

  /** Every archive entry that passes every test is kept. */
  lemma {:induction false} SurvivorsComplete(entries: seq<Entry>, opts: Options, k: int)
    requires 0 <= k < |entries| && Kept(entries[k], opts)
    ensures entries[k] in Survivors(entries, opts)
    decreases |entries|
  {
    if k > 0 {
      assert entries[1..][k - 1] == entries[k];
      SurvivorsComplete(entries[1..], opts, k - 1);
    }
  }

  /** Filtering a concatenated archive keeps the survivors of the first part
      before those of the second, so archive order is preserved. */
  lemma {:induction false} SurvivorsConcat(a: seq<Entry>, b: seq<Entry>, opts: Options)
    ensures Survivors(a + b, opts) == Survivors(a, opts) + Survivors(b, opts)
    decreases |a|
  {
    if |a| == 0 {
      assert a + b == b;
    } else {
      assert (a + b)[1..] == a[1..] + b;
      SurvivorsConcat(a[1..], b, opts);
    }
  }

  /** The records of a list of entries, one after the other. */
  function Records(kept: seq<Entry>, opts: Options, astStrip: string -> string): string
    decreases |kept|
  {
    if |kept| == 0 then ""
    else Record(kept[0].path, Body(kept[0], opts, astStrip)) + Records(kept[1..], opts, astStrip)
  }

  /** The output of a one-entry archive is that entry's contribution. */
  lemma CombinedSingleton(e: Entry, opts: Options, astStrip: string -> string)
    ensures Combined([e], opts, astStrip) == Contribution(e, opts, astStrip)
  {
    ConcatMapSingleton(e, e => Contribution(e, opts, astStrip));
  }

  /** The output is exactly the records of the kept entries, in archive order. */
  lemma {:induction false} CombinedIsRecordsOfSurvivors(entries: seq<Entry>, opts: Options, astStrip: string -> string)
    ensures Combined(entries, opts, astStrip) == Records(Survivors(entries, opts), opts, astStrip)
    decreases |entries|
  {
    if |entries| > 0 {
      var e, tail := entries[0], entries[1..];
      assert entries == [e] + tail;
      CombinedConcat([e], tail, opts, astStrip);
      CombinedSingleton(e, opts, astStrip);
      CombinedIsRecordsOfSurvivors(tail, opts, astStrip);
      var rest := Survivors(tail, opts);
      if Kept(e, opts) {
        assert Survivors(entries, opts) == [e] + rest;
        assert ([e] + rest)[1..] == rest;
        assert Records([e] + rest, opts, astStrip) == Record(e.path, Body(e, opts, astStrip)) + Records(rest, opts, astStrip);
      } else {
        assert Survivors(entries, opts) == rest;
      }
    }
  }

  /** An entry contributes nothing when its path ends in `/`, when its
      extension is not a selected language, when the path filter (given the
      extension as the language) rejects it, or when it is a `py` or `sh`
      file that looks like a test or is too short; otherwise it contributes
      its record. */
  lemma SkippedEntries(entries: seq<Entry>, e: Entry, opts: Options, astStrip: string -> string)
    ensures var ext := Extension(e.path);
      EndsWith(e.path, "/") || ext !in opts.languages ||
      !IsLikelyUsefulFile(e.path, ext, opts.keepReadme) ||
      (ext in ["py", "sh"] && (IsTestFile(e.content, ext) || !HasSufficientContent(e.content, DefaultMinLineCount)))
      ==> Combined(entries + [e], opts, astStrip) == Combined(entries, opts, astStrip)
    ensures !Kept(e, opts) ==> Combined(entries + [e], opts, astStrip) == Combined(entries, opts, astStrip)
    ensures Kept(e, opts) ==>
      Combined(entries + [e], opts, astStrip) == Combined(entries, opts, astStrip) + Record(e.path, Body(e, opts, astStrip))
  {
    assert (entries + [e])[..|entries|] == entries;
  }

  /** The body is the raw content unless the extension is `py` and comments
      are not kept, and then it is the stripped source. */
  lemma BodyNormalisedOnlyForPython(e: Entry, opts: Options, astStrip: string -> string)
    ensures Extension(e.path) == "py" && !opts.keepComments ==> Body(e, opts, astStrip) == astStrip(e.content)
    ensures Extension(e.path) != "py" || opts.keepComments ==> Body(e, opts, astStrip) == e.content
  {
  }

  /** Mapping over three elements concatenates their three images. */
  lemma ConcatMapThree<T>(x: T, y: T, z: T, f: T -> string)
    ensures ConcatMap([x, y, z], f) == f(x) + f(y) + f(z)
  {
    assert [x, y, z][..2] == [x, y];
    assert [x, y][..1] == [x];
    ConcatMapSingleton(x, f);
  }

  /** The output for a three-entry archive is the three contributions in order. */
  lemma CombinedOfThree(x: Entry, y: Entry, z: Entry, opts: Options, astStrip: string -> string)
    ensures Combined([x, y, z], opts, astStrip) ==
            Contribution(x, opts, astStrip) + Contribution(y, opts, astStrip) + Contribution(z, opts, astStrip)
  {
    ConcatMapThree(x, y, z, e => Contribution(e, opts, astStrip));
  }

  /** A `py` entry that passes every filter, in a run that selects `py` and
      does not keep comments, contributes its record with the normalised
      source as the body. */
  lemma PythonSourceWritten(e: Entry, opts: Options, astStrip: string -> string)
    requires Extension(e.path) == "py" && "py" in opts.languages && !opts.keepComments
    requires !EndsWith(e.path, "/") && IsLikelyUsefulFile(e.path, "py", opts.keepReadme)
    requires !IsTestFile(e.content, "py") && HasSufficientContent(e.content, DefaultMinLineCount)
    ensures Contribution(e, opts, astStrip) == Record(e.path, astStrip(e.content))
  {
  }

  /** With `--lang py` and the default flags, an archive holding `repo/a.py`,
      `repo/tests/b.py` and `repo/README.md` produces exactly the record of
      `repo/a.py`, with its normalised content. */
  lemma EndToEndExample(ea: Entry, eb: Entry, er: Entry, opts: Options, astStrip: string -> string)
    requires ea.path == "repo/a.py" && eb.path == "repo/tests/b.py" && er.path == "repo/README.md"
    requires opts == Options(["py"], false, false)
    requires HasSufficientContent(ea.content, DefaultMinLineCount) && !IsTestFile(ea.content, "py")
    ensures Combined([ea, eb, er], opts, astStrip) == "# File: repo/a.py\n" + astStrip(ea.content) + "\n\n"
  {
    SourceEntryWritten(ea, opts, astStrip);
    TestsEntrySkipped(eb, opts, astStrip);
    ReadmeEntrySkipped(er, opts, astStrip);
    CombinedOfThree(ea, eb, er, opts, astStrip);
    var out := "# File: repo/a.py\n" + astStrip(ea.content) + "\n\n";
    assert out + "" + "" == out;
  }

  lemma SourceEntryWritten(e: Entry, opts: Options, astStrip: string -> string)
    requires e.path == "repo/a.py" && opts == Options(["py"], false, false)
    requires HasSufficientContent(e.content, DefaultMinLineCount) && !IsTestFile(e.content, "py")
    ensures Contribution(e, opts, astStrip) == "# File: repo/a.py\n" + astStrip(e.content) + "\n\n"
  {
    SourceFileExtension(e.path);
    SourceFileKept(e.path);
    assert e.path[|e.path| - 1] == 'y';
    PythonSourceWritten(e, opts, astStrip);
    HeaderOfSourceFile(e.path, astStrip(e.content));
  }

  lemma HeaderOfSourceFile(p: string, body: string)
    requires p == "repo/a.py"
    ensures Record(p, body) == "# File: repo/a.py\n" + body + "\n\n"
  {
    assert "# File: " + p + "\n" == "# File: repo/a.py\n";
  }

  lemma TestsEntrySkipped(e: Entry, opts: Options, astStrip: string -> string)
    requires e.path == "repo/tests/b.py" && opts == Options(["py"], false, false)
    ensures Contribution(e, opts, astStrip) == ""
  {
    TestsEntryRejected(e.path);
  }

  lemma ReadmeEntrySkipped(e: Entry, opts: Options, astStrip: string -> string)
    requires e.path == "repo/README.md" && opts == Options(["py"], false, false)
    ensures Contribution(e, opts, astStrip) == ""
  {
    ExtensionOfDottedName("repo", "README", "md");
    assert "repo" + "/" + ("README" + "." + "md") == e.path;
  }

  /** `repo/a.py` passes the path filter for `py` without `--keep-readme`. */
  lemma SourceFileKept(p: string)
    requires p == "repo/a.py"
    ensures IsLikelyUsefulFile(p, "py", false)
  {
    SourceFileNotHidden(p);
    NoLetterTHasNoTest(p);
    SourceFileLacksExcludedDirs(p);
    SourceFileLacksConfigFiles(p);
    SourceFileLacksDocMarkers(p);
  }

  /** A path of two non-empty segments, neither starting with `.`, has no hidden segment. */
  lemma TwoSegmentsNotHidden(dir: string, name: string)
    requires '/' !in dir && '/' !in name
    requires dir != "" && name != "" && dir[0] != '.' && name[0] != '.'
    ensures !HasHiddenSegment(dir + "/" + name)
  {
    assert dir + "/" + name == dir + ['/'] + name;
    SplitConcat(dir, name, '/');
    SplitNoSep(dir, '/');
    SplitNoSep(name, '/');
  }

  lemma SourceFileNotHidden(p: string)
    requires p == "repo/a.py"
    ensures !HasHiddenSegment(p)
  {
    TwoSegmentsNotHidden("repo", "a.py");
    assert "repo" + "/" + "a.py" == p;
  }

  /** Every `py` directory marker has a character that `repo/a.py` lacks. */
  lemma SourceFileLacksExcludedDirs(p: string)
    requires p == "repo/a.py"
    ensures !AnyIn(ExcludedDirs("py"), p)
  {
    NoneInByChar(ExcludedDirs("py"), p, [1, 0, 0, 0, 0, 0, 0]);
  }

  /** Every `py` configuration file name has a character that `repo/a.py` lacks. */
  lemma SourceFileLacksConfigFiles(p: string)
    requires p == "repo/a.py"
    ensures !AnyIn(UtilityOrConfigFiles("py"), p)
  {
    NoneInByChar(UtilityOrConfigFiles("py"), p, [0, 0]);
  }

  /** Every `py` documentation marker has a character that `repo/a.py` lacks. */
  lemma SourceFileLacksDocMarkers(p: string)
    requires p == "repo/a.py"
    ensures !AnyIn(WorkflowOrDocs("py", false), p)
  {
    NoneInByChar(WorkflowOrDocs("py", false), p, [1, 1, 0, 0, 0, 0, 0]);
  }

  /** `repo/tests/b.py` has extension `py` and is rejected by the path filter. */
  lemma TestsEntryRejected(p: string)
    requires p == "repo/tests/b.py"
    ensures Extension(p) == "py" && !IsLikelyUsefulFile(p, "py", false)
  {
    ExtensionOfDottedName("repo/tests", "b", "py");
    assert "repo/tests" + "/" + ("b" + "." + "py") == p;
    assert OccursAt(p, "test", 5);
    ContainsAt(p, "test", 5);
    LowerKeepsLowerCase(p, "test");
  }
}
