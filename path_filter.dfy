/** The path filter `is_likely_useful_file`: from the path string alone,
    decide whether a file is kept. Every marker is matched as a plain
    substring of the whole path, not as a path segment. */
module PathFilter {
  import opened PyStr

  /** Directory markers; `__pycache__` is added for `py`, `vendor` for `go`. */
  function ExcludedDirs(lang: string): seq<string>
  {
    ["examples", "tests", "test", "scripts", "utils", "benchmarks"] +
    (if lang == "py" then ["__pycache__"] else if lang == "go" then ["vendor"] else [])
  }

  /** Utility and configuration file names; none for languages other than `py` and `go`. */
  function UtilityOrConfigFiles(lang: string): seq<string>
  {
    if lang == "py" then ["hubconf.py", "setup.py"]
    else if lang == "go" then ["go.mod", "go.sum", "Makefile"]
    else []
  }

  /** Workflow and documentation markers, in the order `is_likely_useful_file` appends them. */
  function WorkflowOrDocs(lang: string, keepReadme: bool): seq<string>
  {
    [".github", ".gitignore", "LICENSE"] +
    (if !keepReadme then ["README"] else []) +
    (if lang == "py" then ["stale.py", "gen-card-", "write_model_card"] else [])
  }

  /** `any(part.startswith('.') for part in path.split('/'))` */
  predicate HasHiddenSegment(path: string)
  {
    exists k :: 0 <= k < |Split(path, '/')| && StartsWith(Split(path, '/')[k], ".")
  }

  /** `github2file.py`'s `is_likely_useful_file(file_path, lang, keep_readme)`. */
  predicate IsLikelyUsefulFile(path: string, lang: string, keepReadme: bool)
  {
    if HasHiddenSegment(path) then false
    else if Contains(Lower(path), "test") then false
    else if AnyIn(ExcludedDirs(lang), path) then false
    else if AnyIn(UtilityOrConfigFiles(lang), path) then false
    else if AnyIn(WorkflowOrDocs(lang, keepReadme), path) then false
    else true
  }

  // ---------------------------------------------------------------------
  // Hidden segments, stated on character positions

  /** A `.` at index `i` begins a `/`-separated segment. */
  predicate DotStartsSegment(path: string, i: int)
  {
    0 <= i < |path| && path[i] == '.' && (i == 0 || path[i - 1] == '/')
  }

  /** The pieces after the first are hidden exactly when some `.` directly follows a `/`. */
  predicate LaterSegmentsHiddenIff(path: string)
  {
    (exists k :: 1 <= k < |Split(path, '/')| && StartsWith(Split(path, '/')[k], ".")) <==>
    (exists i :: 1 <= i < |path| && DotStartsSegment(path, i))
  }

  lemma {:induction false} LaterSegmentsHidden(path: string)
    ensures LaterSegmentsHiddenIff(path)
    decreases |path|
  {
    if |path| > 0 {
      LaterSegmentsHidden(path[1..]);
      if path[0] == '/' {
        LaterSegmentsHiddenAfterSlash(path);
      } else {
        LaterSegmentsHiddenAfterChar(path);
      }
    }
  }

  /** The step of `LaterSegmentsHidden` for a path starting with `/`. */
  lemma LaterSegmentsHiddenAfterSlash(path: string)
    requires |path| > 0 && path[0] == '/' && LaterSegmentsHiddenIff(path[1..])
    ensures LaterSegmentsHiddenIff(path)
  {
    var t := path[1..];
    var rest := Split(t, '/');
    var parts := Split(path, '/');
    assert parts[1..] == rest;
    SplitFirst(t, '/');
    if exists k :: 1 <= k < |parts| && StartsWith(parts[k], ".") {
      var k :| 1 <= k < |parts| && StartsWith(parts[k], ".");
      assert parts[k] == rest[k - 1];
      if k == 1 {
        assert DotStartsSegment(path, 1);
      } else {
        var j :| 1 <= j < |t| && DotStartsSegment(t, j);
        assert DotStartsSegment(path, j + 1);
      }
    }
    if exists i :: 1 <= i < |path| && DotStartsSegment(path, i) {
      var i :| 1 <= i < |path| && DotStartsSegment(path, i);
      if i == 1 {
        assert StartsWith(parts[1], ".");
      } else {
        assert DotStartsSegment(t, i - 1);
        var k :| 1 <= k < |rest| && StartsWith(rest[k], ".");
        assert parts[k + 1] == rest[k];
      }
    }
  }

  /** The step of `LaterSegmentsHidden` for a path starting with another character. */
  lemma LaterSegmentsHiddenAfterChar(path: string)
    requires |path| > 0 && path[0] != '/' && LaterSegmentsHiddenIff(path[1..])
    ensures LaterSegmentsHiddenIff(path)
  {
    var t := path[1..];
    var rest := Split(t, '/');
    var parts := Split(path, '/');
    assert parts[1..] == rest[1..];
    if exists k :: 1 <= k < |parts| && StartsWith(parts[k], ".") {
      var k :| 1 <= k < |parts| && StartsWith(parts[k], ".");
      assert parts[k] == rest[k];
      var j :| 1 <= j < |t| && DotStartsSegment(t, j);
      assert DotStartsSegment(path, j + 1);
    }
    if exists i :: 1 <= i < |path| && DotStartsSegment(path, i) {
      var i :| 1 <= i < |path| && DotStartsSegment(path, i);
      assert i >= 2;
      assert DotStartsSegment(t, i - 1);
      var k :| 1 <= k < |rest| && StartsWith(rest[k], ".");
      assert parts[k] == rest[k];
    }
  }

  /** A path has a hidden segment exactly when some `.` begins a segment. */
  lemma HiddenSegmentIff(path: string)
    ensures HasHiddenSegment(path) <==> exists i :: DotStartsSegment(path, i)
  {
    var parts := Split(path, '/');
    LaterSegmentsHidden(path);
    SplitFirst(path, '/');
    if HasHiddenSegment(path) {
      var k :| 0 <= k < |parts| && StartsWith(parts[k], ".");
      if k == 0 {
        assert DotStartsSegment(path, 0);
      }
    }
    if exists i :: DotStartsSegment(path, i) {
      var i :| DotStartsSegment(path, i);
      if i == 0 {
        assert StartsWith(parts[0], ".");
      }
    }
  }

  // ---------------------------------------------------------------------
  // What the filter promises

  /** Any path with a segment beginning with `.` is rejected, whatever the
      language and `keep_readme`. */
  lemma HiddenSegmentRejected(path: string, i: int, lang: string, keepReadme: bool)
    requires DotStartsSegment(path, i)
    ensures !IsLikelyUsefulFile(path, lang, keepReadme)
  {
    HiddenSegmentIff(path);
  }

  /** Any path containing `test` in any letter case is rejected, whatever the
      language and `keep_readme`. */
  lemma TestSubstringRejected(path: string, lang: string, keepReadme: bool)
    requires Contains(Lower(path), "test")
    ensures !IsLikelyUsefulFile(path, lang, keepReadme)
  {
  }

  /** In particular a path containing `tests/foo.py` is rejected for every language. */
  lemma TestsDirectoryRejected(path: string, lang: string, keepReadme: bool)
    requires Contains(path, "tests/foo.py")
    ensures !IsLikelyUsefulFile(path, lang, keepReadme)
  {
    ContainsAt("tests/foo.py", "test", 0);
    ContainsTrans(path, "tests/foo.py", "test");
    LowerKeepsLowerCase(path, "test");
  }

  /** Every listed marker is a whole-path substring test: a path containing one
      is rejected, wherever in the path it occurs. */
  lemma MarkerRejected(path: string, lang: string, keepReadme: bool, m: string)
    requires m in ExcludedDirs(lang) + UtilityOrConfigFiles(lang) + WorkflowOrDocs(lang, keepReadme)
    requires Contains(path, m)
    ensures !IsLikelyUsefulFile(path, lang, keepReadme)
  {
    if m in ExcludedDirs(lang) {
      AnyInMember(ExcludedDirs(lang), path, m);
    } else if m in UtilityOrConfigFiles(lang) {
      AnyInMember(UtilityOrConfigFiles(lang), path, m);
    } else {
      AnyInMember(WorkflowOrDocs(lang, keepReadme), path, m);
    }
  }

  /** Paths containing `utils`, `LICENSE` or `.github` are rejected for every
      language; `setup.py` is rejected for `py`. */
  lemma CommonMarkersRejected(path: string, lang: string, keepReadme: bool)
    requires Contains(path, "utils") || Contains(path, "LICENSE") || Contains(path, ".github") ||
             (lang == "py" && Contains(path, "setup.py"))
    ensures !IsLikelyUsefulFile(path, lang, keepReadme)
  {
    var all := ExcludedDirs(lang) + UtilityOrConfigFiles(lang) + WorkflowOrDocs(lang, keepReadme);
    if Contains(path, "utils") {
      assert all[4] == "utils";
      MarkerRejected(path, lang, keepReadme, "utils");
    } else if Contains(path, "LICENSE") {
      assert all[|all| - |WorkflowOrDocs(lang, keepReadme)| + 2] == "LICENSE";
      MarkerRejected(path, lang, keepReadme, "LICENSE");
    } else if Contains(path, ".github") {
      assert all[|all| - |WorkflowOrDocs(lang, keepReadme)|] == ".github";
      MarkerRejected(path, lang, keepReadme, ".github");
    } else {
      assert all[8] == "setup.py";
      MarkerRejected(path, lang, keepReadme, "setup.py");
    }
  }

  /** `keep_readme` only removes the `README` rule: rejection without it is
      acceptance with it plus the absence of `README`. */
  lemma KeepReadmeOnlyDropsReadme(path: string, lang: string)
    ensures IsLikelyUsefulFile(path, lang, false) <==>
            IsLikelyUsefulFile(path, lang, true) && !Contains(path, "README")
  {
    var with := WorkflowOrDocs(lang, false);
    var without := WorkflowOrDocs(lang, true);
    AnyInIff(with, path);
    AnyInIff(without, path);
    assert with[3] == "README";
    forall k | 0 <= k < |without| && Contains(path, without[k])
      ensures exists j :: 0 <= j < |with| && Contains(path, with[j])
    {
      if k < 3 {
        assert with[k] == without[k];
      } else {
        assert with[k + 1] == without[k];
      }
    }
    forall j | 0 <= j < |with| && Contains(path, with[j]) && j != 3
      ensures exists k :: 0 <= k < |without| && Contains(path, without[k])
    {
      if j < 3 {
        assert with[j] == without[j];
      } else {
        assert with[j] == without[j - 1];
      }
    }
  }

  /** Hence a path accepted without `keep_readme` is accepted with it. */
  lemma KeepReadmeMonotone(path: string, lang: string)
    requires IsLikelyUsefulFile(path, lang, false)
    ensures IsLikelyUsefulFile(path, lang, true)
  {
    KeepReadmeOnlyDropsReadme(path, lang);
  }

  /** `README.md` is rejected without `keep_readme` and accepted with it, for
      every language. */
  lemma ReadmeExample(p: string, lang: string)
    requires p == "README.md"
    ensures !IsLikelyUsefulFile(p, lang, false)
    ensures IsLikelyUsefulFile(p, lang, true)
  {
    ReadmeKept(p, lang);
    ContainsAt(p, "README", 0);
    KeepReadmeOnlyDropsReadme(p, lang);
  }

  /** With `keep_readme`, no rule of the filter fires on `README.md`. */
  lemma ReadmeKept(p: string, lang: string)
    requires p == "README.md"
    ensures IsLikelyUsefulFile(p, lang, true)
  {
    SplitNoSep(p, '/');
    assert !HasHiddenSegment(p);
    NoLetterTHasNoTest(p);
    ReadmeLacksExcludedDirs(p, lang);
    ReadmeLacksConfigFiles(p, lang);
    ReadmeLacksDocMarkers(p, lang);
  }

  /** A path without the letter `t` in either case has no `test` once lowered. */
  lemma NoLetterTHasNoTest(p: string)
    requires 't' !in p && 'T' !in p
    ensures !Contains(Lower(p), "test")
  {
    var l := Lower(p);
    forall k | 0 <= k < |l| ensures l[k] != 't' {
      assert l[k] == LowerChar(p[k]);
    }
    NotContainsByChar(l, "test", 0);
  }

  // Each marker has a character, at the index given, that `README.md` lacks.

  lemma ReadmeLacksExcludedDirs(p: string, lang: string)
    requires p == "README.md"
    ensures !AnyIn(ExcludedDirs(lang), p)
  {
    var dirs := ExcludedDirs(lang);
    NoneInByChar(dirs, p, seq(|dirs|, _ => 0));
  }

  lemma ReadmeLacksConfigFiles(p: string, lang: string)
    requires p == "README.md"
    ensures !AnyIn(UtilityOrConfigFiles(lang), p)
  {
    var config := UtilityOrConfigFiles(lang);
    NoneInByChar(config, p, if lang == "go" then [0, 0, 2] else seq(|config|, _ => 0));
  }

  lemma ReadmeLacksDocMarkers(p: string, lang: string)
    requires p == "README.md"
    ensures !AnyIn(WorkflowOrDocs(lang, true), p)
  {
    NoneInByChar(WorkflowOrDocs(lang, true), p, [1, 1, 0] + (if lang == "py" then [0, 0, 0] else []));
  }
}
