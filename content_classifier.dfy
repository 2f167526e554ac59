/** The content classifiers `is_test_file` and `has_sufficient_content`:
    decisions taken from a file's decoded text. */
module ContentClassifier {
  import opened PyStr

  /** The default `min_line_count` of `has_sufficient_content` in `github2file.py`. */
  const DefaultMinLineCount: int := 10

  /** Per-language markers of test code; languages other than `py` and `go` have none. */
  function TestIndicators(lang: string): seq<string>
  {
    if lang == "py" then ["import unittest", "import pytest", "from unittest", "from pytest"]
    else if lang == "go" then ["import testing", "func Test"]
    else []
  }

  /** `github2file.py`'s `is_test_file(file_content, lang)`. */
  predicate IsTestFile(content: string, lang: string)
  {
    AnyIn(TestIndicators(lang), content)
  }

  /** A file is classified as a test file exactly when one of its language's
      indicators occurs somewhere in it. */
  lemma IsTestFileIff(content: string, lang: string)
    ensures IsTestFile(content, lang) <==>
            exists m, i :: m in TestIndicators(lang) && OccursAt(content, m, i)
  {
    var ind := TestIndicators(lang);
    AnyInIff(ind, content);
    if IsTestFile(content, lang) {
      var k :| 0 <= k < |ind| && Contains(content, ind[k]);
      ContainsIff(content, ind[k]);
    }
    if exists m, i :: m in ind && OccursAt(content, m, i) {
      var m, i :| m in ind && OccursAt(content, m, i);
      ContainsAt(content, m, i);
    }
  }

  /** A language without indicators (every one but `py` and `go`, e.g. `sh`)
      never has test files. */
  lemma OtherLanguagesHaveNoTestFiles(content: string, lang: string)
    requires lang != "py" && lang != "go"
    ensures !IsTestFile(content, lang)
  {
  }

  /** Python content that begins with `import pytest` is a test file. */
  lemma PytestImportIsTestFile(content: string)
    requires StartsWith(content, "import pytest")
    ensures IsTestFile(content, "py")
  {
    ContainsAt(content, "import pytest", 0);
    AnyInMember(TestIndicators("py"), content, "import pytest");
  }

  /** `"def f(): pass"` is not a Python test file. */
  lemma PlainFunctionIsNotTestFile(s: string)
    requires s == "def f(): pass"
    ensures !IsTestFile(s, "py")
  {
    NoneInByChar(TestIndicators("py"), s, [0, 0, 1, 1]);
  }

  // ---------------------------------------------------------------------
  // Substantive lines

  /** `line.strip() and not line.strip().startswith(('#', '//'))` */
  predicate IsSubstantive(line: string)
  {
    var t := Strip(line);
    t != "" && !StartsWith(t, "#") && !StartsWith(t, "//")
  }

  /** The first character of `line` that is not whitespace is at index `i`. */
  predicate FirstNonSpaceAt(line: string, i: int)
  {
    0 <= i < |line| && AllSpace(line[..i]) && !IsSpace(line[i])
  }

  /** Only one index can hold the first non-whitespace character. */
  lemma FirstNonSpaceUnique(line: string, i: int, j: int)
    requires FirstNonSpaceAt(line, i) && FirstNonSpaceAt(line, j)
    ensures i == j
  {
  }

  /** The starting index of a line's text once stripped on the left. */
  function FirstNonSpace(line: string): nat
  {
    LeadingSpace(line)
  }

  /** A non-empty `line.strip()` starts at the first non-whitespace character
      of `line`, and reaches past the next one when that is not whitespace. */
  lemma StripStartsAtFirstNonSpace(line: string)
    requires Strip(line) != ""
    ensures var n := FirstNonSpace(line);
      FirstNonSpaceAt(line, n) && Strip(line)[0] == line[n] &&
      (|Strip(line)| >= 2 ==> Strip(line)[1] == line[n + 1]) &&
      (n + 1 < |line| && !IsSpace(line[n + 1]) ==> |Strip(line)| >= 2)
  {
    var n := FirstNonSpace(line);
    var l := line[n..];
    var m := TrailingSpace(l);
    var t := Strip(line);
    assert t == l[..|l| - m];
    LeadingSpaceSpec(line);
    TrailingSpaceSpec(l);
    if |t| < 2 && n + 1 < |line| {
      assert l[|l| - m..][0] == line[n + 1];
    }
  }

  /** A substantive line's first non-whitespace character is neither `#` nor
      the first of two slashes. */
  lemma SubstantiveHasCodeAtFirstNonSpace(line: string)
    requires IsSubstantive(line)
    ensures var n := FirstNonSpace(line);
      FirstNonSpaceAt(line, n) && line[n] != '#' &&
      !(line[n] == '/' && n + 1 < |line| && line[n + 1] == '/')
  {
    StripStartsAtFirstNonSpace(line);
    var t := Strip(line);
    assert t[..1] != "#";
    if |t| >= 2 {
      assert t[..2] != "//";
    }
  }

  /** A line whose first non-whitespace character is neither `#` nor the first
      of two slashes is substantive. */
  lemma CodeAtFirstNonSpaceIsSubstantive(line: string, i: int)
    requires FirstNonSpaceAt(line, i) && line[i] != '#'
    requires !(line[i] == '/' && i + 1 < |line| && line[i + 1] == '/')
    ensures IsSubstantive(line)
  {
    StripSpec(line);
    assert !IsSpace(line[i]);
    var t := Strip(line);
    assert t != "";
    StripStartsAtFirstNonSpace(line);
    FirstNonSpaceUnique(line, i, FirstNonSpace(line));
    assert t[..1][0] == line[i];
    if |t| >= 2 {
      assert t[..2][0] == line[i] && t[..2][1] == line[i + 1];
    }
  }

  /** A line is substantive exactly when it has a non-whitespace character and
      the text from the first one on starts neither with `#` nor with `//`. */
  lemma SubstantiveIff(line: string)
    ensures IsSubstantive(line) <==>
            exists i :: FirstNonSpaceAt(line, i) && line[i] != '#' &&
                        !(line[i] == '/' && i + 1 < |line| && line[i + 1] == '/')
  {
    if IsSubstantive(line) {
      SubstantiveHasCodeAtFirstNonSpace(line);
    }
    if exists i :: FirstNonSpaceAt(line, i) && line[i] != '#' &&
                   !(line[i] == '/' && i + 1 < |line| && line[i + 1] == '/') {
      var i :| FirstNonSpaceAt(line, i) && line[i] != '#' &&
               !(line[i] == '/' && i + 1 < |line| && line[i + 1] == '/');
      CodeAtFirstNonSpaceIsSubstantive(line, i);
    }
  }

  /** The number of substantive lines in a list of lines. */
  function SubstantiveCount(lines: seq<string>): (n: nat)
    ensures n <= |lines|
    decreases |lines|
  {
    if |lines| == 0 then 0
    else (if IsSubstantive(lines[0]) then 1 else 0) + SubstantiveCount(lines[1..])
  }

  /** Counting distributes over concatenation of line lists. */
  lemma {:induction false} SubstantiveCountConcat(xs: seq<string>, ys: seq<string>)
    ensures SubstantiveCount(xs + ys) == SubstantiveCount(xs) + SubstantiveCount(ys)
    decreases |xs|
  {
    if |xs| == 0 {
      assert xs + ys == ys;
    } else {
      assert (xs + ys)[1..] == xs[1..] + ys;
      SubstantiveCountConcat(xs[1..], ys);
    }
  }

  /** The number of substantive lines of `content.split('\n')`. */
  function SubstantiveLines(content: string): nat
  {
    SubstantiveCount(Split(content, '\n'))
  }

  /** `github2file.py`'s `has_sufficient_content(file_content, min_line_count)`. */
  predicate HasSufficientContent(content: string, minLineCount: int)
  {
    SubstantiveLines(content) >= minLineCount
  }

  /** Text built from explicit lines has exactly as many substantive lines
      as the list holds, so with the default threshold nine such lines are
      not enough and ten are. */
  lemma JoinedLinesCount(lines: seq<string>)
    requires |lines| >= 1
    requires forall k :: 0 <= k < |lines| ==> '\n' !in lines[k]
    ensures SubstantiveLines(Join(lines, '\n')) == SubstantiveCount(lines)
    ensures HasSufficientContent(Join(lines, '\n'), DefaultMinLineCount) <==>
            SubstantiveCount(lines) >= 10
  {
    SplitJoin(lines, '\n');
  }

  /** Appending text after a newline adds exactly that text's substantive lines. */
  lemma AppendText(content: string, more: string)
    ensures SubstantiveLines(content + "\n" + more) == SubstantiveLines(content) + SubstantiveLines(more)
  {
    SplitConcat(content, more, '\n');
    SubstantiveCountConcat(Split(content, '\n'), Split(more, '\n'));
  }

  /** Appending a blank or comment line never changes the result. */
  lemma AppendNonSubstantiveLine(content: string, line: string, minLineCount: int)
    requires '\n' !in line && !IsSubstantive(line)
    ensures HasSufficientContent(content + "\n" + line, minLineCount) == HasSufficientContent(content, minLineCount)
  {
    AppendText(content, line);
    SplitNoSep(line, '\n');
  }

  /** Appending a substantive line adds one to the count, so it can only turn
      an insufficient file into a sufficient one, never the reverse. */
  lemma AppendSubstantiveLine(content: string, line: string, minLineCount: int)
    requires '\n' !in line && IsSubstantive(line)
    ensures SubstantiveLines(content + "\n" + line) == SubstantiveLines(content) + 1
    ensures HasSufficientContent(content, minLineCount) ==> HasSufficientContent(content + "\n" + line, minLineCount)
  {
    AppendText(content, line);
    SplitNoSep(line, '\n');
  }

  /** Whatever is appended, a sufficient file stays sufficient. */
  lemma SufficientContentMonotone(content: string, more: string, minLineCount: int)
    requires HasSufficientContent(content, minLineCount)
    ensures HasSufficientContent(content + "\n" + more, minLineCount)
  {
    AppendText(content, more);
  }
}
