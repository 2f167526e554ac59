# github2file, modelled in Dafny

`github2file.py` downloads a repository archive and writes the files that
matter for one or more languages into a single text file. Each archive
entry goes through four tests, in order:

- the path must not be a directory;
- the extension is derived from the path and must be one of the selected languages;
- the path filter `is_likely_useful_file` must accept the path;
- for `py` and `sh` only, the content filters `is_test_file` and
  `has_sufficient_content` must not reject the content.

An entry that passes is written out as `# File: <path>`, then its content,
then a blank line. Python sources are first put through
`remove_comments_and_docstrings`, unless `--keep-comments` is given.

The model has four modules:

- `PyStr` (`pystr.dfy`) gives the Python string operations the tool uses,
  on `seq<char>`: `sub in s` (with `OccursAt` as the index-based meaning),
  `startswith`, `endswith`, `split` on one character (with `Join` as its
  inverse), `lower` and `strip`.
- `PathFilter` (`path_filter.dfy`) is `is_likely_useful_file`. It has the
  per-language marker lists, the hidden-segment rule, the `test` rule and
  the three whole-path substring rules.
- `ContentClassifier` (`content_classifier.dfy`) is `is_test_file` and
  `has_sufficient_content`, defined through a count of substantive lines.
- `Walker` (`walker.dfy`) covers the rest of `download_repo_files`:
  - extension derivation and the normaliser;
  - a pure definition of the whole output (`Combined`, one `Contribution`
    per entry, folded in archive order);
  - the loop itself, as the method `DownloadRepoFiles`, which writes through
    an `OutputFile` object with a `Write` method. The method is proved to
    produce exactly `Combined`.

The normaliser's syntax-tree pass is a parameter, `astStrip: string ->
string`. The visible behaviour kept from it is that only `py` sources go
through it.

## Model

| member | source | states |
|---|---|---|
| `PyStr.ContainsIff` | github2file.py:28-34 | `sub in s` holds exactly when `sub` occurs in `s` at some index. |
| `PyStr.AnyInIff` | github2file.py:30-35 | `any(m in s for m in markers)` holds exactly when some listed marker is a substring. |
| `PyStr.NoneInByChar` | github2file.py:30-35 | No marker matches a string that lacks one character of each marker. |
| `PyStr.ContainsTrans` | github2file.py:28 | A substring of a substring of `s` is a substring of `s`. |
| `PyStr.JoinSplit` | github2file.py:26 | Joining the pieces of `s.split(c)` with `c` gives back `s`. |
| `PyStr.SplitJoin` | github2file.py:26 | Splitting a join of pieces that lack `c` gives back the pieces. |
| `PyStr.SplitConcat` | github2file.py:48 | `(a + c + b).split(c)` is `a.split(c)` followed by `b.split(c)`. |
| `PyStr.SplitPiecesHaveNoSep` | github2file.py:81 | No piece of `s.split(c)` contains `c`. |
| `PyStr.LastPiece` | github2file.py:81-82 | `s.split(c)[-1]` lacks `c` and is a suffix of `s`. It is either all of `s` or preceded by `c`, and it is shorter than `s` when `c` occurs in `s`. |
| `PyStr.Lower` | github2file.py:28 | `s.lower()` has the same length as `s` and lowers each ASCII letter in place. |
| `PyStr.LowerKeepsLowerCase` | github2file.py:28 | A lower-case substring of `s` stays a substring of `s.lower()`. |
| `PyStr.LeadingSpaceSpec` | github2file.py:48 | The run that `lstrip` removes is all whitespace, and the character after it is not whitespace. |
| `PyStr.TrailingSpaceSpec` | github2file.py:48 | The run that `rstrip` removes is all whitespace, and the character before it is not whitespace. |
| `PyStr.StripSpec` | github2file.py:48 | `line.strip()` is empty exactly when the line is all whitespace. Otherwise it starts right after a whitespace-only prefix. |
| `PathFilter.HiddenSegmentIff` | github2file.py:26 | Some `/`-separated segment starts with `.` exactly when some `.` is at index 0 or directly after a `/`. |
| `PathFilter.LaterSegmentsHidden` | github2file.py:26 | The same equivalence for the segments after the first. |
| `PathFilter.HiddenSegmentRejected` | github2file.py:26-27 | A path with a segment starting with `.` is rejected, for every language and either `keep_readme`. |
| `PathFilter.TestSubstringRejected` | github2file.py:28-29 | A path whose lower-cased form contains `test` is rejected, whatever the language. |
| `PathFilter.NoLetterTHasNoTest` | github2file.py:28 | A path with no `t` or `T` never contains `test` once lowered, so the `test` rule lets it through. |
| `PathFilter.TestsDirectoryRejected` | github2file.py:28-29 | A path containing `tests/foo.py` is rejected for every language. |
| `PathFilter.MarkerRejected` | github2file.py:30-35 | A path that contains any listed marker of its language, anywhere, is rejected. |
| `PathFilter.CommonMarkersRejected` | github2file.py:11-24 | `utils`, `LICENSE` and `.github` are rejected for every language, and `setup.py` for `py`. |
| `PathFilter.KeepReadmeOnlyDropsReadme` | github2file.py:15-16 | A path is accepted without `keep_readme` exactly when it is accepted with it and does not contain `README`. |
| `PathFilter.KeepReadmeMonotone` | github2file.py:15-16 | Turning `keep_readme` on never rejects a path that was accepted. |
| `PathFilter.ReadmeExample` | github2file.py:9-36 | `README.md` is rejected without `keep_readme` and accepted with it, for every language. |
| `ContentClassifier.IsTestFileIff` | github2file.py:38-44 | Content is a test file exactly when one of its language's indicators occurs in it. |
| `ContentClassifier.OtherLanguagesHaveNoTestFiles` | github2file.py:44 | For any language other than `py` and `go` (so for `sh`), no content is a test file. |
| `ContentClassifier.PytestImportIsTestFile` | github2file.py:41 | Python content beginning with `import pytest` is a test file. |
| `ContentClassifier.PlainFunctionIsNotTestFile` | github2file.py:41 | `def f(): pass` is not a Python test file. |
| `ContentClassifier.SubstantiveIff` | github2file.py:48 | A line is substantive exactly when it has a non-whitespace character and the text from the first one on starts with neither `#` nor `//`. |
| `ContentClassifier.StripStartsAtFirstNonSpace` | github2file.py:48 | A non-empty `line.strip()` begins at the line's first non-whitespace character. It reaches the next character whenever that one is not whitespace. |
| `ContentClassifier.SubstantiveCount` | github2file.py:48 | The count of substantive lines never exceeds the number of lines. |
| `ContentClassifier.SubstantiveCountConcat` | github2file.py:48 | The count over two line lists is the sum of the counts. |
| `ContentClassifier.JoinedLinesCount` | github2file.py:46-49 | Text made of newline-free lines has exactly that list's substantive count. With the default minimum it is sufficient exactly when that count is at least 10. |
| `ContentClassifier.AppendText` | github2file.py:48 | Appending a newline and more text adds exactly that text's substantive lines. |
| `ContentClassifier.AppendNonSubstantiveLine` | github2file.py:48-49 | Appending a blank or comment line never changes `has_sufficient_content`, whatever the minimum. |
| `ContentClassifier.AppendSubstantiveLine` | github2file.py:48-49 | Appending a substantive line adds one to the count. It can turn false into true, never true into false. |
| `ContentClassifier.SufficientContentMonotone` | github2file.py:48-49 | Content that is sufficient stays sufficient whatever is appended after a newline. |
| `Walker.FileNameIsFinalSegment` | github2file.py:81 | The file name lacks `/`, ends the path, and is the whole path or follows a `/`. |
| `Walker.ExtensionAfterLastDot` | github2file.py:81-82 | The extension lacks `/`. When the file name has a dot, the extension is the dot-free suffix after its last dot. Otherwise it is the whole file name. |
| `Walker.FileNameAfterSlash` | github2file.py:81 | The file name of `dir/name` is `name` when `name` lacks `/`. |
| `Walker.ExtensionOfDottedName` | github2file.py:81-82 | `dir/base.ext`, with one dot in the name, has the extension `ext`. |
| `Walker.ExtensionOfPlainName` | github2file.py:82 | A file name without a dot is its own extension. |
| `Walker.DockerfileExtension` | github2file.py:82 | `repo/Dockerfile` has the extension `Dockerfile`. |
| `Walker.SourceFileExtension` | github2file.py:81-82 | `repo/a.py` has the extension `py`. |
| `Walker.NormaliserKeepsOtherLanguages` | github2file.py:53-65 | The normaliser returns its input unchanged for every language but `py`. |
| `Walker.BodyNormalisedOnlyForPython` | github2file.py:91-92 | The text written is the normalised source exactly for `py` without `--keep-comments`, and the raw content otherwise. |
| `Walker.OutputFile.constructor` | github2file.py:77 | The output file opened for writing starts empty. |
| `Walker.OutputFile.Write` | github2file.py:94-96 | A write appends its text to the file and changes nothing else. |
| `Walker.RecordWritten` | github2file.py:94-96 | The three writes for one entry append exactly its record. |
| `Walker.DownloadRepoFiles` | github2file.py:77-96 | The loop over the archive leaves the output file holding exactly `Combined(archive)`. The loop invariant says that after `i` entries the file holds the output of the first `i`. |
| `Walker.CombinedStep` | github2file.py:78 | One more entry adds its contribution at the end of the output. |
| `Walker.CombinedConcat` | github2file.py:78 | The output for a concatenated archive is the two outputs concatenated. |
| `Walker.Survivors` | github2file.py:78-90 | The kept entries are no more than the archive, and each is an entry of the archive that passes every test. |
| `Walker.SurvivorsComplete` | github2file.py:78-90 | Every archive entry that passes every test is among the kept entries. |
| `Walker.SurvivorsConcat` | github2file.py:78 | Filtering a concatenated archive keeps the first part's survivors before the second's, so archive order is preserved. |
| `Walker.CombinedIsRecordsOfSurvivors` | github2file.py:78-96 | The output is exactly the records of the kept entries, in archive order. |
| `Walker.SkippedEntries` | github2file.py:79-90 | An entry adds nothing when any of the four skip conditions holds: a directory path, an unselected extension, a path-filter rejection, or a `py`/`sh` test file or short file. Otherwise it adds its record. |
| `Walker.PythonSourceWritten` | github2file.py:83-96 | A `py` entry that passes every filter, in a run without `--keep-comments`, adds its record with the normalised source. |
| `Walker.TestsEntrySkipped` | github2file.py:85-86 | `repo/tests/b.py` adds nothing under `--lang py`. |
| `Walker.ReadmeEntrySkipped` | github2file.py:83-84 | `repo/README.md` adds nothing under `--lang py`: its extension `md` is not selected. |
| `Walker.EndToEndExample` | github2file.py:78-96 | Under `--lang py` and the default flags, an archive of `repo/a.py` (sufficient, not a test), `repo/tests/b.py` and `repo/README.md` produces exactly the record of `repo/a.py` with its normalised source. |

## Left out

- The download (lines 69-74) is not modelled: the HTTP request, the status check, the error message and `sys.exit(1)`. The archive is a parameter, already fetched.
- The zip file (lines 76 and 88) is not modelled. The archive is a sequence of entries in `namelist()` order, each with its content already decoded from UTF-8. A decoding failure, which `download_repo_files` does not handle, is outside the model.
- Opening the output file (line 77) is modelled by an `OutputFile` object that starts empty. Encoding and the file system are not modelled.
- The body of `remove_comments_and_docstrings` (lines 54-64) is the parameter `astStrip`. That covers the parse, the walk, the unparse and the fall-back to the unchanged source on `SyntaxError`. Python's parser and unparser are outside the model.
- The command line (lines 98-116) is not modelled: argument parsing, the `--lang` choices, the output folder and file name, the final message. `Options` carries the three settings that reach the loop.
- `PyStr.Lower` lowers ASCII letters only, and leaves every other character unchanged. Python's `str.lower()` also lowers non-ASCII letters. Only two of them lower to ASCII: U+0130 becomes `i` followed by U+0307, and U+212A becomes `k`. None lowers to `t`, `e` or `s`. So the `test` rule at line 28 gives the same answer under the model.
- `PyStr.Strip` removes the code points for which Python's `str.isspace()` holds, written out as a fixed set.
- The walker always uses the default `min_line_count` of 10, as the code does: line 89 calls `has_sufficient_content` without it. A configurable `min_line_count` in the run's options would disagree with the code, so the model follows the code. `HasSufficientContent` itself keeps the parameter.
