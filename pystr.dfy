/** The few Python string operations the tool relies on, on `seq<char>`:
    `sub in s`, `s.startswith(p)`, `s.endswith(p)`, `s.split(c)` with a
    one-character separator, `s.lower()` (ASCII letters only) and
    `s.strip()` with no argument. */
module PyStr {

  /** `s.startswith(prefix)` */
  predicate StartsWith(s: string, prefix: string)
  {
    |prefix| <= |s| && s[..|prefix|] == prefix
  }

  /** `s.endswith(suffix)` */
  predicate EndsWith(s: string, suffix: string)
  {
    |suffix| <= |s| && s[|s| - |suffix|..] == suffix
  }

  /** `sub` occurs in `s` at index `i` (the reference meaning of `in`). */
  predicate OccursAt(s: string, sub: string, i: int)
  {
    0 <= i && i + |sub| <= |s| && s[i..i + |sub|] == sub
  }

  /** Python's `sub in s` for two strings, scanning left to right. */
  predicate Contains(s: string, sub: string)
    decreases |s|
  {
    StartsWith(s, sub) || (|s| > 0 && Contains(s[1..], sub))
  }

  /** `sub in s` holds exactly when `sub` occurs at some index of `s`. */
  lemma {:induction false} ContainsIff(s: string, sub: string)
    ensures Contains(s, sub) <==> exists i :: OccursAt(s, sub, i)
    decreases |s|
  {
    if Contains(s, sub) {
      if StartsWith(s, sub) {
        assert OccursAt(s, sub, 0);
      } else {
        ContainsIff(s[1..], sub);
        var i :| OccursAt(s[1..], sub, i);
        assert s[1..][i..i + |sub|] == s[i + 1..i + 1 + |sub|];
        assert OccursAt(s, sub, i + 1);
      }
    }
    if exists i :: OccursAt(s, sub, i) {
      var i :| OccursAt(s, sub, i);
      if i == 0 {
        assert StartsWith(s, sub);
      } else {
        assert s[1..][i - 1..i - 1 + |sub|] == s[i..i + |sub|];
        assert OccursAt(s[1..], sub, i - 1);
        ContainsIff(s[1..], sub);
      }
    }
  }

  /** An occurrence at a known index is enough for `in`. */
  lemma ContainsAt(s: string, sub: string, i: int)
    requires OccursAt(s, sub, i)
    ensures Contains(s, sub)
  {
    ContainsIff(s, sub);
  }

  /** If some character of `sub` does not appear in `s`, then `sub` is not in `s`. */
  lemma NotContainsByChar(s: string, sub: string, k: int)
    requires 0 <= k < |sub| && sub[k] !in s
    ensures !Contains(s, sub)
  {
    ContainsIff(s, sub);
    forall i | 0 <= i && i + |sub| <= |s| ensures !OccursAt(s, sub, i) {
      assert s[i..i + |sub|][k] == s[i + k];
    }
  }

  /** `in` is transitive: a substring of a substring is a substring. */
  lemma ContainsTrans(s: string, mid: string, sub: string)
    requires Contains(s, mid) && Contains(mid, sub)
    ensures Contains(s, sub)
  {
    ContainsIff(s, mid);
    ContainsIff(mid, sub);
    var i :| OccursAt(s, mid, i);
    var j :| OccursAt(mid, sub, j);
    forall k | 0 <= k < |sub| ensures s[i + j..i + j + |sub|][k] == sub[k] {
      assert mid[j..j + |sub|][k] == mid[j + k];
      assert s[i..i + |mid|][j + k] == s[i + j + k];
    }
    assert OccursAt(s, sub, i + j);
    ContainsIff(s, sub);
  }

  /** Python's `any(m in s for m in markers)`. */
  predicate AnyIn(markers: seq<string>, s: string)
    decreases |markers|
  {
    |markers| > 0 && (Contains(s, markers[0]) || AnyIn(markers[1..], s))
  }

  /** `any` holds exactly when some listed marker is a substring. */
  lemma {:induction false} AnyInIff(markers: seq<string>, s: string)
    ensures AnyIn(markers, s) <==> exists k :: 0 <= k < |markers| && Contains(s, markers[k])
    decreases |markers|
  {
    if |markers| > 0 {
      AnyInIff(markers[1..], s);
      if exists k :: 0 <= k < |markers| && Contains(s, markers[k]) {
        var k :| 0 <= k < |markers| && Contains(s, markers[k]);
        if k > 0 {
          assert markers[1..][k - 1] == markers[k];
        }
      }
      if AnyIn(markers[1..], s) && !Contains(s, markers[0]) {
        var k :| 0 <= k < |markers[1..]| && Contains(s, markers[1..][k]);
        assert Contains(s, markers[k + 1]);
      }
    }
  }

  /** A listed marker found in `s` makes `any` true. */
  lemma AnyInMember(markers: seq<string>, s: string, m: string)
    requires m in markers && Contains(s, m)
    ensures AnyIn(markers, s)
  {
    AnyInIff(markers, s);
    var k :| 0 <= k < |markers| && markers[k] == m;
  }

  /** No marker is in `s` when each has some character, at index `ks[k]`,
      that `s` lacks. */
  lemma NoneInByChar(markers: seq<string>, s: string, ks: seq<int>)
    requires |ks| == |markers|
    requires forall k :: 0 <= k < |markers| ==> 0 <= ks[k] < |markers[k]| && markers[k][ks[k]] !in s
    ensures !AnyIn(markers, s)
  {
    AnyInIff(markers, s);
    forall k | 0 <= k < |markers| ensures !Contains(s, markers[k]) {
      NotContainsByChar(s, markers[k], ks[k]);
    }
  }

  // ---------------------------------------------------------------------
  // str.split with a one-character separator

  /** `s.split(sep)`: the pieces between occurrences of `sep`; never empty,
      and `""` splits into `[""]`. */
  function Split(s: string, sep: char): (parts: seq<string>)
    ensures |parts| >= 1
    decreases |s|
  {
    if |s| == 0 then [""]
    else if s[0] == sep then [""] + Split(s[1..], sep)
    else
      var rest := Split(s[1..], sep);
      [[s[0]] + rest[0]] + rest[1..]
  }

  /** `sep.join(parts)` */
  function Join(parts: seq<string>, sep: char): string
    requires |parts| >= 1
    decreases |parts|
  {
    if |parts| == 1 then parts[0] else parts[0] + [sep] + Join(parts[1..], sep)
  }

  /** `parts[-1]` */
  function Last(parts: seq<string>): string
    requires |parts| >= 1
  {
    parts[|parts| - 1]
  }

  /** No piece contains the separator. */
  lemma {:induction false} SplitPiecesHaveNoSep(s: string, sep: char)
    ensures forall k :: 0 <= k < |Split(s, sep)| ==> sep !in Split(s, sep)[k]
    decreases |s|
  {
    if |s| > 0 {
      SplitPiecesHaveNoSep(s[1..], sep);
    }
  }

  /** Joining the pieces with the separator gives back the string. */
  lemma {:induction false} JoinSplit(s: string, sep: char)
    ensures Join(Split(s, sep), sep) == s
    decreases |s|
  {
    if |s| > 0 {
      JoinSplit(s[1..], sep);
      var rest := Split(s[1..], sep);
      if s[0] == sep {
        assert Split(s, sep)[1..] == rest;
      } else {
        var parts := [[s[0]] + rest[0]] + rest[1..];
        if |rest| > 1 {
          assert parts[1..] == rest[1..];
          assert Join(rest, sep) == rest[0] + [sep] + Join(rest[1..], sep);
        }
        assert s == [s[0]] + s[1..];
      }
    }
  }

  /** Splitting a join of separator-free pieces gives back the pieces. */
  lemma {:induction false} SplitJoin(parts: seq<string>, sep: char)
    requires |parts| >= 1
    requires forall k :: 0 <= k < |parts| ==> sep !in parts[k]
    ensures Split(Join(parts, sep), sep) == parts
    decreases |parts|
  {
    if |parts| == 1 {
      SplitNoSep(parts[0], sep);
    } else {
      SplitJoin(parts[1..], sep);
      SplitConcat(parts[0], Join(parts[1..], sep), sep);
      SplitNoSep(parts[0], sep);
      assert [parts[0]] + parts[1..] == parts;
    }
  }

  /** A string without the separator is a single piece. */
  lemma {:induction false} SplitNoSep(s: string, sep: char)
    requires sep !in s
    ensures Split(s, sep) == [s]
    decreases |s|
  {
    if |s| > 0 {
      assert sep !in s[1..] by {
        forall k | 0 <= k < |s[1..]| ensures s[1..][k] != sep {
          assert s[1..][k] == s[k + 1];
        }
      }
      SplitNoSep(s[1..], sep);
      assert s == [s[0]] + s[1..];
    }
  }

  /** Splitting `a + sep + b` splits `a` and `b` separately. */
  lemma {:induction false} SplitConcat(a: string, b: string, sep: char)
    ensures Split(a + [sep] + b, sep) == Split(a, sep) + Split(b, sep)
    decreases |a|
  {
    var s := a + [sep] + b;
    if |a| == 0 {
      assert s == [sep] + b;
      assert s[1..] == b;
    } else {
      SplitConcat(a[1..], b, sep);
      assert s[1..] == a[1..] + [sep] + b;
      SplitSameHead(s, a, Split(b, sep), sep);
    }
  }

  /** Two strings with the same first character whose tails split into
      `Split(a[1..]) + more` and `Split(a[1..])` split into `Split(a) + more`
      and `Split(a)`. */
  lemma SplitSameHead(s: string, a: string, more: seq<string>, sep: char)
    requires |s| > 0 && |a| > 0 && s[0] == a[0]
    requires Split(s[1..], sep) == Split(a[1..], sep) + more
    ensures Split(s, sep) == Split(a, sep) + more
  {
    if a[0] != sep {
      SplitSameNonSepHead(s, a, more, sep);
    } else {
      SplitSameSepHead(s, a, more, sep);
    }
  }

  /** `SplitSameHead` when the first character is the separator: both splits
      gain an empty first piece. */
  lemma SplitSameSepHead(s: string, a: string, more: seq<string>, sep: char)
    requires |s| > 0 && |a| > 0 && s[0] == a[0] && a[0] == sep
    requires Split(s[1..], sep) == Split(a[1..], sep) + more
    ensures Split(s, sep) == Split(a, sep) + more
  {
    var ra := Split(a[1..], sep);
    assert [""] + (ra + more) == ([""] + ra) + more;
  }

  /** `SplitSameHead` when the first character is not the separator: both
      first pieces grow by that character. */
  lemma SplitSameNonSepHead(s: string, a: string, more: seq<string>, sep: char)
    requires |s| > 0 && |a| > 0 && s[0] == a[0] && a[0] != sep
    requires Split(s[1..], sep) == Split(a[1..], sep) + more
    ensures Split(s, sep) == Split(a, sep) + more
  {
    var ra := Split(a[1..], sep);
    assert (ra + more)[1..] == ra[1..] + more;
  }

  /** The first piece starts with the first character unless that is the separator. */
  lemma SplitFirst(s: string, sep: char)
    ensures |s| > 0 && s[0] != sep ==> |Split(s, sep)[0]| > 0 && Split(s, sep)[0][0] == s[0]
    ensures |s| == 0 || s[0] == sep ==> Split(s, sep)[0] == ""
  {
  }

  /** A join of two or more pieces ends with the separator and the last piece. */
  lemma {:induction false} JoinLast(parts: seq<string>, sep: char)
    requires |parts| >= 2
    ensures Join(parts, sep) == Join(parts[..|parts| - 1], sep) + [sep] + Last(parts)
    decreases |parts|
  {
    var init := parts[..|parts| - 1];
    if |parts| == 2 {
      assert init == [parts[0]];
    } else {
      JoinLast(parts[1..], sep);
      assert parts[1..][..|parts| - 2] == init[1..];
      assert init[0] == parts[0];
    }
  }

  /** `parts[-1]` of a split is the text after the last separator: a suffix of
      `s` without the separator, which is either all of `s` or preceded by the
      separator. */
  lemma LastPiece(s: string, sep: char)
    ensures var last := Last(Split(s, sep));
      sep !in last && EndsWith(s, last) &&
      (|last| < |s| ==> s[|s| - |last| - 1] == sep) &&
      (sep in s ==> |last| < |s|)
  {
    var parts := Split(s, sep);
    var last := Last(parts);
    SplitPiecesHaveNoSep(s, sep);
    JoinSplit(s, sep);
    assert |last| == |s| ==> s[|s| - |last|..] == s;
    if |parts| > 1 {
      JoinLast(parts, sep);
      var init := Join(parts[..|parts| - 1], sep);
      assert s == init + [sep] + last;
      assert s[|s| - |last|..] == last;
      assert s[|s| - |last| - 1] == sep;
    }
  }

  // ---------------------------------------------------------------------
  // str.lower, restricted to ASCII letters

  function LowerChar(c: char): char
  {
    if 'A' <= c <= 'Z' then (c as int - 'A' as int + 'a' as int) as char else c
  }

  /** `s.lower()` for ASCII: the same length, each letter lowered in place. */
  function Lower(s: string): (r: string)
    ensures |r| == |s|
    ensures forall k :: 0 <= k < |s| ==> r[k] == LowerChar(s[k])
    decreases |s|
  {
    if |s| == 0 then "" else [LowerChar(s[0])] + Lower(s[1..])
  }

  /** Lowering keeps every occurrence of an already-lower-case string, so
      `"test" in s` implies `"test" in s.lower()`. */
  lemma LowerKeepsLowerCase(s: string, sub: string)
    requires Contains(s, sub)
    requires forall k :: 0 <= k < |sub| ==> LowerChar(sub[k]) == sub[k]
    ensures Contains(Lower(s), sub)
  {
    ContainsIff(s, sub);
    var i :| OccursAt(s, sub, i);
    var l := Lower(s);
    assert l[i..i + |sub|] == sub by {
      forall k | 0 <= k < |sub| ensures l[i..i + |sub|][k] == sub[k] {
        assert s[i..i + |sub|][k] == sub[k];
      }
    }
    ContainsAt(l, sub, i);
  }

  // ---------------------------------------------------------------------
  // str.strip with no argument

  /** The code points for which Python's `str.isspace()` holds. */
  predicate IsSpace(c: char)
  {
    ('\t' <= c <= '\r') || ('\U{1C}' <= c <= ' ') || c == '\U{85}' || c == '\U{A0}' ||
    c == '\U{1680}' || ('\U{2000}' <= c <= '\U{200A}') || c == '\U{2028}' || c == '\U{2029}' ||
    c == '\U{202F}' || c == '\U{205F}' || c == '\U{3000}'
  }

  predicate AllSpace(s: string)
  {
    forall k :: 0 <= k < |s| ==> IsSpace(s[k])
  }

  /** The number of whitespace characters `s` starts with. */
  function LeadingSpace(s: string): (n: nat)
    ensures n <= |s|
    decreases |s|
  {
    if |s| > 0 && IsSpace(s[0]) then 1 + LeadingSpace(s[1..]) else 0
  }

  /** The number of whitespace characters `s` ends with. */
  function TrailingSpace(s: string): (n: nat)
    ensures n <= |s|
    decreases |s|
  {
    if |s| > 0 && IsSpace(s[|s| - 1]) then 1 + TrailingSpace(s[..|s| - 1]) else 0
  }

  /** The leading run is all whitespace and is followed by a character that is not. */
  lemma {:induction false} LeadingSpaceSpec(s: string)
    ensures var n := LeadingSpace(s);
      AllSpace(s[..n]) && (n < |s| ==> !IsSpace(s[n]))
    decreases |s|
  {
    if |s| > 0 && IsSpace(s[0]) {
      var t := s[1..];
      LeadingSpaceSpec(t);
      var n := LeadingSpace(s);
      forall k | 0 <= k < n ensures IsSpace(s[..n][k]) {
        if k > 0 {
          assert s[..n][k] == t[..n - 1][k - 1];
        }
      }
      if n < |s| {
        assert s[n] == t[n - 1];
      }
    }
  }

  /** The trailing run is all whitespace and is preceded by a character that is not. */
  lemma {:induction false} TrailingSpaceSpec(s: string)
    ensures var m := TrailingSpace(s);
      AllSpace(s[|s| - m..]) && (m < |s| ==> !IsSpace(s[|s| - m - 1]))
    decreases |s|
  {
    if |s| > 0 && IsSpace(s[|s| - 1]) {
      var p := s[..|s| - 1];
      TrailingSpaceSpec(p);
      var m := TrailingSpace(s);
      var tail, tailOfP := s[|s| - m..], p[|p| - (m - 1)..];
      forall k | 0 <= k < m ensures IsSpace(tail[k]) {
        if k < m - 1 {
          assert tail[k] == tailOfP[k];
        }
      }
      if m < |s| {
        assert s[|s| - m - 1] == p[|p| - (m - 1) - 1];
      }
    }
  }

  /** `s.lstrip()` */
  function TrimLeft(s: string): string
  {
    s[LeadingSpace(s)..]
  }

  /** `s.rstrip()` */
  function TrimRight(s: string): string
  {
    s[..|s| - TrailingSpace(s)]
  }

  /** `s.strip()` */
  function Strip(s: string): string
  {
    TrimRight(TrimLeft(s))
  }

  /** `s.strip()` is empty exactly when `s` is all whitespace. */
  lemma StripEmptyIff(s: string)
    ensures Strip(s) == "" <==> AllSpace(s)
  {
    var n := LeadingSpace(s);
    var l := s[n..];
    var m := TrailingSpace(l);
    LeadingSpaceSpec(s);
    TrailingSpaceSpec(l);
    assert Strip(s) == l[..|l| - m];
    if Strip(s) == "" {
      assert s[..n] == s;
    }
  }

  /** A non-empty `s.strip()` starts right after a whitespace-only prefix of `s`. */
  lemma StripAfterLeadingSpace(s: string)
    requires Strip(s) != ""
    ensures exists i :: 0 <= i < |s| && AllSpace(s[..i]) && StartsWith(s[i..], Strip(s))
  {
    var n := LeadingSpace(s);
    var l := s[n..];
    var t := Strip(s);
    LeadingSpaceSpec(s);
    assert t == l[..|t|];
    assert StartsWith(s[n..], t);
  }

  /** `s.strip()` is empty exactly for all-whitespace `s`, and otherwise
      begins right after a whitespace-only prefix. */
  lemma StripSpec(s: string)
    ensures Strip(s) == "" <==> AllSpace(s)
    ensures Strip(s) != "" ==> exists i :: 0 <= i < |s| && AllSpace(s[..i]) && StartsWith(s[i..], Strip(s))
  {
    StripEmptyIff(s);
    if Strip(s) != "" {
      StripAfterLeadingSpace(s);
    }
  }
}
