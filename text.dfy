/**
 * Python string operations the merge engine relies on: `m in s`,
 * `s.replace(m, n)`, `s.endswith(x)`, `s.split('\n')`, `s.strip()` and
 * `"".join(...)`, written out over `seq<char>`.
 */
module Text {

  // ---------------------------------------------------------------------------
  // Substring search: Python's `m in s`
  // ---------------------------------------------------------------------------

  /** `m in s`: m occurs in s as a contiguous substring (always true for m == ""). */
  predicate Contains(s: string, m: string)
    decreases |s|
  {
    m <= s || (|s| > 0 && Contains(s[1..], m))
  }

  /** m occurs in s starting at position i. */
  predicate OccursAt(s: string, m: string, i: int)
  {
    0 <= i && i + |m| <= |s| && s[i..i + |m|] == m
  }

  lemma OccursAtStart(s: string, m: string)
    ensures OccursAt(s, m, 0) <==> m <= s
  {
  }

  /** Contains agrees with the positional definition of a substring. */
  lemma {:induction false} ContainsIffOccurs(s: string, m: string)
    ensures Contains(s, m) <==> exists i :: OccursAt(s, m, i)
    decreases |s|
  {
    OccursAtStart(s, m);
    if m <= s {
      assert OccursAt(s, m, 0);
    } else if |s| > 0 {
      ContainsIffOccurs(s[1..], m);
      if Contains(s[1..], m) {
        var i :| OccursAt(s[1..], m, i);
        assert s[i + 1..i + 1 + |m|] == s[1..][i..i + |m|];
        assert OccursAt(s, m, i + 1);
      }
      if exists i :: OccursAt(s, m, i) {
        var i :| OccursAt(s, m, i);
        assert s[1..][i - 1..i - 1 + |m|] == s[i..i + |m|];
        assert OccursAt(s[1..], m, i - 1);
      }
    }
  }

  /** A substring of either half is a substring of the concatenation. */
  lemma ContainsConcat(a: string, b: string, m: string)
    ensures Contains(a, m) ==> Contains(a + b, m)
    ensures Contains(b, m) ==> Contains(a + b, m)
  {
    ContainsIffOccurs(a, m);
    ContainsIffOccurs(b, m);
    ContainsIffOccurs(a + b, m);
    if Contains(a, m) {
      var i :| OccursAt(a, m, i);
      assert (a + b)[i..i + |m|] == a[i..i + |m|];
      assert OccursAt(a + b, m, i);
    }
    if Contains(b, m) {
      var i :| OccursAt(b, m, i);
      assert (a + b)[|a| + i..|a| + i + |m|] == b[i..i + |m|];
      assert OccursAt(a + b, m, |a| + i);
    }
  }

  // ---------------------------------------------------------------------------
  // Python's `s.replace(pat, rep)` (all occurrences, left to right)
  // ---------------------------------------------------------------------------

  /**
   * `s.replace(pat, rep)`: non-overlapping occurrences of a non-empty pat are
   * replaced scanning left to right; an empty pat inserts rep before every
   * character and at the end, as Python does.
   */
  function Replace(s: string, pat: string, rep: string): string
    decreases |s|
  {
    if |pat| == 0 then ReplaceEmpty(s, rep)
    else if pat <= s then rep + Replace(s[|pat|..], pat, rep)
    else if |s| == 0 then []
    else [s[0]] + Replace(s[1..], pat, rep)
  }

  /** `s.replace("", rep)`. */
  function ReplaceEmpty(s: string, rep: string): string
    decreases |s|
  {
    if |s| == 0 then rep else rep + [s[0]] + ReplaceEmpty(s[1..], rep)
  }

  /** Replacing a pattern that does not occur leaves the string as it was. */
  lemma {:induction false} ReplaceAbsent(s: string, pat: string, rep: string)
    requires !Contains(s, pat)
    ensures Replace(s, pat, rep) == s
    decreases |s|
  {
    if |s| > 0 {
      ReplaceAbsent(s[1..], pat, rep);
      assert s == [s[0]] + s[1..];
    }
  }

  // ---------------------------------------------------------------------------
  // Python's `s.endswith(suffix)`
  // ---------------------------------------------------------------------------

  predicate EndsWith(s: string, suffix: string)
  {
    |suffix| <= |s| && s[|s| - |suffix|..] == suffix
  }

  // ---------------------------------------------------------------------------
  // Python's `s.split('\n')` and its inverse `'\n'.join(parts)`
  // ---------------------------------------------------------------------------

  /** `s.split('\n')`: always at least one piece, no piece holds a newline. */
  function SplitLines(s: string): (parts: seq<string>)
    ensures |parts| >= 1
    ensures forall k :: 0 <= k < |parts| ==> '\n' !in parts[k]
    decreases |s|
  {
    if |s| == 0 then [""]
    else
      var rest := SplitLines(s[1..]);
      if s[0] == '\n' then [""] + rest
      else [[s[0]] + rest[0]] + rest[1..]
  }

  /** `'\n'.join(parts)`. */
  function JoinLines(parts: seq<string>): string
    decreases |parts|
  {
    if |parts| == 0 then ""
    else if |parts| == 1 then parts[0]
    else parts[0] + "\n" + JoinLines(parts[1..])
  }

  /** Splitting on newlines and joining back with newlines is the identity. */
  lemma {:induction false} SplitJoinRoundTrip(s: string)
    ensures JoinLines(SplitLines(s)) == s
    decreases |s|
  {
    if |s| > 0 {
      SplitJoinRoundTrip(s[1..]);
      var rest := SplitLines(s[1..]);
      if s[0] == '\n' {
        assert SplitLines(s) == [""] + rest;
        assert JoinLines([""] + rest) == "" + "\n" + JoinLines(rest);
        assert s == "\n" + s[1..];
      } else {
        var parts := [[s[0]] + rest[0]] + rest[1..];
        assert SplitLines(s) == parts;
        if |rest| == 1 {
          assert JoinLines(parts) == [s[0]] + rest[0];
          assert s == [s[0]] + s[1..];
        } else {
          assert parts[1..] == rest[1..];
          assert JoinLines(rest) == rest[0] + "\n" + JoinLines(rest[1..]);
          assert JoinLines(parts) == ([s[0]] + rest[0]) + "\n" + JoinLines(rest[1..]);
          assert s == [s[0]] + s[1..];
        }
      }
    }
  }

  /** A piece without newlines splits into itself. */
  lemma {:induction false} SplitNoNewline(s: string)
    requires '\n' !in s
    ensures SplitLines(s) == [s]
    decreases |s|
  {
    if |s| > 0 {
      assert '\n' !in s[1..] by {
        forall k | 0 <= k < |s| - 1 ensures s[1..][k] != '\n' {
          assert s[1..][k] == s[k + 1];
        }
      }
      SplitNoNewline(s[1..]);
      assert s == [s[0]] + s[1..];
    }
  }

  /** A newline after a newline-free prefix ends the first piece. */
  lemma {:induction false} SplitAtNewline(a: string, b: string)
    requires '\n' !in a
    ensures SplitLines(a + "\n" + b) == [a] + SplitLines(b)
    decreases |a|
  {
    var s := a + "\n" + b;
    if |a| == 0 {
      assert s[1..] == b;
    } else {
      assert '\n' !in a[1..] by {
        forall k | 0 <= k < |a| - 1 ensures a[1..][k] != '\n' {
          assert a[1..][k] == a[k + 1];
        }
      }
      SplitAtNewline(a[1..], b);
      assert s[1..] == a[1..] + "\n" + b;
      assert [s[0]] + a[1..] == a;
    }
  }

  /** Joining newline-free pieces with newlines and splitting again gives the pieces back. */
  lemma {:induction false} JoinSplitRoundTrip(parts: seq<string>)
    requires |parts| >= 1
    requires forall k :: 0 <= k < |parts| ==> '\n' !in parts[k]
    ensures SplitLines(JoinLines(parts)) == parts
    decreases |parts|
  {
    if |parts| == 1 {
      SplitNoNewline(parts[0]);
    } else {
      JoinSplitRoundTrip(parts[1..]);
      SplitAtNewline(parts[0], JoinLines(parts[1..]));
      assert parts == [parts[0]] + parts[1..];
    }
  }

  // ---------------------------------------------------------------------------
  // Python's `s.strip()`
  // ---------------------------------------------------------------------------

  /** Python's `str.isspace()` for one character. */
  predicate IsSpace(c: char)
  {
    var n := c as int;
    (9 <= n <= 13) || (28 <= n <= 32) || n == 0x85 || n == 0xA0 || n == 0x1680
    || (0x2000 <= n <= 0x200A) || n == 0x2028 || n == 0x2029 || n == 0x202F
    || n == 0x205F || n == 0x3000
  }

  predicate AllSpace(s: string)
  {
    forall k :: 0 <= k < |s| ==> IsSpace(s[k])
  }

  function StripLeft(s: string): string
    decreases |s|
  {
    if |s| > 0 && IsSpace(s[0]) then StripLeft(s[1..]) else s
  }

  function StripRight(s: string): string
    decreases |s|
  {
    if |s| > 0 && IsSpace(s[|s| - 1]) then StripRight(s[..|s| - 1]) else s
  }

  /** `s.strip()`: leading and trailing whitespace removed. */
  function Strip(s: string): string
  {
    StripRight(StripLeft(s))
  }

  lemma {:induction false} StripLeftSlice(s: string)
    ensures |StripLeft(s)| <= |s|
    ensures StripLeft(s) == s[|s| - |StripLeft(s)|..]
    ensures AllSpace(s[..|s| - |StripLeft(s)|])
    ensures |StripLeft(s)| > 0 ==> !IsSpace(StripLeft(s)[0])
    decreases |s|
  {
    if |s| > 0 && IsSpace(s[0]) {
      var t := s[1..];
      StripLeftSlice(t);
      var i := |t| - |StripLeft(t)|;
      assert t[i..] == s[i + 1..];
      var p := s[..i + 1];
      assert AllSpace(p) by {
        forall k | 0 <= k < |p| ensures IsSpace(p[k]) {
          if k > 0 { assert p[k] == t[..i][k - 1]; }
        }
      }
    }
  }

  lemma {:induction false} StripRightSlice(s: string)
    ensures |StripRight(s)| <= |s|
    ensures StripRight(s) == s[..|StripRight(s)|]
    ensures AllSpace(s[|StripRight(s)|..])
    ensures |StripRight(s)| > 0 ==> !IsSpace(StripRight(s)[|StripRight(s)| - 1])
    decreases |s|
  {
    if |s| > 0 && IsSpace(s[|s| - 1]) {
      var t := s[..|s| - 1];
      StripRightSlice(t);
      var j := |StripRight(t)|;
      assert t[..j] == s[..j];
      assert AllSpace(s[j..]) by {
        forall k | 0 <= k < |s| - j ensures IsSpace(s[j..][k]) {
          if k < |t| - j { assert s[j..][k] == t[j..][k]; }
        }
      }
    }
  }

  /**
   * `s.strip()` is a contiguous slice of s obtained by cutting whitespace only
   * from both ends, and what remains neither starts nor ends with whitespace.
   */
  lemma StripIsTrimmedSlice(s: string)
    ensures exists i, j :: 0 <= i <= j <= |s| && Strip(s) == s[i..j]
                           && AllSpace(s[..i]) && AllSpace(s[j..])
    ensures |Strip(s)| > 0 ==> !IsSpace(Strip(s)[0]) && !IsSpace(Strip(s)[|Strip(s)| - 1])
  {
    var l := StripLeft(s);
    StripLeftSlice(s);
    StripRightSlice(l);
    var i := |s| - |l|;
    var j := i + |Strip(s)|;
    assert Strip(s) == l[..|Strip(s)|];
    assert l[..|Strip(s)|] == s[i..j];
    assert AllSpace(s[j..]) by {
      forall k | 0 <= k < |s| - j ensures IsSpace(s[j..][k]) {
        assert s[j..][k] == l[|Strip(s)|..][k];
      }
    }
    assert 0 <= i <= j <= |s| && Strip(s) == s[i..j] && AllSpace(s[..i]) && AllSpace(s[j..]);
    if |Strip(s)| > 0 {
      assert Strip(s)[0] == l[0];
    }
  }

  /** Stripping twice strips no more than stripping once. */
  lemma StripIdempotent(s: string)
    ensures Strip(Strip(s)) == Strip(s)
  {
    var t := Strip(s);
    StripIsTrimmedSlice(s);
    if |t| > 0 {
      assert StripLeft(t) == t;
      assert StripRight(t) == t;
    }
  }

  /** Stripping keeps a slice of the string, so it adds no newline. */
  lemma StripNoNewline(s: string)
    requires '\n' !in s
    ensures '\n' !in Strip(s)
  {
    StripIsTrimmedSlice(s);
    var i, j :| 0 <= i <= j <= |s| && Strip(s) == s[i..j];
    forall k | 0 <= k < j - i ensures s[i..j][k] != '\n' {
      assert s[i..j][k] == s[i + k];
    }
  }

  // ---------------------------------------------------------------------------
  // Sequences of strings
  // ---------------------------------------------------------------------------

  /** `"".join(parts)`. */
  function Concat(parts: seq<string>): string
    decreases |parts|
  {
    if |parts| == 0 then "" else parts[0] + Concat(parts[1..])
  }

  /** Joining two lists of strings one after the other joins their joins. */
  lemma {:induction false} ConcatAppend(xs: seq<string>, ys: seq<string>)
    ensures Concat(xs + ys) == Concat(xs) + Concat(ys)
    decreases |xs|
  {
    if |xs| > 0 {
      assert (xs + ys)[1..] == xs[1..] + ys;
      ConcatAppend(xs[1..], ys);
    } else {
      assert xs + ys == ys;
    }
  }
}
