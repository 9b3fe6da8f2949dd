/**
 Ruby's `String#gsub(pattern, replacement)` with a literal string pattern:
 the leftmost occurrence is replaced, and scanning resumes just after it, so
 occurrences never overlap and replaced text is never rescanned.
 */
module Gsub {
  import opened Bytes

  /** `pat` occurs in `s` starting at index `i`. */
  predicate OccursAt(s: Bytes, pat: Bytes, i: int)
  {
    0 <= i && i + |pat| <= |s| && s[i..i + |pat|] == pat
  }

  /**
   The scan behind `gsub`: where the pattern starts, the replacement is
   written and scanning resumes after the occurrence; elsewhere one byte is
   copied and scanning moves on by one.
   */
  function Scan(s: Bytes, pat: Bytes, rep: Bytes): (r: Bytes)
    requires |pat| > 0
    decreases |s|
  {
    if |s| < |pat| then s
    else if s[..|pat|] == pat then rep + Scan(s[|pat|..], pat, rep)
    else [s[0]] + Scan(s[1..], pat, rep)
  }

  /** The scan copies text that does not hold the pattern's first byte. */
  lemma {:induction false} ScanFree(s: Bytes, pat: Bytes, rep: Bytes)
    requires |pat| > 0
    ensures Free(s, pat[0]) ==> Scan(s, pat, rep) == s
    decreases |s|
  {
    if Free(s, pat[0]) && |s| >= |pat| {
      assert s[..|pat|][0] == s[0];
      FreeTail(s, pat[0]);
      ScanFree(s[1..], pat, rep);
    }
  }

  /** Every occurrence of `pat` in `s` replaced by `rep`; text without the pattern's first byte is copied unchanged. */
  function ReplaceAll(s: Bytes, pat: Bytes, rep: Bytes): (r: Bytes)
    requires |pat| > 0
    ensures Free(s, pat[0]) ==> r == s
  {
    ScanFree(s, pat, rep);
    Scan(s, pat, rep)
  }

  /** A one-byte pattern is replaced independently in each part of a concatenation. */
  lemma {:induction false} ReplaceByteAppend(a: Bytes, b: Bytes, pat: Bytes, rep: Bytes)
    requires |pat| == 1
    ensures ReplaceAll(a + b, pat, rep) == ReplaceAll(a, pat, rep) + ReplaceAll(b, pat, rep)
    decreases |a|
  {
    if |a| > 0 {
      var t := a[1..];
      ReplaceByteAppend(t, b, pat, rep);
      assert a == [a[0]] + t && a + b == [a[0]] + (t + b);
      if a[0] == pat[0] {
        assert pat == [a[0]];
        ReplaceAllAtPattern(t, pat, rep);
        ReplaceAllAtPattern(t + b, pat, rep);
      } else {
        ReplaceAllSkipsFirst(a[0], t, pat, rep);
        ReplaceAllSkipsFirst(a[0], t + b, pat, rep);
      }
    } else {
      assert a + b == b;
    }
  }

  /** A byte other than the pattern's first is copied, and scanning moves on. */
  lemma ReplaceAllSkipsFirst(x: byte, u: Bytes, pat: Bytes, rep: Bytes)
    requires |pat| > 0 && x != pat[0]
    ensures ReplaceAll([x] + u, pat, rep) == [x] + ReplaceAll(u, pat, rep)
  {
    var s := [x] + u;
    assert s[1..] == u;
    if |pat| <= |s| {
      assert s[..|pat|][0] == x;
    }
  }

  /** A byte other than the pattern's first is copied in front of text whose prefix is already copied. */
  lemma ReplaceAllSkipsByte(x: byte, t: Bytes, b: Bytes, pat: Bytes, rep: Bytes)
    requires |pat| > 0 && x != pat[0]
    requires ReplaceAll(t + b, pat, rep) == t + ReplaceAll(b, pat, rep)
    ensures ReplaceAll([x] + t + b, pat, rep) == [x] + t + ReplaceAll(b, pat, rep)
  {
    assert [x] + t + b == [x] + (t + b);
    ReplaceAllSkipsFirst(x, t + b, pat, rep);
  }

  /** The tail of a string without `b` is without `b`. */
  lemma FreeTail(s: Bytes, b: byte)
    requires |s| > 0 && Free(s, b)
    ensures Free(s[1..], b)
  {
    forall i | 0 <= i < |s| - 1 ensures s[1..][i] != b {
      assert s[1..][i] == s[i + 1];
    }
  }

  /** Text that does not contain the pattern's first byte is copied through, whatever follows it. */
  lemma {:induction false} ReplaceAllSkipsPrefix(a: Bytes, b: Bytes, pat: Bytes, rep: Bytes)
    requires |pat| > 0
    requires Free(a, pat[0])
    ensures ReplaceAll(a + b, pat, rep) == a + ReplaceAll(b, pat, rep)
    decreases |a|
  {
    if |a| > 0 {
      var t := a[1..];
      FreeTail(a, pat[0]);
      ReplaceAllSkipsPrefix(t, b, pat, rep);
      ReplaceAllSkipsByte(a[0], t, b, pat, rep);
      assert a == [a[0]] + t;
    } else {
      assert a + b == b;
    }
  }

  /** Text that starts with the pattern has that occurrence replaced first. */
  lemma ReplaceAllAtPattern(b: Bytes, pat: Bytes, rep: Bytes)
    requires |pat| > 0
    ensures ReplaceAll(pat + b, pat, rep) == rep + ReplaceAll(b, pat, rep)
  {
    assert (pat + b)[..|pat|] == pat;
    assert (pat + b)[|pat|..] == b;
  }

  /** The result holds no byte that neither the text nor the replacement holds. */
  lemma {:induction false} ReplaceAllKeepsFree(s: Bytes, pat: Bytes, rep: Bytes, b: byte)
    requires |pat| > 0 && Free(s, b) && Free(rep, b)
    ensures Free(ReplaceAll(s, pat, rep), b)
    decreases |s|
  {
    if |s| >= |pat| {
      if s[..|pat|] == pat {
        ReplaceAllKeepsFree(s[|pat|..], pat, rep, b);
      } else {
        ReplaceAllKeepsFree(s[1..], pat, rep, b);
      }
    }
  }

  /** The occurrences of `pat` in `s[1..]` are those of `s` one place further on. */
  lemma OccursAtTail(s: Bytes, pat: Bytes, i: int)
    requires |s| > 0 && 0 <= i
    ensures OccursAt(s[1..], pat, i) <==> OccursAt(s, pat, i + 1)
  {
    if i + |pat| <= |s| - 1 {
      assert s[1..][i..i + |pat|] == s[i + 1..i + 1 + |pat|];
    }
  }

  /** Where `pat` does not start at the first byte, that byte is copied and scanning moves on. */
  lemma ReplaceAllNoMatchAtStart(s: Bytes, pat: Bytes, rep: Bytes)
    requires |pat| > 0 && |s| > 0 && !OccursAt(s, pat, 0)
    ensures ReplaceAll(s, pat, rep) == [s[0]] + ReplaceAll(s[1..], pat, rep)
  {
  }

  /** Where the pattern starts nowhere among the first `n` positions of `s`, it starts nowhere among the first `n - 1` of `s[1..]`. */
  lemma NoOccurrenceTail(s: Bytes, pat: Bytes, n: int)
    requires |s| > 0
    requires forall i :: 0 <= i < n ==> !OccursAt(s, pat, i)
    ensures forall i :: 0 <= i < n - 1 ==> !OccursAt(s[1..], pat, i)
  {
    forall i | 0 <= i < n - 1
      ensures !OccursAt(s[1..], pat, i)
    {
      OccursAtTail(s, pat, i);
    }
  }

  /** Text in which `pat` never occurs comes through `gsub` unchanged. */
  lemma {:induction false} ReplaceAllNoOccurrence(s: Bytes, pat: Bytes, rep: Bytes)
    requires |pat| > 0
    requires forall i :: 0 <= i < |s| ==> !OccursAt(s, pat, i)
    ensures ReplaceAll(s, pat, rep) == s
    decreases |s|
  {
    if |s| > 0 {
      ReplaceAllNoMatchAtStart(s, pat, rep);
      NoOccurrenceTail(s, pat, |s|);
      ReplaceAllNoOccurrence(s[1..], pat, rep);
      assert [s[0]] + s[1..] == s;
    }
  }

  /** Text before the first occurrence of the pattern is copied. */
  lemma {:induction false} ReplaceAllCopiesPrefix(a: Bytes, c: Bytes, pat: Bytes, rep: Bytes)
    requires |pat| > 0
    requires forall i :: 0 <= i < |a| ==> !OccursAt(a + c, pat, i)
    ensures ReplaceAll(a + c, pat, rep) == a + ReplaceAll(c, pat, rep)
    decreases |a|
  {
    if |a| > 0 {
      var s, t := a + c, a[1..];
      ReplaceAllNoMatchAtStart(s, pat, rep);
      NoOccurrenceTail(s, pat, |a|);
      assert s[1..] == t + c;
      ReplaceAllCopiesPrefix(t, c, pat, rep);
      assert [a[0]] + t == a;
    } else {
      assert a + c == c;
    }
  }

  /**
   The leftmost occurrence is replaced first and scanning resumes after it:
   when `pat` does not start anywhere inside `a`, `gsub` copies `a`, writes
   `rep` for the occurrence that follows it, and goes on with `b`.
   */
  lemma ReplaceAllLeftmost(a: Bytes, b: Bytes, pat: Bytes, rep: Bytes)
    requires |pat| > 0
    requires forall i :: 0 <= i < |a| ==> !OccursAt(a + pat + b, pat, i)
    ensures ReplaceAll(a + pat + b, pat, rep) == a + rep + ReplaceAll(b, pat, rep)
  {
    assert a + pat + b == a + (pat + b);
    ReplaceAllCopiesPrefix(a, pat + b, pat, rep);
    ReplaceAllAtPattern(b, pat, rep);
  }

  /** With a one-byte pattern, `gsub` substitutes `rep` for that byte wherever it stands. */
  lemma {:induction false} ReplaceByteIsFlatMap(s: Bytes, p: byte, rep: Bytes)
    ensures ReplaceAll(s, [p], rep) == FlatMap(b => if b == p then rep else [b], s)
    decreases |s|
  {
    if |s| > 0 {
      ReplaceByteIsFlatMap(s[1..], p, rep);
    }
  }
}
