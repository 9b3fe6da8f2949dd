/**
 Ruby's `String#split("/")` and `Array#join("/")` on byte strings.

 `split` cuts at every separator, keeps leading and inner empty fields, and
 drops trailing empty fields, so the empty string and `"/"` both split to no
 fields at all.  `join` puts one separator between consecutive fields.
 */
module Segments {
  import opened Bytes

  /** Every field between separators, including empty ones: `|SplitAll(s)|` is one more than the number of separators in `s`. */
  function SplitAll(s: Bytes, sep: byte): (fields: seq<Bytes>)
    ensures |fields| > 0
    ensures forall i :: 0 <= i < |fields| ==> Free(fields[i], sep)
    decreases |s|
  {
    if |s| == 0 then [[]]
    else
      var init := SplitAll(s[..|s| - 1], sep);
      if s[|s| - 1] == sep then init + [[]]
      else init[..|init| - 1] + [init[|init| - 1] + [s[|s| - 1]]]
  }

  /** Drops the empty fields at the end of `fields`. */
  function DropTrailingEmpty(fields: seq<Bytes>): (kept: seq<Bytes>)
    ensures kept <= fields
    ensures |kept| == 0 || kept[|kept| - 1] != []
    ensures forall i :: |kept| <= i < |fields| ==> fields[i] == []
  {
    if |fields| > 0 && fields[|fields| - 1] == [] then DropTrailingEmpty(fields[..|fields| - 1])
    else fields
  }

  /** Ruby's `s.split(sep)` for a one-byte separator. */
  function RubySplit(s: Bytes, sep: byte): (fields: seq<Bytes>)
    ensures forall i :: 0 <= i < |fields| ==> Free(fields[i], sep)
    ensures |fields| == 0 || fields[|fields| - 1] != []
  {
    DropTrailingEmpty(SplitAll(s, sep))
  }

  /** A string without the separator is a single field. */
  lemma {:induction false} SplitAllFree(s: Bytes, sep: byte)
    ensures Free(s, sep) ==> SplitAll(s, sep) == [s]
    decreases |s|
  {
    if |s| > 0 && Free(s, sep) {
      SplitAllFree(s[..|s| - 1], sep);
      assert s[..|s| - 1] + [s[|s| - 1]] == s;
    }
  }

  /** One more byte either opens a new field or extends the last one. */
  lemma SplitAllSnoc(s: Bytes, c: byte, sep: byte)
    ensures var init := SplitAll(s, sep);
      SplitAll(s + [c], sep) == if c == sep then init + [[]] else init[..|init| - 1] + [init[|init| - 1] + [c]]
  {
    assert (s + [c])[..|s + [c]| - 1] == s;
  }

  /** Extending the last field of `a + b` extends the last field of `b`. */
  lemma ExtendLastOfAppend(a: seq<Bytes>, b: seq<Bytes>, c: byte)
    requires |b| > 0
    ensures var ab := a + b;
      ab[..|ab| - 1] + [ab[|ab| - 1] + [c]] == a + (b[..|b| - 1] + [b[|b| - 1] + [c]])
  {
    var ab := a + b;
    assert ab[..|ab| - 1] == a + b[..|b| - 1];
    assert ab[|ab| - 1] == b[|b| - 1];
  }

  /** A separator splits the fields of what precedes it from the fields of what follows it. */
  lemma {:induction false} SplitAllAppend(x: Bytes, y: Bytes, sep: byte)
    ensures SplitAll(x + [sep] + y, sep) == SplitAll(x, sep) + SplitAll(y, sep)
    decreases |y|
  {
    if |y| == 0 {
      assert x + [sep] + y == x + [sep];
      SplitAllSnoc(x, sep, sep);
    } else {
      var y', c := y[..|y| - 1], y[|y| - 1];
      assert y == y' + [c];
      assert x + [sep] + y == (x + [sep] + y') + [c];
      SplitAllAppend(x, y', sep);
      SplitAllSnoc(x + [sep] + y', c, sep);
      SplitAllSnoc(y', c, sep);
      var a, b := SplitAll(x, sep), SplitAll(y', sep);
      if c != sep {
        ExtendLastOfAppend(a, b, c);
      } else {
        assert (a + b) + [[]] == a + (b + [[]]);
      }
    }
  }

  /** Ruby's `fields.join(sep)`. */
  function Join(fields: seq<Bytes>, sep: byte): (s: Bytes)
  {
    if |fields| == 0 then []
    else if |fields| == 1 then fields[0]
    else fields[0] + [sep] + Join(fields[1..], sep)
  }

  /** Splitting a join at every separator gives back its fields, when none of them holds the separator. */
  lemma {:induction false} SplitAllJoin(fields: seq<Bytes>, sep: byte)
    requires |fields| > 0
    requires forall i :: 0 <= i < |fields| ==> Free(fields[i], sep)
    ensures SplitAll(Join(fields, sep), sep) == fields
    decreases |fields|
  {
    SplitAllFree(fields[0], sep);
    if |fields| > 1 {
      SplitAllJoin(fields[1..], sep);
      SplitAllAppend(fields[0], Join(fields[1..], sep), sep);
      assert [fields[0]] + fields[1..] == fields;
    }
  }

  /** Ruby's `split` undoes `join` on separator-free fields whose last field is not empty. */
  lemma RubySplitJoin(fields: seq<Bytes>, sep: byte)
    requires |fields| > 0 && fields[|fields| - 1] != []
    requires forall i :: 0 <= i < |fields| ==> Free(fields[i], sep)
    ensures RubySplit(Join(fields, sep), sep) == fields
  {
    SplitAllJoin(fields, sep);
  }

  /** `s` with every separator at its end removed. */
  function StripTrailing(s: Bytes, sep: byte): (r: Bytes)
    ensures r <= s
    ensures |r| == 0 || r[|r| - 1] != sep
    ensures forall i :: |r| <= i < |s| ==> s[i] == sep
  {
    if |s| > 0 && s[|s| - 1] == sep then StripTrailing(s[..|s| - 1], sep) else s
  }

  /** Appending a field to a non-empty list appends a separator and that field to the join. */
  lemma JoinSnoc(fields: seq<Bytes>, last: Bytes, sep: byte)
    requires |fields| > 0
    ensures Join(fields + [last], sep) == Join(fields, sep) + [sep] + last
  {
    if |fields| == 1 {
      assert fields + [last] == [fields[0], last];
    } else {
      assert (fields + [last])[1..] == fields[1..] + [last];
      JoinSnoc(fields[1..], last, sep);
    }
  }

  /** Extending the last field by a byte extends the join by that byte. */
  lemma JoinExtendLast(fields: seq<Bytes>, b: byte, sep: byte)
    requires |fields| > 0
    ensures Join(fields[..|fields| - 1] + [fields[|fields| - 1] + [b]], sep) == Join(fields, sep) + [b]
  {
    var n := |fields|;
    if n == 1 {
      assert fields[..0] + [fields[0] + [b]] == [fields[0] + [b]];
    } else {
      var init := fields[..n - 1];
      JoinSnoc(init, fields[n - 1] + [b], sep);
      JoinSnoc(init, fields[n - 1], sep);
      assert init + [fields[n - 1]] == fields;
    }
  }

  /** Joining every field of a string gives the string back. */
  lemma {:induction false} JoinSplitAll(s: Bytes, sep: byte)
    ensures Join(SplitAll(s, sep), sep) == s
    decreases |s|
  {
    if |s| > 0 {
      var init := SplitAll(s[..|s| - 1], sep);
      JoinSplitAll(s[..|s| - 1], sep);
      if s[|s| - 1] == sep {
        JoinSnoc(init, [], sep);
      } else {
        JoinExtendLast(init, s[|s| - 1], sep);
      }
      assert s[..|s| - 1] + [s[|s| - 1]] == s;
    }
  }

  /** The last field is empty exactly when the string is empty or ends with the separator. */
  lemma {:induction false} SplitAllLastEmpty(s: Bytes, sep: byte)
    ensures var f := SplitAll(s, sep); f[|f| - 1] == [] <==> (|s| == 0 || s[|s| - 1] == sep)
  {
  }

  /** Splitting `s` and joining the fields loses exactly the trailing separators. */
  lemma {:induction false} JoinRubySplit(s: Bytes, sep: byte)
    ensures Join(RubySplit(s, sep), sep) == StripTrailing(s, sep)
    decreases |s|
  {
    var f := SplitAll(s, sep);
    if |s| == 0 {
    } else if s[|s| - 1] == sep {
      var init := s[..|s| - 1];
      assert f == SplitAll(init, sep) + [[]];
      assert f[..|f| - 1] == SplitAll(init, sep);
      assert RubySplit(s, sep) == RubySplit(init, sep);
      JoinRubySplit(init, sep);
    } else {
      SplitAllLastEmpty(s, sep);
      JoinSplitAll(s, sep);
    }
  }

  /** A string that does not end with the separator survives split-then-join unchanged. */
  lemma JoinRubySplitIdentity(s: Bytes, sep: byte)
    requires |s| == 0 || s[|s| - 1] != sep
    ensures Join(RubySplit(s, sep), sep) == s
  {
    JoinRubySplit(s, sep);
  }

  /** A string that does not end in the separator has nothing to strip. */
  lemma StripTrailingNoop(s: Bytes, sep: byte)
    requires |s| == 0 || s[|s| - 1] != sep
    ensures StripTrailing(s, sep) == s
  {
  }
}
