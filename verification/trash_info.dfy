/**
 The `.trashinfo` record of the FreeDesktop.org Trash specification
 ("Contents of a trash directory"), in the exact three-line form the test
 suite checks:

     [Trash Info]
     Path=<percent_encode of the absolute original path>
     DeletionDate=YYYY-MM-DDTHH:MM:SS

 each line ending in a newline.  `FormatTrashInfo` writes it,
 `ParseTrashInfo` reads it back, and `PassesTestChecks` is the test's own
 line-by-line check.
 */
module TrashInfo {
  import opened Bytes
  import opened Wrappers
  import opened Segments
  import opened PercentEncoding
  import opened PercentEncodingProperties

  // ---------------------------------------------------------------------------
  // Fixed-width decimal numbers

  /** `10` to the power `n`. */
  function Pow10(n: nat): (p: nat)
    ensures p > 0
  {
    if n == 0 then 1 else 10 * Pow10(n - 1)
  }

  /** True iff every byte of `s` is a decimal digit. */
  predicate AllDigits(s: Bytes) { forall i :: 0 <= i < |s| ==> IsDigit(s[i]) }

  /** `n` in exactly `width` decimal digits, with leading zeros. */
  function Digits(n: nat, width: nat): (s: Bytes)
    requires n < Pow10(width)
    ensures |s| == width && AllDigits(s)
  {
    if width == 0 then []
    else Digits(n / 10, width - 1) + [('0' as int + n % 10) as char]
  }

  /** The number a string of decimal digits spells. */
  function DigitsValue(s: Bytes): (n: nat)
    requires AllDigits(s)
    ensures n < Pow10(|s|)
  {
    if |s| == 0 then 0
    else DigitsValue(s[..|s| - 1]) * 10 + (s[|s| - 1] as int - '0' as int)
  }

  /** Reading a rendered number gives the number back. */
  lemma {:induction false} DigitsValueOfDigits(n: nat, width: nat)
    requires n < Pow10(width)
    ensures DigitsValue(Digits(n, width)) == n
  {
    if width > 0 {
      var s := Digits(n, width);
      assert s[..|s| - 1] == Digits(n / 10, width - 1);
      DigitsValueOfDigits(n / 10, width - 1);
    }
  }

  /** Every digit string is the rendering of its value in its own width. */
  lemma {:induction false} DigitsOfDigitsValue(s: Bytes)
    requires AllDigits(s)
    ensures Digits(DigitsValue(s), |s|) == s
  {
    if |s| > 0 {
      var init := s[..|s| - 1];
      var n := DigitsValue(s);
      assert n / 10 == DigitsValue(init);
      DigitsOfDigitsValue(init);
      assert init + [s[|s| - 1]] == s;
    }
  }

  // ---------------------------------------------------------------------------
  // DeletionDate

  /** A local wall-clock time to the second; no time zone is recorded. */
  datatype Timestamp = Timestamp(year: nat, month: nat, day: nat, hour: nat, minute: nat, second: nat)

  /** Every field fits the number of digits `YYYY-MM-DDTHH:MM:SS` gives it. */
  predicate Printable(t: Timestamp)
  {
    t.year < 10000 && t.month < 100 && t.day < 100 && t.hour < 100 && t.minute < 100 && t.second < 100
  }

  /** The shape `\d{4}-\d{2}-\d{2}T\d{2}:\d{2}:\d{2}`. */
  predicate DateShape(s: Bytes)
  {
    && |s| == 19
    && AllDigits(s[0..4]) && s[4] == '-' && AllDigits(s[5..7]) && s[7] == '-' && AllDigits(s[8..10])
    && s[10] == 'T'
    && AllDigits(s[11..13]) && s[13] == ':' && AllDigits(s[14..16]) && s[16] == ':' && AllDigits(s[17..19])
  }

  /** Six fields of the right widths, with the date's separators between them. */
  lemma DateShapeOfFields(y: Bytes, mo: Bytes, d: Bytes, h: Bytes, mi: Bytes, se: Bytes)
    requires |y| == 4 && |mo| == 2 && |d| == 2 && |h| == 2 && |mi| == 2 && |se| == 2
    requires AllDigits(y) && AllDigits(mo) && AllDigits(d) && AllDigits(h) && AllDigits(mi) && AllDigits(se)
    ensures var s := y + "-" + mo + "-" + d + "T" + h + ":" + mi + ":" + se;
      && DateShape(s)
      && s[0..4] == y && s[5..7] == mo && s[8..10] == d && s[11..13] == h && s[14..16] == mi && s[17..19] == se
  {
  }

  /** The `DeletionDate` value, written as `YYYY-MM-DDThh:mm:ss`. */
  function FormatDate(t: Timestamp): (s: Bytes)
    requires Printable(t)
    ensures DateShape(s)
  {
    DateShapeOfFields(Digits(t.year, 4), Digits(t.month, 2), Digits(t.day, 2),
                      Digits(t.hour, 2), Digits(t.minute, 2), Digits(t.second, 2));
    Digits(t.year, 4) + "-" + Digits(t.month, 2) + "-" + Digits(t.day, 2) + "T"
      + Digits(t.hour, 2) + ":" + Digits(t.minute, 2) + ":" + Digits(t.second, 2)
  }

  /** Reads a `YYYY-MM-DDThh:mm:ss` value; anything of another shape is refused. */
  function ParseDate(s: Bytes): (t: Option<Timestamp>)
    ensures t.Some? <==> DateShape(s)
    ensures t.Some? ==> Printable(t.value)
  {
    if DateShape(s) then
      Some(Timestamp(DigitsValue(s[0..4]), DigitsValue(s[5..7]), DigitsValue(s[8..10]),
                     DigitsValue(s[11..13]), DigitsValue(s[14..16]), DigitsValue(s[17..19])))
    else None
  }

  /** Where each field of a written date stands. */
  lemma FormatDateParts(t: Timestamp)
    requires Printable(t)
    ensures var s := FormatDate(t);
      && s[0..4] == Digits(t.year, 4) && s[5..7] == Digits(t.month, 2) && s[8..10] == Digits(t.day, 2)
      && s[11..13] == Digits(t.hour, 2) && s[14..16] == Digits(t.minute, 2) && s[17..19] == Digits(t.second, 2)
  {
    DateShapeOfFields(Digits(t.year, 4), Digits(t.month, 2), Digits(t.day, 2),
                      Digits(t.hour, 2), Digits(t.minute, 2), Digits(t.second, 2));
  }

  /** Reading a formatted date gives the timestamp back. */
  lemma ParseFormatDate(t: Timestamp)
    requires Printable(t)
    ensures ParseDate(FormatDate(t)) == Some(t)
  {
    FormatDateParts(t);
    DigitsValueOfDigits(t.year, 4);
    DigitsValueOfDigits(t.month, 2);
    DigitsValueOfDigits(t.day, 2);
    DigitsValueOfDigits(t.hour, 2);
    DigitsValueOfDigits(t.minute, 2);
    DigitsValueOfDigits(t.second, 2);
  }

  /** Every string of the date shape is the formatting of the timestamp it reads as. */
  lemma FormatParseDate(s: Bytes)
    requires DateShape(s)
    ensures FormatDate(ParseDate(s).value) == s
  {
    var t := ParseDate(s).value;
    FormatDateParts(t);
    DigitsOfDigitsValue(s[0..4]);
    DigitsOfDigitsValue(s[5..7]);
    DigitsOfDigitsValue(s[8..10]);
    DigitsOfDigitsValue(s[11..13]);
    DigitsOfDigitsValue(s[14..16]);
    DigitsOfDigitsValue(s[17..19]);
    var f := FormatDate(t);
    assert forall i :: 0 <= i < 19 ==> f[i] == s[i] by {
      forall i | 0 <= i < 19 ensures f[i] == s[i] {
        if i < 4 { assert f[i] == f[0..4][i]; assert s[i] == s[0..4][i]; }
        else if 5 <= i < 7 { assert f[i] == f[5..7][i - 5]; assert s[i] == s[5..7][i - 5]; }
        else if 8 <= i < 10 { assert f[i] == f[8..10][i - 8]; assert s[i] == s[8..10][i - 8]; }
        else if 11 <= i < 13 { assert f[i] == f[11..13][i - 11]; assert s[i] == s[11..13][i - 11]; }
        else if 14 <= i < 16 { assert f[i] == f[14..16][i - 14]; assert s[i] == s[14..16][i - 14]; }
        else if 17 <= i < 19 { assert f[i] == f[17..19][i - 17]; assert s[i] == s[17..19][i - 17]; }
      }
    }
  }

  // ---------------------------------------------------------------------------
  // Ruby's String#lines

  /** Length of the first line of `s`, its newline included when it has one. */
  function FirstLineLength(s: Bytes): (k: nat)
    requires |s| > 0
    ensures 0 < k <= |s|
    ensures Free(s[..k - 1], Newline)
    ensures s[k - 1] == Newline || k == |s|
    decreases |s|
  {
    if s[0] == Newline || |s| == 1 then 1 else 1 + FirstLineLength(s[1..])
  }

  /** The pieces `lines` was cut into, put back together. */
  function Concat(lines: seq<Bytes>): (text: Bytes)
  {
    if |lines| == 0 then [] else lines[0] + Concat(lines[1..])
  }

  /** Ruby's `s.lines`: `s` cut just after every newline. */
  function Lines(s: Bytes): (lines: seq<Bytes>)
    decreases |s|
  {
    if |s| == 0 then []
    else
      var k := FirstLineLength(s);
      [s[..k]] + Lines(s[k..])
  }

  /** Cutting into lines loses nothing. */
  lemma {:induction false} ConcatLines(s: Bytes)
    ensures Concat(Lines(s)) == s
    decreases |s|
  {
    if |s| > 0 {
      var k := FirstLineLength(s);
      assert Lines(s)[1..] == Lines(s[k..]);
      ConcatLines(s[k..]);
      assert s[..k] + s[k..] == s;
    }
  }

  /** A piece of `lines`: non-empty, with a newline at most as its last byte. */
  predicate IsPiece(piece: Bytes)
  {
    |piece| > 0 && Free(piece[..|piece| - 1], Newline)
  }

  /** Every piece of `lines` holds a newline only as its last byte, and all but the last end in one. */
  lemma {:induction false} LinesShape(s: Bytes)
    ensures forall i :: 0 <= i < |Lines(s)| ==> IsPiece(Lines(s)[i])
    ensures forall i :: 0 <= i < |Lines(s)| - 1 ==> IsLine(Lines(s)[i])
    decreases |s|
  {
    if |s| > 0 {
      var k := FirstLineLength(s);
      var rest := Lines(s[k..]);
      var lines := Lines(s);
      LinesShape(s[k..]);
      assert lines == [s[..k]] + rest;
      assert lines[0] == s[..k] && lines[0][..k - 1] == s[..k - 1];
      assert forall i :: 1 <= i < |lines| ==> lines[i] == rest[i - 1];
      assert |lines| > 1 ==> |rest| > 0 && k < |s|;
    }
  }

  /** A newline-terminated line with no other newline. */
  predicate IsLine(line: Bytes)
  {
    |line| > 0 && line[|line| - 1] == Newline && Free(line[..|line| - 1], Newline)
  }

  /** The first line of a string that starts with a full line ends with that line. */
  lemma {:induction false} FirstLineLengthOfLine(line: Bytes, rest: Bytes)
    requires IsLine(line)
    ensures FirstLineLength(line + rest) == |line|
    decreases |line|
  {
    var s := line + rest;
    if s[0] != Newline && |s| != 1 {
      assert line[0] == line[..|line| - 1][0];
      var tail := line[1..];
      assert tail[..|tail| - 1] == line[..|line| - 1][1..];
      assert s[1..] == tail + rest;
      FirstLineLengthOfLine(tail, rest);
    }
  }

  /** A string that starts with a full line has that line as its first piece. */
  lemma LinesOfLine(line: Bytes, rest: Bytes)
    requires IsLine(line)
    ensures Lines(line + rest) == [line] + Lines(rest)
  {
    FirstLineLengthOfLine(line, rest);
    var s := line + rest;
    assert s[..|line|] == line;
    assert s[|line|..] == rest;
  }

  // ---------------------------------------------------------------------------
  // The record

  const Header: Bytes := "[Trash Info]\n"
  const PathKey: Bytes := "Path="
  const DateKey: Bytes := "DeletionDate="

  /** Line 3 as the test matches it: `DeletionDate=`, a date of the fixed shape, and a newline. */
  predicate DeletionDateLine(line: Bytes)
  {
    |line| == 33 && line[..13] == DateKey && DateShape(line[13..32]) && line[32] == Newline
  }

  /** `Path=` followed by an already encoded path. */
  function PathLine(encoded: Bytes): (line: Bytes)
  {
    PathKey + encoded + [Newline]
  }

  /** The `DeletionDate=` line of a record. */
  function DateLine(deleted: Timestamp): (line: Bytes)
    requires Printable(deleted)
  {
    DateKey + FormatDate(deleted) + [Newline]
  }

  /**
   The record for a file whose absolute original path is `path`: exactly
   three lines, the header, the `Path=` line and the `DeletionDate=` line.
   */
  function FormatTrashInfo(path: Bytes, deleted: Timestamp): (text: Bytes)
    requires Printable(deleted)
    ensures Lines(text) == [Header, PathLine(PercentEncode(path)), DateLine(deleted)]
  {
    PercentEncodeNoNewline(path);
    RecordLines(PercentEncode(path), deleted);
    Header + PathLine(PercentEncode(path)) + DateLine(deleted)
  }

  /** The assertions `test_freedesktop` makes of the record, for the file `name` trashed from directory `pwd`. */
  predicate PassesTestChecks(text: Bytes, pwd: Bytes, name: Bytes)
  {
    var lines := Lines(text);
    && |lines| == 3
    && lines[0] == Header
    && lines[1] == PathLine(PercentEncode(pwd + [Slash] + name))
    && DeletionDateLine(lines[2])
  }

  /** What a record says: the decoded original path and the deletion date. */
  datatype Record = Record(path: Bytes, deleted: Timestamp)

  /** True iff `value` could be the `Path=` value the encoder writes. */
  predicate EncodedPathValue(value: Bytes)
  {
    Canonical(value) && (|value| == 0 || value[|value| - 1] != Slash)
  }

  /** Reads a record in exactly the written form; anything else is rejected. */
  function ParseTrashInfo(text: Bytes): (r: Option<Record>)
    ensures r.Some? ==> Printable(r.value.deleted)
    ensures r.Some? ==> |r.value.path| == 0 || r.value.path[|r.value.path| - 1] != Slash
  {
    var lines := Lines(text);
    if && |lines| == 3 && lines[0] == Header
       && |lines[1]| > |PathKey| && lines[1][..|PathKey|] == PathKey && lines[1][|lines[1]| - 1] == Newline
       && EncodedPathValue(lines[1][|PathKey|..|lines[1]| - 1])
       && DeletionDateLine(lines[2])
    then
      var value := lines[1][|PathKey|..|lines[1]| - 1];
      var decoded := PercentDecode(value);
      assert |decoded| == 0 || decoded[|decoded| - 1] != Slash by {
        if |value| > 0 { DecodeLastByte(value); }
      }
      Some(Record(decoded, ParseDate(lines[2][13..32]).value))
    else None
  }

  // ---------------------------------------------------------------------------
  // Properties of the record

  /** An encoded path never holds a newline, so it cannot split the `Path=` line. */
  lemma PercentEncodeNoNewline(path: Bytes)
    ensures Free(PercentEncode(path), Newline)
  {
    Rfc3986EncodeNoNewline(StripTrailing(path, Slash));
  }

  /** A written date holds no newline. */
  lemma FormatDateNoNewline(t: Timestamp)
    requires Printable(t)
    ensures Free(FormatDate(t), Newline)
  {
    var s := FormatDate(t);
    forall i | 0 <= i < |s| ensures s[i] != Newline {
      if i < 4 { assert s[i] == s[0..4][i]; }
      else if 5 <= i < 7 { assert s[i] == s[5..7][i - 5]; }
      else if 8 <= i < 10 { assert s[i] == s[8..10][i - 8]; }
      else if 11 <= i < 13 { assert s[i] == s[11..13][i - 11]; }
      else if 14 <= i < 16 { assert s[i] == s[14..16][i - 14]; }
      else if 17 <= i < 19 { assert s[i] == s[17..19][i - 17]; }
    }
  }

  /** The header is one full line. */
  lemma HeaderIsLine()
    ensures IsLine(Header)
  {
    assert Header[..|Header| - 1] == "[Trash Info]";
  }

  /** A `Path=` line whose value holds no newline is one full line. */
  lemma PathLineIsLine(encoded: Bytes)
    requires Free(encoded, Newline)
    ensures IsLine(PathLine(encoded))
  {
    var line := PathLine(encoded);
    assert line[..|line| - 1] == PathKey + encoded;
  }

  /** The written `DeletionDate=` line is one full line and matches the test's pattern. */
  lemma DateLineIsLine(deleted: Timestamp)
    requires Printable(deleted)
    ensures IsLine(DateLine(deleted)) && DeletionDateLine(DateLine(deleted))
  {
    var line := DateLine(deleted);
    FormatDateNoNewline(deleted);
    assert line[..|line| - 1] == DateKey + FormatDate(deleted);
    assert line[..13] == DateKey;
    assert line[13..32] == FormatDate(deleted);
  }

  /** `Concat` of three pieces. */
  lemma Concat3(a: Bytes, b: Bytes, c: Bytes)
    ensures Concat([a, b, c]) == a + b + c
  {
    assert [a, b, c][1..] == [b, c];
    assert [b, c][1..] == [c];
    assert Concat([c]) == c + Concat([]);
  }

  /** Three newline-terminated lines, one after another, are cut into exactly those three. */
  lemma LinesOfThree(a: Bytes, b: Bytes, c: Bytes)
    requires IsLine(a) && IsLine(b) && IsLine(c)
    ensures Lines(a + b + c) == [a, b, c]
  {
    LinesOfLine(c, []);
    assert c + [] == c;
    assert Lines([]) == [];
    LinesOfLine(b, c);
    LinesOfLine(a, b + c);
    assert a + b + c == a + (b + c);
  }

  /** Header, `Path=` line and `DeletionDate=` line, one after another, are cut into exactly those three lines. */
  lemma RecordLines(encoded: Bytes, deleted: Timestamp)
    requires Free(encoded, Newline) && Printable(deleted)
    ensures Lines(Header + PathLine(encoded) + DateLine(deleted)) == [Header, PathLine(encoded), DateLine(deleted)]
  {
    HeaderIsLine();
    PathLineIsLine(encoded);
    DateLineIsLine(deleted);
    LinesOfThree(Header, PathLine(encoded), DateLine(deleted));
  }

  /** A text of three lines is those three lines one after another. */
  lemma ThreeLines(text: Bytes)
    requires |Lines(text)| == 3
    ensures text == Lines(text)[0] + Lines(text)[1] + Lines(text)[2]
  {
    var lines := Lines(text);
    ConcatLines(text);
    assert lines == [lines[0], lines[1], lines[2]];
    Concat3(lines[0], lines[1], lines[2]);
  }

  /** A line of the `DeletionDate=` shape is the line written for the date it names. */
  lemma DeletionDateLineIsDateLine(line: Bytes)
    requires DeletionDateLine(line)
    ensures ParseDate(line[13..32]).Some? && line == DateLine(ParseDate(line[13..32]).value)
  {
    var date := line[13..32];
    FormatParseDate(date);
    assert line == line[..13] + date + [line[32]];
  }

  /** The written record passes every check `test_freedesktop` makes of it. */
  lemma FormatPassesTestChecks(pwd: Bytes, name: Bytes, deleted: Timestamp)
    requires Printable(deleted)
    ensures PassesTestChecks(FormatTrashInfo(pwd + [Slash] + name, deleted), pwd, name)
  {
    DateLineIsLine(deleted);
  }

  /**
   The checks leave nothing open but the date: a text that passes them is the
   record written for that file at the date its third line names.
   */
  lemma TestChecksDetermineRecord(text: Bytes, pwd: Bytes, name: Bytes)
    requires PassesTestChecks(text, pwd, name)
    ensures var lines := Lines(text);
      ParseDate(lines[2][13..32]).Some? &&
      text == FormatTrashInfo(pwd + [Slash] + name, ParseDate(lines[2][13..32]).value)
  {
    ThreeLines(text);
    DeletionDateLineIsDateLine(Lines(text)[2]);
  }

  /**
   The checks `test_freedesktop` makes hold of a text exactly when it is the
   record written for `pwd + "/" + name` at some deletion date.
   */
  lemma PassesTestChecksIff(text: Bytes, pwd: Bytes, name: Bytes)
    ensures PassesTestChecks(text, pwd, name) <==>
      exists t :: Printable(t) && text == FormatTrashInfo(pwd + [Slash] + name, t)
  {
    if PassesTestChecks(text, pwd, name) {
      TestChecksDetermineRecord(text, pwd, name);
      var t := ParseDate(Lines(text)[2][13..32]).value;
      assert Printable(t) && text == FormatTrashInfo(pwd + [Slash] + name, t);
    }
    if exists t :: Printable(t) && text == FormatTrashInfo(pwd + [Slash] + name, t) {
      var t :| Printable(t) && text == FormatTrashInfo(pwd + [Slash] + name, t);
      FormatPassesTestChecks(pwd, name, t);
    }
  }

  /** What the encoder writes is a value the reader accepts. */
  lemma EncodedPathValueOfPercentEncode(path: Bytes)
    ensures EncodedPathValue(PercentEncode(path))
  {
    var encoded := PercentEncode(path);
    Rfc3986EncodeCanonical(StripTrailing(path, Slash));
    PercentEncodeRoundTrip(path);
    if |encoded| > 0 {
      DecodeLastByte(encoded);
    }
  }

  /** The date in a written `DeletionDate=` line reads back as the date written. */
  lemma ParseDateLine(deleted: Timestamp)
    requires Printable(deleted)
    ensures ParseDate(DateLine(deleted)[13..32]) == Some(deleted)
  {
    ParseFormatDate(deleted);
    assert DateLine(deleted)[13..32] == FormatDate(deleted);
  }

  /** A text cut into the header, a `Path=` line of an accepted value and a date line is read as that value and date. */
  lemma ParseRecordLines(text: Bytes, encoded: Bytes, deleted: Timestamp)
    requires Printable(deleted) && EncodedPathValue(encoded)
    requires Lines(text) == [Header, PathLine(encoded), DateLine(deleted)]
    ensures ParseTrashInfo(text) == Some(Record(PercentDecode(encoded), deleted))
  {
    var pathLine := PathLine(encoded);
    assert pathLine[..|PathKey|] == PathKey;
    assert pathLine[|PathKey|..|pathLine| - 1] == encoded;
    DateLineIsLine(deleted);
    ParseDateLine(deleted);
  }

  /** Reading a written record gives back the path (less trailing slashes) and the date. */
  lemma ParseFormatTrashInfo(path: Bytes, deleted: Timestamp)
    requires Printable(deleted)
    ensures ParseTrashInfo(FormatTrashInfo(path, deleted)) == Some(Record(StripTrailing(path, Slash), deleted))
  {
    EncodedPathValueOfPercentEncode(path);
    ParseRecordLines(FormatTrashInfo(path, deleted), PercentEncode(path), deleted);
    PercentEncodeRoundTrip(path);
  }

  /** Every text the reader accepts is exactly the record written for what it read. */
  lemma FormatParseTrashInfo(text: Bytes)
    requires ParseTrashInfo(text).Some?
    ensures var r := ParseTrashInfo(text).value; FormatTrashInfo(r.path, r.deleted) == text
  {
    var lines := Lines(text);
    PathValueLine(lines[1]);
    PercentEncodeOnto(lines[1][|PathKey|..|lines[1]| - 1]);
    ThreeLines(text);
    DeletionDateLineIsDateLine(lines[2]);
  }

  /** A `Path=` line holding an encoder-shaped value is the line written for the path it decodes to. */
  lemma PathValueLine(line: Bytes)
    requires |line| > |PathKey| && line[..|PathKey|] == PathKey && line[|line| - 1] == Newline
    requires EncodedPathValue(line[|PathKey|..|line| - 1])
    ensures line == PathLine(line[|PathKey|..|line| - 1])
  {
    var value := line[|PathKey|..|line| - 1];
    assert line == line[..|PathKey|] + value + [line[|line| - 1]];
  }
}
