/**
 What `percent_encode` computes.  Its contract equates it with the reference
 encoding of section 2.1 of RFC 3986 applied to the path without its
 trailing slashes; the alphabet, the round trip through percent-decoding and
 the bijection onto canonical encodings all follow from that.
 */
module PercentEncodingProperties {
  import opened Bytes
  import opened Segments
  import opened PercentEncoding

  // ---------------------------------------------------------------------------
  // Decoding and the canonical form

  /** `FlatMap` on a string that starts with `b`. */
  lemma FlatMapCons(f: byte -> Bytes, b: byte, rest: Bytes)
    ensures FlatMap(f, [b] + rest) == f(b) + FlatMap(f, rest)
  {
    assert ([b] + rest)[1..] == rest;
  }

  /** Re-encoding the byte spelled by an upper-case escape gives that escape back. */
  lemma EscapeOfHexByte(hi: byte, lo: byte)
    requires IsUpperHex(hi) && IsUpperHex(lo)
    ensures Escape(HexByte(hi, lo)) == [Percent, hi, lo]
  {
    var h, l := HexValue(hi), HexValue(lo);
    var v := HexByte(hi, lo) as int;
    assert v == h * 16 + l;
    assert v / 16 == h && v % 16 == l;
  }

  /** Decoding the reference encoding of one byte gives that byte and carries on with the rest. */
  lemma DecodeToken(b: byte, rest: Bytes)
    ensures PercentDecode(Rfc3986Byte(b) + rest) == [b] + PercentDecode(rest)
  {
    var s := Rfc3986Byte(b) + rest;
    if Literal(b) {
      assert s[1..] == rest;
    } else {
      assert s[3..] == rest;
    }
  }

  /** Percent-decoding undoes the reference encoding. */
  lemma {:induction false} DecodeRfc3986Encode(q: Bytes)
    ensures PercentDecode(Rfc3986Encode(q)) == q
    decreases |q|
  {
    if |q| > 0 {
      DecodeToken(q[0], Rfc3986Encode(q[1..]));
      DecodeRfc3986Encode(q[1..]);
      assert [q[0]] + q[1..] == q;
    }
  }

  /** Every reference encoding is canonical. */
  lemma {:induction false} Rfc3986EncodeCanonical(q: Bytes)
    ensures Canonical(Rfc3986Encode(q))
    decreases |q|
  {
    if |q| > 0 {
      Rfc3986EncodeCanonical(q[1..]);
      var s := Rfc3986Encode(q);
      if Literal(q[0]) {
        assert s[1..] == Rfc3986Encode(q[1..]);
      } else {
        assert s[3..] == Rfc3986Encode(q[1..]);
      }
    }
  }

  /** A canonical string is the reference encoding of its own decoding. */
  lemma {:induction false} Rfc3986EncodeDecode(s: Bytes)
    requires Canonical(s)
    ensures Rfc3986Encode(PercentDecode(s)) == s
    decreases |s|
  {
    if |s| > 0 {
      if s[0] == Percent {
        var b := HexByte(s[1], s[2]);
        Rfc3986EncodeDecode(s[3..]);
        FlatMapCons(Rfc3986Byte, b, PercentDecode(s[3..]));
        EscapeOfHexByte(s[1], s[2]);
        assert s == [Percent, s[1], s[2]] + s[3..];
      } else {
        Rfc3986EncodeDecode(s[1..]);
        FlatMapCons(Rfc3986Byte, s[0], PercentDecode(s[1..]));
        assert s == [s[0]] + s[1..];
      }
    }
  }

  /** A `URI.encode_uri_component`-canonical string is the encoding of its own decoding. */
  lemma {:induction false} EncodeUriComponentDecode(s: Bytes)
    requires UriCanonical(s)
    ensures EncodeUriComponent(PercentDecode(s)) == s
    decreases |s|
  {
    if |s| > 0 {
      if s[0] == Percent {
        var b := HexByte(s[1], s[2]);
        EncodeUriComponentDecode(s[3..]);
        FlatMapCons(UriComponentByte, b, PercentDecode(s[3..]));
        EscapeOfHexByte(s[1], s[2]);
        assert s == [Percent, s[1], s[2]] + s[3..];
      } else {
        EncodeUriComponentDecode(s[1..]);
        FlatMapCons(UriComponentByte, s[0], PercentDecode(s[1..]));
        assert s == [s[0]] + s[1..];
      }
    }
  }

  /**
   `EncodeUriComponent` is the only encoding of a segment that is canonical
   and decodes back to it.
   */
  lemma EncodeUriComponentUnique(segment: Bytes, encoded: Bytes)
    requires UriCanonical(encoded) && PercentDecode(encoded) == segment
    ensures encoded == EncodeUriComponent(segment)
  {
    EncodeUriComponentDecode(encoded);
  }

  /** Every suffix of a string in escaped form is in escaped form. */
  lemma EscapedFormTail(s: Bytes, k: nat)
    requires EscapedForm(s) && k <= |s|
    ensures EscapedForm(s[k..])
  {
    var t := s[k..];
    forall i | 0 <= i < |t| ensures Literal(t[i]) || t[i] == Percent {
      assert t[i] == s[i + k];
    }
    forall i | 0 <= i < |t| && t[i] == Percent
      ensures && i + 2 < |t| && IsUpperHex(t[i + 1]) && IsUpperHex(t[i + 2])
              && !Literal(HexByte(t[i + 1], t[i + 2]))
    {
      assert t[i] == s[i + k];
      assert t[i + 1] == s[i + k + 1] && t[i + 2] == s[i + k + 2];
    }
  }

  /** A canonical string is in escaped form. */
  lemma {:induction false} CanonicalEscapedForm(s: Bytes)
    requires Canonical(s)
    ensures EscapedForm(s)
    decreases |s|
  {
    if |s| > 0 {
      var k := if s[0] == Percent then 3 else 1;
      var t := s[k..];
      CanonicalEscapedForm(t);
      forall i | 0 <= i < |s| ensures Literal(s[i]) || s[i] == Percent {
        if i >= k {
          assert t[i - k] == s[i];
        }
      }
      forall i | 0 <= i < |s| && s[i] == Percent
        ensures && i + 2 < |s| && IsUpperHex(s[i + 1]) && IsUpperHex(s[i + 2])
                && !Literal(HexByte(s[i + 1], s[i + 2]))
      {
        if i >= k {
          assert t[i - k] == s[i];
          assert t[i - k + 1] == s[i + 1] && t[i - k + 2] == s[i + 2];
        }
      }
    }
  }

  /** A string in escaped form is canonical. */
  lemma {:induction false} EscapedFormCanonical(s: Bytes)
    requires EscapedForm(s)
    ensures Canonical(s)
    decreases |s|
  {
    if |s| > 0 {
      var k := if s[0] == Percent then 3 else 1;
      EscapedFormTail(s, k);
      EscapedFormCanonical(s[k..]);
    }
  }

  /** `Canonical` and its index-wise reading `EscapedForm` agree. */
  lemma CanonicalIffEscapedForm(s: Bytes)
    ensures Canonical(s) <==> EscapedForm(s)
  {
    if Canonical(s) {
      CanonicalEscapedForm(s);
    }
    if EscapedForm(s) {
      EscapedFormCanonical(s);
    }
  }

  /** Decoding a non-empty canonical string ends in `/` exactly when the string does. */
  lemma {:induction false} DecodeLastByte(s: Bytes)
    requires Canonical(s) && |s| > 0
    ensures var d := PercentDecode(s); |d| > 0 && (d[|d| - 1] == Slash <==> s[|s| - 1] == Slash)
    decreases |s|
  {
    var k := if s[0] == Percent then 3 else 1;
    if |s| > k {
      DecodeLastByte(s[k..]);
    }
  }

  // ---------------------------------------------------------------------------
  // Properties of percent_encode

  /**
   Round trip: percent-decoding the output of `percent_encode` gives back the
   path, less the trailing slashes Ruby's `split` drops.
   */
  lemma PercentEncodeRoundTrip(path: Bytes)
    ensures PercentDecode(PercentEncode(path)) == StripTrailing(path, Slash)
    ensures |path| == 0 || path[|path| - 1] != Slash ==> PercentDecode(PercentEncode(path)) == path
  {
    DecodeRfc3986Encode(StripTrailing(path, Slash));
  }

  /** Two paths without a trailing slash that encode alike are the same path. */
  lemma PercentEncodeInjective(p: Bytes, q: Bytes)
    requires |p| == 0 || p[|p| - 1] != Slash
    requires |q| == 0 || q[|q| - 1] != Slash
    ensures PercentEncode(p) == PercentEncode(q) ==> p == q
  {
    PercentEncodeRoundTrip(p);
    PercentEncodeRoundTrip(q);
  }

  /**
   Every canonical string that does not end in `/` is the encoding of exactly
   the path it decodes to, and that path does not end in `/` either.
   */
  lemma PercentEncodeOnto(s: Bytes)
    requires Canonical(s)
    requires |s| == 0 || s[|s| - 1] != Slash
    ensures var p := PercentDecode(s); (|p| == 0 || p[|p| - 1] != Slash) && PercentEncode(p) == s
  {
    var p := PercentDecode(s);
    if |s| > 0 {
      DecodeLastByte(s);
    }
    Rfc3986EncodeDecode(s);
  }

  /**
   The output alphabet: only unreserved bytes, `/` and `%`; every `%` opens an
   escape of two upper-case hexadecimal digits; never a literal `*`; never
   the sequence `%7E`.
   */
  lemma PercentEncodeAlphabet(path: Bytes)
    ensures EscapedForm(PercentEncode(path))
    ensures forall i :: 0 <= i < |PercentEncode(path)| ==> PercentEncode(path)[i] != '*'
    ensures var r := PercentEncode(path);
      forall i :: 0 <= i < |r| - 2 ==> !(r[i] == Percent && r[i + 1] == '7' && r[i + 2] == 'E')
  {
    var r := PercentEncode(path);
    Rfc3986EncodeCanonical(StripTrailing(path, Slash));
    CanonicalIffEscapedForm(r);
    assert HexByte('7', 'E') == '~';
  }

  /** The reference encoding never writes a newline. */
  lemma {:induction false} Rfc3986EncodeNoNewline(q: Bytes)
    ensures Free(Rfc3986Encode(q), Newline)
    decreases |q|
  {
    if |q| > 0 {
      Rfc3986EncodeNoNewline(q[1..]);
      FlatMapCons(Rfc3986Byte, q[0], q[1..]);
      assert q == [q[0]] + q[1..];
    }
  }

  /** True iff every byte of `s` is unreserved or `/`. */
  predicate AllLiteral(s: Bytes)
    decreases |s|
  {
    |s| == 0 || (Literal(s[0]) && AllLiteral(s[1..]))
  }

  /** `AllLiteral` read index by index. */
  lemma {:induction false} AllLiteralIndexwise(s: Bytes)
    ensures AllLiteral(s) <==> forall i :: 0 <= i < |s| ==> Literal(s[i])
    decreases |s|
  {
    if |s| > 0 {
      AllLiteralIndexwise(s[1..]);
      assert forall i :: 1 <= i < |s| ==> s[i] == s[1..][i - 1];
    }
  }

  /** A string of unreserved bytes and `/` is its own reference encoding. */
  lemma {:induction false} Rfc3986EncodeLiterals(q: Bytes)
    requires AllLiteral(q)
    ensures Rfc3986Encode(q) == q
    decreases |q|
  {
    if |q| > 0 {
      Rfc3986EncodeLiterals(q[1..]);
      assert q == [q[0]] + q[1..];
    }
  }

  /** A path of unreserved bytes and slashes, not ending in `/`, is its own encoding. */
  lemma PercentEncodeLiteralPath(path: Bytes)
    requires forall i :: 0 <= i < |path| ==> Literal(path[i])
    requires |path| == 0 || path[|path| - 1] != Slash
    ensures PercentEncode(path) == path
  {
    AllLiteralIndexwise(path);
    Rfc3986EncodeLiterals(path);
  }

  /**
   The separator is never encoded: the part before a `/` is encoded on its
   own, the `/` is copied, and the rest is encoded as a path of its own.
   */
  lemma PercentEncodeAtSlash(dir: Bytes, rest: Bytes)
    requires |rest| > 0 && rest[|rest| - 1] != Slash
    ensures PercentEncode(dir + [Slash] + rest) == Rfc3986Encode(dir) + [Slash] + PercentEncode(rest)
  {
    var p := dir + [Slash] + rest;
    StripTrailingNoop(p, Slash);
    StripTrailingNoop(rest, Slash);
    FlatMapAppend(Rfc3986Byte, dir + [Slash], rest);
    FlatMapAppend(Rfc3986Byte, dir, [Slash]);
    Rfc3986EncodeByte(Slash);
  }

  /** The reference encoding of a one-byte string is the encoding of that byte. */
  lemma Rfc3986EncodeByte(b: byte)
    ensures Rfc3986Encode([b]) == Rfc3986Byte(b)
  {
    FlatMapCons(Rfc3986Byte, b, []);
    assert [b] + [] == [b];
  }

  /** The printable ASCII characters of `test_chars`, the space included. */
  const TestPunctuation: Bytes := "!@#$%^&()_+-=[]{};,.`~" + "<>:\"\\|?*" + " "

  /** The control bytes of `test_chars`: newline, carriage return, tab, the bytes 1 to 31, and DEL. */
  const TestControls: Bytes := "\n\r\t" + seq(31, i requires 0 <= i < 31 => (i + 1) as char) + "\U{7F}"

  /** The ASCII characters `test_chars` builds the test file name from. */
  const TestAsciiChars: Bytes := TestPunctuation + TestControls

  /** The ASCII bytes that are neither letters, digits nor `/`: controls, space, punctuation. */
  predicate AsciiPunctuationOrControl(c: byte)
  {
    var n := c as int;
    n < 47 || 58 <= n < 65 || 91 <= n < 97 || 123 <= n < 128
  }

  /** Every character of `TestPunctuation` is punctuation or space. */
  lemma TestPunctuationIsPunctuation(i: nat)
    requires i < |TestPunctuation|
    ensures AsciiPunctuationOrControl(TestPunctuation[i])
  {
  }

  /** Of the ASCII punctuation and control bytes only `_ - . ~` are unreserved. */
  lemma TestByteLiteral(c: byte)
    requires AsciiPunctuationOrControl(c)
    ensures Literal(c) <==> c == '_' || c == '-' || c == '.' || c == '~'
  {
  }

  /**
   Of the ASCII characters of the test file name exactly `_ - . ~` are
   written as themselves; every other one, and every byte of a multi-byte
   UTF-8 character, is written as its `%XX` escape.
   */
  lemma TestCharacterEncodings()
    ensures forall i :: 0 <= i < |TestAsciiChars| ==>
      (Rfc3986Byte(TestAsciiChars[i]) == [TestAsciiChars[i]] <==> TestAsciiChars[i] in "_-.~")
    ensures forall b: byte :: b as int >= 128 ==> Rfc3986Byte(b) == Escape(b)
  {
    forall i | 0 <= i < |TestAsciiChars|
      ensures Rfc3986Byte(TestAsciiChars[i]) == [TestAsciiChars[i]] <==> TestAsciiChars[i] in "_-.~"
    {
      var c := TestAsciiChars[i];
      if i < |TestPunctuation| {
        assert c == TestPunctuation[i];
        TestPunctuationIsPunctuation(i);
      } else {
        var j := i - |TestPunctuation|;
        assert c == TestControls[j];
        assert c as int < 32 || c as int == 127;
      }
      TestByteLiteral(c);
    }
  }

  /** Some of those escapes spelled out: space, `&`, `*`, tab, `%` and DEL. */
  lemma TestCharacterExamples()
    ensures Rfc3986Byte(' ') == "%20" && Rfc3986Byte('&') == "%26"
    ensures Rfc3986Byte('*') == "%2A" && Rfc3986Byte('\t') == "%09"
    ensures Rfc3986Byte('%') == "%25" && Rfc3986Byte('\U{7F}') == "%7F"
  {
  }
}
