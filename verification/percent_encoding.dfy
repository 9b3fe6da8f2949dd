/**
 The path percent-encoder of the test suite (`percent_encode`) and the
 percent-decoding it is meant to invert.

 `PercentEncode` follows the Ruby expression step by step: split the path on
 `/`, encode each segment with `URI.encode_uri_component`, join with `/`,
 replace every `*` by `%2A`, then every `%7E` by `~`.  `Rfc3986Encode` is the
 independent reference: every byte in the unreserved set of section 2.3 of
 RFC 3986, and `/`, stays literal, and every other byte becomes the `%XX`
 escape of section 2.1 with upper-case digits.
 */
module PercentEncoding {
  import opened Bytes
  import opened Segments
  import opened Gsub

  /** The unreserved characters of section 2.3 of RFC 3986: `ALPHA DIGIT - . _ ~`. */
  predicate Unreserved(b: byte)
  {
    IsAlpha(b) || IsDigit(b) || b == '-' || b == '.' || b == '_' || b == '~'
  }

  /** The bytes `URI.encode_uri_component` copies literally: `*-.0-9A-Z_a-z`. */
  predicate UriComponentSafe(b: byte)
  {
    IsAlpha(b) || IsDigit(b) || b == '*' || b == '-' || b == '.' || b == '_'
  }

  /** The bytes a path encoding may contain unescaped. */
  predicate Literal(b: byte) { Unreserved(b) || b == Slash }

  /** The byte spelled by two hexadecimal digits. */
  function HexByte(hi: byte, lo: byte): (b: byte)
    requires IsHex(hi) && IsHex(lo)
  {
    (HexValue(hi) * 16 + HexValue(lo)) as char
  }

  /** `%XX`, the percent-encoding of one byte with upper-case digits. */
  function Escape(b: byte): (e: Bytes)
    ensures |e| == 3 && e[0] == Percent && IsUpperHex(e[1]) && IsUpperHex(e[2])
    ensures HexByte(e[1], e[2]) == b
  {
    [Percent, HexDigit(b as int / 16), HexDigit(b as int % 16)]
  }

  // ---------------------------------------------------------------------------
  // The Ruby expression, step by step

  /** What `URI.encode_uri_component` writes for one byte. */
  function UriComponentByte(b: byte): (e: Bytes)
  {
    if UriComponentSafe(b) then [b] else Escape(b)
  }

  /** Percent-decoding undoes the per-byte encoding of `URI.encode_uri_component`. */
  lemma {:induction false} DecodeUriComponentBytes(segment: Bytes)
    ensures PercentDecode(FlatMap(UriComponentByte, segment)) == segment
    decreases |segment|
  {
    if |segment| > 0 {
      var b, rest := segment[0], FlatMap(UriComponentByte, segment[1..]);
      var s := UriComponentByte(b) + rest;
      if UriComponentSafe(b) {
        assert s[1..] == rest;
      } else {
        assert s[3..] == rest;
      }
      DecodeUriComponentBytes(segment[1..]);
      assert [b] + segment[1..] == segment;
    }
  }

  /**
   The strings `URI.encode_uri_component` can produce: literal bytes are
   `*-.0-9A-Z_a-z`, and every `%` opens an upper-case escape of a byte
   outside that set.
   */
  predicate UriCanonical(s: Bytes)
    decreases |s|
  {
    if |s| == 0 then true
    else if s[0] == Percent then
      && |s| >= 3 && IsUpperHex(s[1]) && IsUpperHex(s[2])
      && !UriComponentSafe(HexByte(s[1], s[2])) && UriCanonical(s[3..])
    else UriComponentSafe(s[0]) && UriCanonical(s[1..])
  }

  /** The per-byte encoding of `URI.encode_uri_component` is in its canonical form. */
  lemma {:induction false} UriComponentBytesCanonical(segment: Bytes)
    ensures UriCanonical(FlatMap(UriComponentByte, segment))
    decreases |segment|
  {
    if |segment| > 0 {
      var rest := FlatMap(UriComponentByte, segment[1..]);
      var s := UriComponentByte(segment[0]) + rest;
      UriComponentBytesCanonical(segment[1..]);
      if UriComponentSafe(segment[0]) {
        assert s[1..] == rest;
      } else {
        assert s[3..] == rest;
      }
    }
  }

  /**
   Ruby's `URI.encode_uri_component` on the bytes of one segment: exactly the
   bytes `*-.0-9A-Z_a-z` stay literal, every other byte becomes its upper-case
   `%XX` escape, and decoding gives the segment back.
   */
  function EncodeUriComponent(segment: Bytes): (encoded: Bytes)
    ensures UriCanonical(encoded)
    ensures PercentDecode(encoded) == segment
  {
    UriComponentBytesCanonical(segment);
    DecodeUriComponentBytes(segment);
    FlatMap(UriComponentByte, segment)
  }

  /** `segments.map { URI.encode_uri_component(_1) }` */
  function EncodeSegments(segments: seq<Bytes>): (encoded: seq<Bytes>)
    ensures |encoded| == |segments|
    ensures forall i :: 0 <= i < |segments| ==> encoded[i] == EncodeUriComponent(segments[i])
  {
    if |segments| == 0 then [] else [EncodeUriComponent(segments[0])] + EncodeSegments(segments[1..])
  }

  // ---------------------------------------------------------------------------
  // The reference encoding and the decoding

  /** What the reference encoding writes for one byte. */
  function Rfc3986Byte(b: byte): (e: Bytes)
  {
    if Literal(b) then [b] else Escape(b)
  }

  /** Section 2.1 of RFC 3986 applied to every byte except the unreserved ones and `/`. */
  function Rfc3986Encode(path: Bytes): (encoded: Bytes)
  {
    FlatMap(Rfc3986Byte, path)
  }

  /**
   Percent-decoding: each `%` followed by two hexadecimal digits (either case)
   stands for the byte they spell; every other byte stands for itself.
   */
  function PercentDecode(s: Bytes): (decoded: Bytes)
    decreases |s|
  {
    if |s| == 0 then []
    else if |s| >= 3 && s[0] == Percent && IsHex(s[1]) && IsHex(s[2]) then
      [HexByte(s[1], s[2])] + PercentDecode(s[3..])
    else [s[0]] + PercentDecode(s[1..])
  }

  /**
   The strings `Rfc3986Encode` can produce: literal bytes are unreserved or
   `/`, and every `%` opens an upper-case escape of a byte that is neither.
   */
  predicate Canonical(s: Bytes)
    decreases |s|
  {
    if |s| == 0 then true
    else if s[0] == Percent then
      && |s| >= 3 && IsUpperHex(s[1]) && IsUpperHex(s[2])
      && !Literal(HexByte(s[1], s[2])) && Canonical(s[3..])
    else Literal(s[0]) && Canonical(s[1..])
  }

  /** Index-wise reading of `Canonical`: the alphabet and the shape of every escape. */
  predicate EscapedForm(s: Bytes)
  {
    && (forall i :: 0 <= i < |s| ==> Literal(s[i]) || s[i] == Percent)
    && (forall i :: 0 <= i < |s| && s[i] == Percent ==>
          && i + 2 < |s| && IsUpperHex(s[i + 1]) && IsUpperHex(s[i + 2])
          && !Literal(HexByte(s[i + 1], s[i + 2])))
  }

  // ---------------------------------------------------------------------------
  // Stage 1: encoding each segment and joining them

  /** Per-byte effect of encoding the segments and joining them with literal slashes. */
  function JoinedByte(b: byte): (e: Bytes)
  {
    if b == Slash then [b] else UriComponentByte(b)
  }

  /** Per-byte effect after `gsub('*', '%2A')`. */
  function StarFixedByte(b: byte): (e: Bytes)
  {
    if b == '*' then "%2A" else JoinedByte(b)
  }

  /** On a segment without `/`, `URI.encode_uri_component` agrees with the per-byte map that keeps `/` literal. */
  lemma {:induction false} EncodeUriComponentSlashFree(segment: Bytes)
    requires Free(segment, Slash)
    ensures EncodeUriComponent(segment) == FlatMap(JoinedByte, segment)
    decreases |segment|
  {
    if |segment| > 0 {
      EncodeUriComponentSlashFree(segment[1..]);
    }
  }

  /** Encoding slash-free segments and joining them is a byte-wise map of the joined path. */
  lemma {:induction false} JoinEncodeSegments(segments: seq<Bytes>)
    requires forall i :: 0 <= i < |segments| ==> Free(segments[i], Slash)
    ensures Join(EncodeSegments(segments), Slash) == FlatMap(JoinedByte, Join(segments, Slash))
    decreases |segments|
  {
    if |segments| == 1 {
      EncodeUriComponentSlashFree(segments[0]);
    } else if |segments| > 1 {
      var rest := segments[1..];
      assert EncodeSegments(segments)[1..] == EncodeSegments(rest);
      EncodeUriComponentSlashFree(segments[0]);
      JoinEncodeSegments(rest);
      FlatMapAppend(JoinedByte, segments[0] + [Slash], Join(rest, Slash));
      FlatMapAppend(JoinedByte, segments[0], [Slash]);
    }
  }

  // ---------------------------------------------------------------------------
  // Stage 2: gsub('*', '%2A')

  /** The escape `gsub('*', '%2A')` writes is the escape of `*`. */
  lemma EscapeOfStar()
    ensures Escape('*') == "%2A"
  {
  }

  /** The pattern of `gsub('%7E', '~')` is the escape of `~`. */
  lemma EscapeOfTilde()
    ensures Escape('~') == "%7E"
  {
  }

  /** The `*` rewrite on the encoding of one byte. */
  lemma StarFixByte(b: byte)
    ensures ReplaceAll(JoinedByte(b), "*", "%2A") == StarFixedByte(b)
  {
    if b == '*' {
      ReplaceAllAtPattern([], "*", "%2A");
    }
  }

  /** The `*` rewrite on the joined encoding is the per-byte map that writes `%2A` for `*`. */
  lemma {:induction false} StarFix(q: Bytes)
    ensures ReplaceAll(FlatMap(JoinedByte, q), "*", "%2A") == FlatMap(StarFixedByte, q)
    decreases |q|
  {
    if |q| > 0 {
      ReplaceByteAppend(JoinedByte(q[0]), FlatMap(JoinedByte, q[1..]), "*", "%2A");
      StarFixByte(q[0]);
      StarFix(q[1..]);
    }
  }

  // ---------------------------------------------------------------------------
  // Stage 3: gsub('%7E', '~')

  /** An escape of any byte other than `~` passes through the `%7E` rewrite untouched. */
  lemma TildeFixSkipsEscape(b: byte, rest: Bytes)
    requires b != '~'
    ensures ReplaceAll(Escape(b) + rest, "%7E", "~") == Escape(b) + ReplaceAll(rest, "%7E", "~")
  {
    var e := Escape(b);
    var s := e + rest;
    assert s[..3] == e;
    assert HexByte('7', 'E') == '~';
    assert e != "%7E";
    assert ReplaceAll(s, "%7E", "~") == [s[0]] + ReplaceAll(s[1..], "%7E", "~");
    assert s[1..] == e[1..] + rest;
    ReplaceAllSkipsPrefix(e[1..], rest, "%7E", "~");
    assert [s[0]] + e[1..] == e;
  }

  /** The `%7E` rewrite on the encoding of one byte gives its reference encoding, and carries on with the rest. */
  lemma TildeFixByte(b: byte, rest: Bytes)
    ensures ReplaceAll(StarFixedByte(b) + rest, "%7E", "~") == Rfc3986Byte(b) + ReplaceAll(rest, "%7E", "~")
  {
    if b == '~' {
      EscapeOfTilde();
      ReplaceAllAtPattern(rest, "%7E", "~");
    } else if b == '*' {
      EscapeOfStar();
      TildeFixSkipsEscape(b, rest);
    } else if b == Slash || UriComponentSafe(b) {
      ReplaceAllSkipsPrefix([b], rest, "%7E", "~");
    } else {
      TildeFixSkipsEscape(b, rest);
    }
  }

  /** After the `*` rewrite, the `%7E` rewrite yields the reference encoding. */
  lemma {:induction false} TildeFix(q: Bytes)
    ensures ReplaceAll(FlatMap(StarFixedByte, q), "%7E", "~") == Rfc3986Encode(q)
    decreases |q|
  {
    if |q| > 0 {
      TildeFixByte(q[0], FlatMap(StarFixedByte, q[1..]));
      TildeFix(q[1..]);
    }
  }

  // ---------------------------------------------------------------------------
  // The whole expression

  /**
   The Ruby expression `path.split("/").map { URI.encode_uri_component(_1) }.join("/")`
   followed by `gsub('*', '%2A')` and `gsub('%7E', '~')` is the RFC 3986
   encoding (unreserved bytes and `/` literal, everything else `%XX`) of the
   path with its trailing slashes dropped.
   */
  lemma SplitEncodeJoinIsRfc3986(path: Bytes)
    ensures var joined := Join(EncodeSegments(RubySplit(path, Slash)), Slash);
      ReplaceAll(ReplaceAll(joined, "*", "%2A"), "%7E", "~") == Rfc3986Encode(StripTrailing(path, Slash))
  {
    var segments := RubySplit(path, Slash);
    JoinEncodeSegments(segments);
    JoinRubySplit(path, Slash);
    StarFix(StripTrailing(path, Slash));
    TildeFix(StripTrailing(path, Slash));
  }

  /** `percent_encode(path)` of the test suite. */
  function PercentEncode(path: Bytes): (encoded: Bytes)
    ensures encoded == Rfc3986Encode(StripTrailing(path, Slash))
  {
    SplitEncodeJoinIsRfc3986(path);
    var joined := Join(EncodeSegments(RubySplit(path, Slash)), Slash);
    ReplaceAll(ReplaceAll(joined, "*", "%2A"), "%7E", "~")
  }
}
