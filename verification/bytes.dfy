/**
 Octets, the ASCII character classes the percent-encoder cares about, and
 the byte-wise map `FlatMap`.

 A byte is written as the `char` whose code is that byte's value (the
 ISO 8859-1 reading), so that ASCII literals such as `"%7E"` can be used
 directly as byte sequences.  Paths are byte sequences: the encoder works on
 the UTF-8 bytes of a path, never on Unicode characters.
 */
module Bytes {

  type byte = c: char | c as int < 256 witness 'a'

  type Bytes = seq<byte>

  const Slash: byte := '/'
  const Percent: byte := '%'
  const Newline: byte := '\n'

  predicate IsDigit(b: byte) { '0' <= b <= '9' }

  predicate IsUpper(b: byte) { 'A' <= b <= 'Z' }

  predicate IsLower(b: byte) { 'a' <= b <= 'z' }

  predicate IsAlpha(b: byte) { IsUpper(b) || IsLower(b) }

  /** The digits a percent-encoder emits: `0-9` and upper-case `A-F`. */
  predicate IsUpperHex(b: byte) { IsDigit(b) || 'A' <= b <= 'F' }

  /** True iff `b` does not occur in `s`. */
  predicate Free(s: Bytes, b: byte) { forall i :: 0 <= i < |s| ==> s[i] != b }

  /** Upper-case hexadecimal digit for a value below 16. */
  function HexDigit(n: nat): (d: byte)
    requires n < 16
    ensures IsUpperHex(d)
    ensures d as int == if n < 10 then '0' as int + n else 'A' as int + (n - 10)
  {
    "0123456789ABCDEF"[n]
  }

  /** A hexadecimal digit of either case, as section 2.1 of RFC 3986 allows when decoding. */
  predicate IsHex(b: byte) { IsUpperHex(b) || 'a' <= b <= 'f' }

  /** Value of a hexadecimal digit; the inverse of `HexDigit` on upper-case digits. */
  function HexValue(d: byte): (n: nat)
    requires IsHex(d)
    ensures n < 16
    ensures IsUpperHex(d) ==> HexDigit(n) == d
  {
    if IsDigit(d) then d as int - '0' as int
    else if IsUpper(d) then d as int - 'A' as int + 10
    else d as int - 'a' as int + 10
  }

  /** Concatenation of `f` applied to every byte of `s`. */
  function FlatMap(f: byte -> Bytes, s: Bytes): (r: Bytes)
    decreases |s|
  {
    if |s| == 0 then [] else f(s[0]) + FlatMap(f, s[1..])
  }

  /** `FlatMap` distributes over concatenation. */
  lemma {:induction false} FlatMapAppend(f: byte -> Bytes, a: Bytes, b: Bytes)
    ensures FlatMap(f, a + b) == FlatMap(f, a) + FlatMap(f, b)
    decreases |a|
  {
    if |a| == 0 {
      assert a + b == b;
    } else {
      assert (a + b)[1..] == a[1..] + b;
      FlatMapAppend(f, a[1..], b);
    }
  }
}
