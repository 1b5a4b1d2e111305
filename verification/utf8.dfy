/** UTF-8 byte lengths of strings and the byte offsets that fall on a code-point
    boundary. Rust's `String` indexes by byte, while a Dafny `string` is a
    sequence of Unicode scalar values; this module converts between the two. */
module Utf8 {

  /** Bytes UTF-8 needs for the scalar value `c` (Rust's `char::len_utf8`). */
  function CharLen(c: char): (n: nat)
    ensures 1 <= n <= 4
    ensures n == 1 <==> (c as int) < 0x80
  {
    var v := c as int;
    if v < 0x80 then 1 else if v < 0x800 then 2 else if v < 0x10000 then 3 else 4
  }

  /** Byte length of the UTF-8 encoding of `s` (Rust's `str::len`). */
  function ByteLen(s: string): nat
    decreases |s|
  {
    if |s| == 0 then 0 else CharLen(s[0]) + ByteLen(s[1..])
  }

  /** Every character is a one-byte (ASCII) scalar value. */
  predicate Ascii(s: string) {
    forall i :: 0 <= i < |s| ==> (s[i] as int) < 0x80
  }

  /** A string is never shorter in bytes than in characters, and has exactly
      as many bytes as characters when it is all ASCII. */
  lemma {:induction false} AsciiByteLen(s: string)
    ensures ByteLen(s) >= |s|
    ensures ByteLen(s) == |s| <==> Ascii(s)
    decreases |s|
  {
    if |s| > 0 {
      AsciiByteLen(s[1..]);
      assert forall i :: 1 <= i < |s| ==> s[i] == s[1..][i - 1];
      assert Ascii(s) <==> (s[0] as int) < 0x80 && Ascii(s[1..]);
    }
  }

  lemma {:induction false} ByteLenConcat(a: string, b: string)
    ensures ByteLen(a + b) == ByteLen(a) + ByteLen(b)
    decreases |a|
  {
    if |a| > 0 {
      ByteLenConcat(a[1..], b);
      assert (a + b)[0] == a[0];
      assert (a + b)[1..] == a[1..] + b;
    } else {
      assert a + b == b;
    }
  }

  /** Removing the last character shortens the encoding by that character's length. */
  lemma ByteLenPrefixStep(s: string, i: nat)
    requires 0 < i <= |s|
    ensures ByteLen(s[..i]) == ByteLen(s[..i - 1]) + CharLen(s[i - 1])
  {
    assert s[..i] == s[..i - 1] + [s[i - 1]];
    ByteLenConcat(s[..i - 1], [s[i - 1]]);
  }

  lemma ByteLenPrefixBound(s: string, i: nat)
    requires i <= |s|
    ensures ByteLen(s[..i]) <= ByteLen(s)
    ensures i < |s| ==> ByteLen(s[..i]) < ByteLen(s)
  {
    assert s == s[..i] + s[i..];
    ByteLenConcat(s[..i], s[i..]);
    if i < |s| {
      assert s[i..][0] == s[i];
    }
  }

  /** `k` is a byte offset into `s` that does not split a code point. */
  predicate IsBoundary(s: string, k: nat)
    decreases |s|
  {
    if k == 0 then true
    else if |s| == 0 then false
    else k >= CharLen(s[0]) && IsBoundary(s[1..], k - CharLen(s[0]))
  }

  /** The number of characters in front of the boundary `k`: the byte offset
      `k` is exactly the encoded length of that many leading characters. */
  function CharIndex(s: string, k: nat): (i: nat)
    requires IsBoundary(s, k)
    ensures i <= |s| && ByteLen(s[..i]) == k
    decreases |s|
  {
    if k == 0 then 0
    else
      var j := CharIndex(s[1..], k - CharLen(s[0]));
      assert s[..j + 1][1..] == s[1..][..j];
      j + 1
  }

  /** Conversely, the encoded length of every prefix is a boundary, and
      `CharIndex` recovers the prefix's length from it. */
  lemma {:induction false} PrefixIsBoundary(s: string, i: nat)
    requires i <= |s|
    ensures IsBoundary(s, ByteLen(s[..i]))
    ensures CharIndex(s, ByteLen(s[..i])) == i
    decreases |s|
  {
    if i > 0 {
      PrefixIsBoundary(s[1..], i - 1);
      assert s[..i][1..] == s[1..][..i - 1];
    }
  }

  /** Boundaries are the only offsets the two views agree on, so the character
      index of a boundary determines it. */
  lemma BoundaryUnique(s: string, k: nat, k': nat)
    requires IsBoundary(s, k) && IsBoundary(s, k')
    requires CharIndex(s, k) == CharIndex(s, k')
    ensures k == k'
  {
  }

  lemma BoundaryBound(s: string, k: nat)
    requires IsBoundary(s, k)
    ensures k <= ByteLen(s)
    ensures k == ByteLen(s) <==> CharIndex(s, k) == |s|
  {
    var i := CharIndex(s, k);
    ByteLenPrefixBound(s, i);
    assert s[..|s|] == s;
  }
}
