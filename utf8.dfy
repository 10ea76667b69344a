/** The byte-level view of Rust's `&str`: a string is a sequence of Unicode
    scalar values, each stored as 1 to 4 UTF-8 bytes; lengths and slice
    offsets are counted in bytes. */
module Utf8 {
  import opened Wrappers

  /** `char::len_utf8`. */
  function Utf8Len(c: char): (n: nat)
    ensures 1 <= n <= 4
    ensures n == 1 <==> c as int < 0x80
  {
    if c as int < 0x80 then 1
    else if c as int < 0x800 then 2
    else if c as int < 0x1_0000 then 3
    else 4
  }

  /** `str::len`: the number of bytes of the UTF-8 encoding. */
  function ByteLen(s: string): (n: nat)
    ensures n <= 4 * |s|
  {
    if s == [] then 0 else Utf8Len(s[0]) + ByteLen(s[1..])
  }

  lemma {:induction false} ByteLenAtLeastLength(s: string)
    ensures |s| <= ByteLen(s)
    ensures ByteLen(s) == 0 <==> s == []
  {
    if s != [] {
      ByteLenAtLeastLength(s[1..]);
    }
  }

  lemma {:induction false} ByteLenAppend(a: string, b: string)
    ensures ByteLen(a + b) == ByteLen(a) + ByteLen(b)
  {
    if a == [] {
      assert a + b == b;
    } else {
      assert (a + b)[1..] == a[1..] + b;
      ByteLenAppend(a[1..], b);
    }
  }

  /** Extending a prefix by one character adds that character's bytes. */
  lemma ByteLenSnoc(s: string, i: nat)
    requires i < |s|
    ensures ByteLen(s[..i + 1]) == ByteLen(s[..i]) + Utf8Len(s[i])
  {
    assert s[..i + 1] == s[..i] + [s[i]];
    ByteLenAppend(s[..i], [s[i]]);
    assert ByteLen([s[i]]) == Utf8Len(s[i]) + ByteLen([]);
  }

  /** A string of ASCII characters has one byte per character. */
  lemma {:induction false} ByteLenAscii(s: string)
    requires forall i :: 0 <= i < |s| ==> s[i] as int < 0x80
    ensures ByteLen(s) == |s|
  {
    if s != [] {
      ByteLenAscii(s[1..]);
    }
  }

  /** The boundary check behind Rust's `&s[..w]` and `&s[w..]`: when byte
      offset `w` falls on a character boundary of `s` (at most its length)
      the result is the number of characters in the first `w` bytes;
      otherwise the slice panics and the result is None. */
  function CharIndexAt(s: string, w: nat): (r: Option<nat>)
    ensures r.Some? ==> r.value <= |s| && ByteLen(s[..r.value]) == w
  {
    if w == 0 then Some(0)
    else if s == [] || w < Utf8Len(s[0]) then None
    else
      match CharIndexAt(s[1..], w - Utf8Len(s[0]))
      case None => None
      case Some(k) =>
        assert s[..k + 1][1..] == s[1..][..k];
        Some(k + 1)
  }

  /** The first `k` characters of a string span `ByteLen(s[..k])` bytes, and
      removing one character from the front removes `Utf8Len(s[0])` of them. */
  lemma PrefixByteLenStep(s: string, k: nat)
    requires 0 < k <= |s|
    ensures ByteLen(s[..k]) == Utf8Len(s[0]) + ByteLen(s[1..][..k - 1])
  {
    assert s[..k][1..] == s[1..][..k - 1];
  }

  /** A byte offset is accepted by the slice check exactly when it is the
      byte length of some prefix, and then it names that prefix. */
  lemma {:induction false} CharIndexAtExact(s: string, w: nat, k: nat)
    ensures CharIndexAt(s, w) == Some(k) <==> k <= |s| && ByteLen(s[..k]) == w
  {
    if w == 0 {
      if k <= |s| && k > 0 {
        PrefixByteLenStep(s, k);
      }
    } else if s == [] {
    } else if w < Utf8Len(s[0]) {
      if 0 < k <= |s| {
        PrefixByteLenStep(s, k);
      }
    } else {
      if k > 0 {
        CharIndexAtExact(s[1..], w - Utf8Len(s[0]), k - 1);
        if k <= |s| {
          PrefixByteLenStep(s, k);
        }
      }
    }
  }

  /** Slicing at the byte length of a prefix never panics. */
  lemma CharIndexAtPrefix(s: string, k: nat)
    requires k <= |s|
    ensures CharIndexAt(s, ByteLen(s[..k])) == Some(k)
  {
    CharIndexAtExact(s, ByteLen(s[..k]), k);
  }

  /** Slicing past the end of the string always panics. */
  lemma CharIndexAtBeyondEnd(s: string, w: nat)
    requires ByteLen(s) < w
    ensures CharIndexAt(s, w) == None
  {
    if CharIndexAt(s, w).Some? {
      var k := CharIndexAt(s, w).value;
      assert s == s[..k] + s[k..];
      ByteLenAppend(s[..k], s[k..]);
    }
  }
}
