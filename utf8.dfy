/** Byte lengths of Rust strings, which are UTF-8 encoded. */
module Utf8 {
  /** `char::len_utf8`. */
  function CharLen(c: char): (n: nat)
    ensures 1 <= n <= 4
    ensures n == 1 <==> c as int < 0x80
  {
    if c as int < 0x80 then 1
    else if c as int < 0x800 then 2
    else if c as int < 0x1_0000 then 3
    else 4
  }

  /** `str::len`: the number of bytes of the UTF-8 encoding. */
  function Utf8Len(s: string): nat {
    if s == [] then 0 else Utf8Len(s[..|s| - 1]) + CharLen(s[|s| - 1])
  }

  predicate IsAscii(s: string) {
    forall i | 0 <= i < |s| :: s[i] as int < 0x80
  }

  lemma {:induction false} Utf8LenAppend(a: string, b: string)
    ensures Utf8Len(a + b) == Utf8Len(a) + Utf8Len(b)
    decreases |b|
  {
    if b != [] {
      var b' := b[..|b| - 1];
      assert (a + b)[..|a + b| - 1] == a + b';
      assert (a + b)[|a + b| - 1] == b[|b| - 1];
      Utf8LenAppend(a, b');
    } else {
      assert a + b == a;
    }
  }

  /** The byte offset of char `i + 1` is that of char `i` plus the length of char `i`. */
  lemma Utf8LenPrefixStep(s: string, i: nat)
    requires i < |s|
    ensures Utf8Len(s[..i + 1]) == Utf8Len(s[..i]) + CharLen(s[i])
  {
    assert s[..i + 1][..i] == s[..i];
  }

  lemma {:induction false} Utf8LenPrefixMonotone(s: string, i: nat, j: nat)
    requires i <= j <= |s|
    ensures Utf8Len(s[..i]) + (j - i) <= Utf8Len(s[..j])
    decreases j - i
  {
    if i < j {
      Utf8LenPrefixStep(s, j - 1);
      Utf8LenPrefixMonotone(s, i, j - 1);
    }
  }

  /** A string counts at least one byte per char, and exactly one for ASCII. */
  lemma {:induction false} Utf8LenBounds(s: string)
    ensures |s| <= Utf8Len(s) <= 4 * |s|
    ensures IsAscii(s) <==> Utf8Len(s) == |s|
  {
    if s != [] {
      Utf8LenBounds(s[..|s| - 1]);
      if IsAscii(s) {
        assert IsAscii(s[..|s| - 1]);
      } else if IsAscii(s[..|s| - 1]) {
        assert s == s[..|s| - 1] + [s[|s| - 1]];
      }
    }
  }
}
