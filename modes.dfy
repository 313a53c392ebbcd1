/** How `Stream` reads its capability flags off the mode string of the
    resource it wraps (src/Stream.php:13-14, 39-41). Each pattern is a
    regular expression without anchors whose alternatives are literals, so a
    mode matches when it contains one of them as a substring. */
module Modes {

  /** `lit` occurs in `s` starting at offset `i`. */
  predicate OccursAt(s: string, lit: string, i: int) {
    0 <= i && i + |lit| <= |s| && s[i..i + |lit|] == lit
  }

  /** `lit` is a substring of `s`, searched left to right as the regular
      expression engine does. */
  predicate Contains(s: string, lit: string)
    decreases |s|
  {
    |lit| <= |s| && (s[..|lit|] == lit || Contains(s[1..], lit))
  }

  /** The search agrees with the plain definition of a substring. */
  lemma {:induction false} ContainsIffOccurs(s: string, lit: string)
    ensures Contains(s, lit) <==> exists i :: OccursAt(s, lit, i)
    decreases |s|
  {
    if |lit| <= |s| {
      if s[..|lit|] == lit {
        assert OccursAt(s, lit, 0);
      } else {
        ContainsIffOccurs(s[1..], lit);
        if Contains(s[1..], lit) {
          var i :| OccursAt(s[1..], lit, i);
          assert s[1..][i..i + |lit|] == s[i + 1..i + 1 + |lit|];
          assert OccursAt(s, lit, i + 1);
        } else {
          forall i | OccursAt(s, lit, i) ensures OccursAt(s[1..], lit, i - 1) {
            assert s[1..][i - 1..i - 1 + |lit|] == s[i..i + |lit|];
          }
        }
      }
    }
  }

  /** Every character of a substring is a character of the string. */
  lemma {:induction false} CharOfSubstring(s: string, lit: string, j: int)
    ensures Contains(s, lit) && 0 <= j < |lit| ==> lit[j] in s
  {
    ContainsIffOccurs(s, lit);
    if Contains(s, lit) && 0 <= j < |lit| {
      var i :| OccursAt(s, lit, i);
      assert lit[j] == s[i..i + |lit|][j] == s[i + j];
    }
  }

  /** A single character is a substring wherever it occurs, and so is a
      literal the string starts with. */
  lemma {:induction false} OccurrenceContains(s: string, lit: string, i: int)
    requires OccursAt(s, lit, i)
    ensures Contains(s, lit)
  {
    ContainsIffOccurs(s, lit);
  }

  /** READABLE_MODES = /r|a\+|ab\+|w\+|wb\+|x\+|xb\+|c\+|cb\+/ */
  predicate IsReadable(mode: string) {
    Contains(mode, "r") || Contains(mode, "a+") || Contains(mode, "ab+") ||
    Contains(mode, "w+") || Contains(mode, "wb+") || Contains(mode, "x+") ||
    Contains(mode, "xb+") || Contains(mode, "c+") || Contains(mode, "cb+")
  }

  /** WRITABLE_MODES = /a|w|r\+|rb\+|rw|x|c/ */
  predicate IsWritable(mode: string) {
    Contains(mode, "a") || Contains(mode, "w") || Contains(mode, "r+") ||
    Contains(mode, "rb+") || Contains(mode, "rw") || Contains(mode, "x") ||
    Contains(mode, "c")
  }

  /** Any mode mentioning 'r' is readable, wherever the 'r' stands. */
  lemma ReadableWithR(mode: string, i: int)
    requires 0 <= i < |mode| && mode[i] == 'r'
    ensures IsReadable(mode)
  {
    assert mode[i..i + 1] == "r";
    OccurrenceContains(mode, "r", i);
  }

  /** Without an 'r' and without a '+' a mode is not readable: every
      alternative of the readable pattern holds one of the two. */
  lemma NotReadableWithout(mode: string)
    requires 'r' !in mode && '+' !in mode
    ensures !IsReadable(mode)
  {
    CharOfSubstring(mode, "r", 0);
    CharOfSubstring(mode, "a+", 1);
    CharOfSubstring(mode, "ab+", 2);
    CharOfSubstring(mode, "w+", 1);
    CharOfSubstring(mode, "wb+", 2);
    CharOfSubstring(mode, "x+", 1);
    CharOfSubstring(mode, "xb+", 2);
    CharOfSubstring(mode, "c+", 1);
    CharOfSubstring(mode, "cb+", 2);
  }

  /** Any mode mentioning 'a', 'w', 'x' or 'c' is writable. */
  lemma WritableWith(mode: string, i: int)
    requires 0 <= i < |mode| && mode[i] in "awxc"
    ensures IsWritable(mode)
  {
    var lit := mode[i..i + 1];
    assert lit == "a" || lit == "w" || lit == "x" || lit == "c";
    OccurrenceContains(mode, lit, i);
  }

  /** Without 'a', 'w', 'x', 'c' and '+' a mode is not writable: every
      alternative of the writable pattern holds one of them. */
  lemma NotWritableWithout(mode: string)
    requires forall ch | ch in "awxc+" :: ch !in mode
    ensures !IsWritable(mode)
  {
    CharOfSubstring(mode, "a", 0);
    CharOfSubstring(mode, "w", 0);
    CharOfSubstring(mode, "r+", 1);
    CharOfSubstring(mode, "rb+", 2);
    CharOfSubstring(mode, "rw", 1);
    CharOfSubstring(mode, "x", 0);
    CharOfSubstring(mode, "c", 0);
  }

  /** A mode that opens with "r+", "w+", "a+", "x+" or "c+", whatever
      follows ("b", "t"), is both readable and writable. */
  lemma UpdateModes(mode: string)
    requires |mode| >= 2 && mode[0] in "rwaxc" && mode[1] == '+'
    ensures IsReadable(mode) && IsWritable(mode)
  {
    var lit := mode[..2];
    assert OccursAt(mode, lit, 0);
    OccurrenceContains(mode, lit, 0);
    if mode[0] == 'r' {
      ReadableWithR(mode, 0);
      assert lit == "r+";
    } else {
      WritableWith(mode, 0);
      assert lit == "w+" || lit == "a+" || lit == "x+" || lit == "c+";
    }
  }

  /** "rb+", the mode of the temporary streams `create` and the caching
      decorator open, is both readable and writable. */
  lemma ReadWriteBinary()
    ensures IsReadable("rb+") && IsWritable("rb+")
  {
    ReadableWithR("rb+", 0);
    assert OccursAt("rb+", "rb+", 0);
    OccurrenceContains("rb+", "rb+", 0);
  }

  /** The verdicts the tests expect for the modes they open
      (tests/StreamTest.php:212-218, 234-255, 281-302). */
  lemma ModesOfTests()
    ensures forall m | m in ["r", "rb", "rt", "rb9"] :: IsReadable(m) && !IsWritable(m)
    ensures forall m | m in ["w", "wb", "wb2", "a", "x", "c"] :: IsWritable(m) && !IsReadable(m)
    ensures forall m | m in ["r+", "w+", "x+", "c+", "a+", "r+b", "w+b", "x+b", "c+b",
                             "r+t", "w+t", "x+t", "c+t"] :: IsReadable(m) && IsWritable(m)
    ensures IsReadable("rb+") && IsWritable("rb+") && IsWritable("rw")
  {
    forall m | m in ["r", "rb", "rt", "rb9"] ensures IsReadable(m) && !IsWritable(m) {
      ReadableWithR(m, 0);
      NotWritableWithout(m);
    }
    forall m | m in ["w", "wb", "wb2", "a", "x", "c"] ensures IsWritable(m) && !IsReadable(m) {
      WritableWith(m, 0);
      NotReadableWithout(m);
    }
    forall m | m in ["r+", "w+", "x+", "c+", "a+", "r+b", "w+b", "x+b", "c+b",
                     "r+t", "w+t", "x+t", "c+t"]
      ensures IsReadable(m) && IsWritable(m)
    {
      UpdateModes(m);
    }
    ReadWriteBinary();
    WritableWith("rw", 1);
  }
}
