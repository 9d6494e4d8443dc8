/**
  The few pieces of Kotlin's String API that the dog roster relies on:
  case-insensitive equality and prefix test, the natural order of strings
  (`compareTo`, used by `sortedBy { it.name }`) and `isBlank`.

  Case folding is restricted to ASCII letters; every other character is
  compared exactly.
 */
module Strings {

  /** The ASCII lower-case form of a character; every non-letter maps to itself. */
  function LowercaseAscii(c: char): (r: char)
    ensures !('A' <= r <= 'Z')
    ensures r == c || ('A' <= c <= 'Z' && r as int == c as int + 32)
  {
    if 'A' <= c <= 'Z' then (c as int + 32) as char else c
  }

  /** `a.equals(b, ignoreCase = true)`: same length, characters equal up to case. */
  predicate EqualsIgnoreCase(a: string, b: string) {
    |a| == |b| && forall i :: 0 <= i < |a| ==> LowercaseAscii(a[i]) == LowercaseAscii(b[i])
  }

  /** `s.startsWith(prefix, ignoreCase = true)`. */
  predicate StartsWithIgnoreCase(s: string, prefix: string) {
    |prefix| <= |s| && EqualsIgnoreCase(s[..|prefix|], prefix)
  }

  /** Case-insensitive equality is an equivalence that contains exact equality. */
  lemma EqualsIgnoreCaseIsEquivalence(a: string, b: string, c: string)
    ensures a == b ==> EqualsIgnoreCase(a, b)
    ensures EqualsIgnoreCase(a, b) ==> EqualsIgnoreCase(b, a)
    ensures EqualsIgnoreCase(a, b) && EqualsIgnoreCase(b, c) ==> EqualsIgnoreCase(a, c)
  {
  }

  /** Every string starts with the empty search text, and with itself in any case. */
  lemma StartsWithIgnoreCaseBasics(s: string, t: string)
    ensures StartsWithIgnoreCase(s, "")
    ensures EqualsIgnoreCase(s, t) ==> StartsWithIgnoreCase(s, t)
  {
    assert s[..|""|] == "";
    assert |s| == |t| ==> s[..|t|] == s;
  }

  /**
    `a.compareTo(b) <= 0`: `a` is a prefix of `b`, or at the first position
    where they differ the character of `a` is the smaller one.
   */
  predicate NameLe(a: string, b: string)
    decreases |a|
  {
    |a| == 0 || (|b| > 0 && (a[0] < b[0] || (a[0] == b[0] && NameLe(a[1..], b[1..]))))
  }

  /** The order of `compareTo`, stated by the first differing position. */
  ghost predicate CompareToLe(a: string, b: string) {
    a <= b || exists k :: 0 <= k < |a| && k < |b| && a[..k] == b[..k] && a[k] < b[k]
  }

  lemma {:induction false} NameLeToCompareTo(a: string, b: string)
    requires NameLe(a, b)
    ensures CompareToLe(a, b)
    decreases |a|
  {
    if |a| == 0 {
      assert a <= b;
    } else if a[0] < b[0] {
      assert a[..0] == b[..0];
    } else {
      var a', b' := a[1..], b[1..];
      NameLeToCompareTo(a', b');
      if a' <= b' {
        assert b[..|a|] == [b[0]] + b'[..|a'|];
        assert a == [a[0]] + a';
      } else {
        var k :| 0 <= k < |a'| && k < |b'| && a'[..k] == b'[..k] && a'[k] < b'[k];
        assert a[..k + 1] == [a[0]] + a'[..k];
        assert b[..k + 1] == [b[0]] + b'[..k];
        assert a[k + 1] == a'[k] && b[k + 1] == b'[k];
      }
    }
  }

  lemma {:induction false} CompareToToNameLe(a: string, b: string)
    requires CompareToLe(a, b)
    ensures NameLe(a, b)
    decreases |a|
  {
    if |a| > 0 {
      var a', b' := a[1..], b[1..];
      if a <= b {
        assert a[0] == b[0];
        assert a' <= b' by { assert b'[..|a'|] == b[..|a|][1..]; }
        CompareToToNameLe(a', b');
      } else {
        var k :| 0 <= k < |a| && k < |b| && a[..k] == b[..k] && a[k] < b[k];
        if k > 0 {
          assert a[0] == a[..k][0] == b[..k][0] == b[0];
          assert a'[..k - 1] == a[..k][1..] && b'[..k - 1] == b[..k][1..];
          assert a'[k - 1] == a[k] && b'[k - 1] == b[k];
          CompareToToNameLe(a', b');
        }
      }
    }
  }

  /** The recursive order used in the proofs is exactly the `compareTo` order. */
  lemma NameLeIsCompareTo(a: string, b: string)
    ensures NameLe(a, b) <==> CompareToLe(a, b)
  {
    if NameLe(a, b) { NameLeToCompareTo(a, b); }
    if CompareToLe(a, b) { CompareToToNameLe(a, b); }
  }

  lemma {:induction false} NameLeReflexive(a: string)
    ensures NameLe(a, a)
    decreases |a|
  {
    if |a| > 0 { NameLeReflexive(a[1..]); }
  }

  lemma {:induction false} NameLeTotal(a: string, b: string)
    ensures NameLe(a, b) || NameLe(b, a)
    decreases |a|
  {
    if |a| > 0 && |b| > 0 && a[0] == b[0] { NameLeTotal(a[1..], b[1..]); }
  }

  lemma {:induction false} NameLeTransitive(a: string, b: string, c: string)
    requires NameLe(a, b) && NameLe(b, c)
    ensures NameLe(a, c)
    decreases |a|
  {
    if |a| > 0 && a[0] == b[0] && b[0] == c[0] { NameLeTransitive(a[1..], b[1..], c[1..]); }
  }

  lemma {:induction false} NameLeAntisymmetric(a: string, b: string)
    requires NameLe(a, b) && NameLe(b, a)
    ensures a == b
    decreases |a|
  {
    if |a| > 0 {
      NameLeAntisymmetric(a[1..], b[1..]);
      assert a == [a[0]] + a[1..] && b == [b[0]] + b[1..];
    }
  }

  /**
    Kotlin's `Char.isWhitespace()` on the JVM: `Character.isWhitespace` or
    `Character.isSpaceChar`, which together are the ASCII controls TAB to CR
    and FS to US, and the Unicode space, line and paragraph separators.
   */
  predicate IsWhitespace(c: char) {
    || '\t' <= c <= '\r'
    || '\U{1C}' <= c <= '\U{20}'
    || c == '\U{A0}' || c == '\U{1680}'
    || '\U{2000}' <= c <= '\U{200A}'
    || c == '\U{2028}' || c == '\U{2029}' || c == '\U{202F}' || c == '\U{205F}'
    || c == '\U{3000}'
  }

  /** `s.isBlank()`: empty, or whitespace only. */
  predicate IsBlank(s: string) {
    forall i :: 0 <= i < |s| ==> IsWhitespace(s[i])
  }

  /** A string is not blank exactly when it holds a character that is not whitespace. */
  lemma NotBlankHasVisibleChar(s: string)
    ensures !IsBlank(s) <==> exists i :: 0 <= i < |s| && !IsWhitespace(s[i])
    ensures !IsBlank(s) ==> |s| > 0
    ensures IsBlank("") && IsBlank(" ") && !IsBlank("Rex")
  {
    assert !IsWhitespace("Rex"[0]);
  }
}
