/** The parts of Python's `str` semantics that the identity helpers rely on:
    `str.strip()` with no argument, `str.lower()` and the character class
    `[a-z0-9]` of the regular expression the slug builder uses. Strings are
    sequences of Unicode scalar values, as Python's `str` is. */
module Text {

  /** Python's `str.isspace()`: the characters `str.strip()` removes. */
  predicate IsSpace(c: char)
  {
    || ('\U{9}' <= c <= '\U{D}')
    || ('\U{1C}' <= c <= '\U{20}')
    || c == '\U{85}' || c == '\U{A0}' || c == '\U{1680}'
    || ('\U{2000}' <= c <= '\U{200A}')
    || c == '\U{2028}' || c == '\U{2029}' || c == '\U{202F}'
    || c == '\U{205F}' || c == '\U{3000}'
  }

  /** The characters whose lower-case form this model gives: ASCII and
      Latin-1 capitals, and the two capitals whose lower-case form holds an
      ASCII letter (U+0130 and the Kelvin sign U+212A). */
  predicate IsUpper(c: char)
  {
    || ('A' <= c <= 'Z')
    || ('\U{C0}' <= c <= '\U{DE}' && c != '\U{D7}')
    || c == '\U{130}'
    || c == '\U{212A}'
  }

  /** The lower-case form of one character, as `str.lower()` maps it. */
  function LowerChar(c: char): (r: string)
    ensures r != []
    ensures !IsUpper(c) ==> r == [c]
    ensures forall i :: 0 <= i < |r| ==> !IsUpper(r[i])
  {
    if 'A' <= c <= 'Z' || ('\U{C0}' <= c <= '\U{DE}' && c != '\U{D7}') then
      [(c as int + 32) as char]
    else if c == '\U{130}' then
      ['i', '\U{307}']
    else if c == '\U{212A}' then
      ['k']
    else
      [c]
  }

  /** Whitespace is neither a capital nor a slug character. */
  lemma SpaceIsPlain(c: char)
    requires IsSpace(c)
    ensures !IsUpper(c) && !IsSlugChar(c) && LowerChar(c) == [c]
  {
  }

  /** The lower-case form of a non-space character holds no whitespace. */
  lemma LowerCharOfNonSpace(c: char)
    requires !IsSpace(c)
    ensures forall i :: 0 <= i < |LowerChar(c)| ==> !IsSpace(LowerChar(c)[i])
  {
  }

  /** Python's `s.lower()`. */
  function Lower(s: string): (r: string)
    ensures forall i :: 0 <= i < |r| ==> !IsUpper(r[i])
  {
    if s == [] then [] else LowerChar(s[0]) + Lower(s[1..])
  }

  lemma {:induction false} LowerAppend(a: string, b: string)
    ensures Lower(a + b) == Lower(a) + Lower(b)
  {
    if a == [] {
      assert a + b == b;
    } else {
      assert (a + b)[0] == a[0] && (a + b)[1..] == a[1..] + b;
      LowerAppend(a[1..], b);
    }
  }

  /** A string without capitals is its own lower-case form. */
  lemma {:induction false} LowerOfLower(s: string)
    requires forall i :: 0 <= i < |s| ==> !IsUpper(s[i])
    ensures Lower(s) == s
  {
    if s != [] {
      LowerOfLower(s[1..]);
      assert s == [s[0]] + s[1..];
    }
  }

  predicate AllSpace(s: string)
  {
    forall i :: 0 <= i < |s| ==> IsSpace(s[i])
  }

  /** No whitespace at either end: what `str.strip()` guarantees. */
  predicate Trimmed(s: string)
  {
    s == [] || (!IsSpace(s[0]) && !IsSpace(s[|s| - 1]))
  }

  /** Lower-casing never brings whitespace to either end. */
  lemma LowerKeepsTrimmed(s: string)
    requires Trimmed(s)
    ensures Trimmed(Lower(s))
  {
    if s != [] {
      var n := |s|;
      assert s == s[..n - 1] + [s[n - 1]];
      LowerAppend(s[..n - 1], [s[n - 1]]);
      assert Lower([s[n - 1]]) == LowerChar(s[n - 1]);
      LowerCharOfNonSpace(s[0]);
      LowerCharOfNonSpace(s[n - 1]);
    }
  }

  /** Python's `s.lstrip()`: the suffix left after the leading whitespace. */
  function StripLeft(s: string): (r: string)
    ensures |r| <= |s| && r == s[|s| - |r|..]
    ensures AllSpace(s[..|s| - |r|])
    ensures r != [] ==> !IsSpace(r[0])
  {
    if s != [] && IsSpace(s[0]) then
      var r := StripLeft(s[1..]);
      assert s[..|s| - |r|] == [s[0]] + s[1..][..|s| - 1 - |r|];
      r
    else s
  }

  /** Python's `s.rstrip()`: the prefix left before the trailing whitespace. */
  function StripRight(s: string): (r: string)
    ensures |r| <= |s| && r == s[..|r|]
    ensures AllSpace(s[|r|..])
    ensures r != [] ==> !IsSpace(r[|r| - 1])
  {
    if s != [] && IsSpace(s[|s| - 1]) then
      var r := StripRight(s[..|s| - 1]);
      assert s[|r|..] == s[..|s| - 1][|r|..] + [s[|s| - 1]];
      r
    else s
  }

  /** Python's `s.strip()`. */
  function Strip(s: string): (r: string)
    ensures Trimmed(r)
  {
    StripRight(StripLeft(s))
  }

  /** `Strip(s)` is a slice of `s` cut out of whitespace on both sides. */
  lemma StripSplit(s: string) returns (i: nat, j: nat)
    ensures i <= j <= |s| && Strip(s) == s[i..j]
    ensures AllSpace(s[..i]) && AllSpace(s[j..])
  {
    var l := StripLeft(s);
    var r := StripRight(l);
    i := |s| - |l|;
    j := i + |r|;
    assert l[|r|..] == s[j..];
  }

  /** Stripping a string that has no edge whitespace leaves it alone. */
  lemma StripTrimmed(s: string)
    requires Trimmed(s)
    ensures Strip(s) == s
  {
  }

  /** The characters the slug pattern `[a-z0-9]` keeps. */
  predicate IsSlugChar(c: char)
  {
    ('a' <= c <= 'z') || ('0' <= c <= '9')
  }

  predicate AllSlugChars(s: string)
  {
    forall i :: 0 <= i < |s| ==> IsSlugChar(s[i])
  }

  /** `re.sub(r"[^a-z0-9]+", "", s)`: the subsequence of slug characters. */
  function KeepSlugChars(s: string): (r: string)
    ensures AllSlugChars(r) && |r| <= |s|
  {
    if s == [] then []
    else (if IsSlugChar(s[0]) then [s[0]] else []) + KeepSlugChars(s[1..])
  }

  lemma {:induction false} KeepSlugCharsAppend(a: string, b: string)
    ensures KeepSlugChars(a + b) == KeepSlugChars(a) + KeepSlugChars(b)
  {
    if a == [] {
      assert a + b == b;
    } else {
      assert (a + b)[0] == a[0] && (a + b)[1..] == a[1..] + b;
      KeepSlugCharsAppend(a[1..], b);
      var h := if IsSlugChar(a[0]) then [a[0]] else [];
      calc {
        KeepSlugChars(a + b);
        h + KeepSlugChars(a[1..] + b);
        h + (KeepSlugChars(a[1..]) + KeepSlugChars(b));
      }
    }
  }

  lemma {:induction false} KeepSlugCharsOfSlug(s: string)
    requires AllSlugChars(s)
    ensures KeepSlugChars(s) == s
  {
    if s != [] {
      KeepSlugCharsOfSlug(s[1..]);
      assert s == [s[0]] + s[1..];
    }
  }

  /** Whitespace contributes nothing once lower-cased and filtered. */
  lemma {:induction false} KeepSlugCharsOfSpace(s: string)
    requires AllSpace(s)
    ensures KeepSlugChars(Lower(s)) == []
  {
    if s != [] {
      KeepSlugCharsOfSpace(s[1..]);
      SpaceIsPlain(s[0]);
      assert Lower(s) == [s[0]] + Lower(s[1..]);
      KeepSlugCharsAppend([s[0]], Lower(s[1..]));
    }
  }

  lemma KeepSlugCharsOfLowerAppend(a: string, b: string)
    ensures KeepSlugChars(Lower(a + b)) == KeepSlugChars(Lower(a)) + KeepSlugChars(Lower(b))
  {
    LowerAppend(a, b);
    KeepSlugCharsAppend(Lower(a), Lower(b));
  }

  /** Leading whitespace contributes no slug characters. */
  lemma {:induction false} StripLeftIrrelevantToSlugChars(s: string)
    ensures KeepSlugChars(Lower(StripLeft(s))) == KeepSlugChars(Lower(s))
  {
    if s != [] && IsSpace(s[0]) {
      StripLeftIrrelevantToSlugChars(s[1..]);
      SpaceIsPlain(s[0]);
      assert Lower(s) == [s[0]] + Lower(s[1..]);
      assert KeepSlugChars(Lower(s)) == KeepSlugChars(Lower(s[1..])) by {
        KeepSlugCharsAppend([s[0]], Lower(s[1..]));
      }
    }
  }

  /** Trailing whitespace contributes no slug characters. */
  lemma StripRightIrrelevantToSlugChars(s: string)
    ensures KeepSlugChars(Lower(StripRight(s))) == KeepSlugChars(Lower(s))
  {
    var r := StripRight(s);
    var tail := s[|r|..];
    assert s == r + tail;
    KeepSlugCharsOfLowerAppend(r, tail);
    KeepSlugCharsOfSpace(tail);
  }

  /** Stripping first does not change which slug characters survive. */
  lemma StripIrrelevantToSlugChars(s: string)
    ensures KeepSlugChars(Lower(Strip(s))) == KeepSlugChars(Lower(s))
  {
    StripRightIrrelevantToSlugChars(StripLeft(s));
    StripLeftIrrelevantToSlugChars(s);
  }

  /** A string of slug characters passes strip, lower-case and the filter
      untouched. */
  lemma SlugCharsSurvive(s: string)
    requires AllSlugChars(s)
    ensures KeepSlugChars(Lower(Strip(s))) == s
  {
    assert Trimmed(s) by {
      if s != [] {
        assert IsSlugChar(s[0]) && IsSlugChar(s[|s| - 1]);
        SlugCharIsPlain(s[0]);
        SlugCharIsPlain(s[|s| - 1]);
      }
    }
    StripTrimmed(s);
    forall i | 0 <= i < |s| ensures !IsUpper(s[i]) {
      SlugCharIsPlain(s[i]);
    }
    LowerOfLower(s);
    KeepSlugCharsOfSlug(s);
  }

  lemma SlugCharIsPlain(c: char)
    requires IsSlugChar(c)
    ensures !IsUpper(c) && !IsSpace(c)
  {
  }
}
