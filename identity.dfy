/** Instructor identity helpers of app.py: e-mail normalisation, the slug
    base built from free text, and the slug chosen for a new instructor.
    The database query for an existing slug is a set of the slugs already
    stored; the random `uuid4().hex[:6]` suffix is supplied by the caller. */
module Identity {
  import opened Text

  /** `_slugify_base` truncates to this many characters. */
  const MaxBaseLength: nat := 32
  /** The slug base used when the text holds no slug character. */
  const FallbackBase: string := "instructor"
  /** Length of the disambiguating suffix, `uuid4().hex[:6]`. */
  const SuffixLength: nat := 6

  /** `_clean_email`: trimmed and lower-cased. A `None` argument, which the
      source turns into `""` first, is the empty string here. */
  function CleanEmail(email: string): (r: string)
    ensures Trimmed(r)
    ensures forall i :: 0 <= i < |r| ==> !IsUpper(r[i])
  {
    LowerKeepsTrimmed(Strip(email));
    Lower(Strip(email))
  }

  /** Cleaning an already cleaned address changes nothing. */
  lemma CleanEmailIdempotent(email: string)
    ensures CleanEmail(CleanEmail(email)) == CleanEmail(email)
  {
    var c := CleanEmail(email);
    StripTrimmed(c);
    LowerOfLower(c);
  }

  /** A slug base: non-empty, at most 32 characters, only `[a-z0-9]`. */
  predicate IsSlugBase(s: string)
  {
    s != [] && |s| <= MaxBaseLength && AllSlugChars(s)
  }

  /** `_slugify_base`. */
  function SlugifyBase(text: string): (r: string)
    ensures IsSlugBase(r)
  {
    var t := KeepSlugChars(Lower(Strip(text)));
    if t == [] then
      FallbackIsSlugBase();
      FallbackBase
    else
      var n := if |t| < MaxBaseLength then |t| else MaxBaseLength;
      assert AllSlugChars(t[..n]) by {
        forall i | 0 <= i < n ensures IsSlugChar(t[..n][i]) {
          assert t[..n][i] == t[i];
        }
      }
      t[..n]
  }

  lemma FallbackIsSlugBase()
    ensures IsSlugBase(FallbackBase)
  {
    var f := FallbackBase;
    assert f[0] == 'i' && f[1] == 'n' && f[2] == 's' && f[3] == 't' && f[4] == 'r';
    assert f[5] == 'u' && f[6] == 'c' && f[7] == 't' && f[8] == 'o' && f[9] == 'r';
  }

  /** The slug base is the fallback exactly when lower-casing the text
      leaves no `[a-z0-9]` character, and otherwise the first (at most 32)
      of those characters in their original order. */
  lemma SlugifyBaseCharacterised(text: string)
    ensures var kept := KeepSlugChars(Lower(text));
      && (kept == [] ==> SlugifyBase(text) == FallbackBase)
      && (kept != [] ==>
            && |SlugifyBase(text)| == (if |kept| < MaxBaseLength then |kept| else MaxBaseLength)
            && SlugifyBase(text) == kept[..|SlugifyBase(text)|])
  {
    StripIrrelevantToSlugChars(text);
  }

  /** A slug base is its own slug base, so re-slugifying is harmless. */
  lemma SlugifyBaseIdempotent(text: string)
    ensures SlugifyBase(SlugifyBase(text)) == SlugifyBase(text)
  {
    SlugCharsSurvive(SlugifyBase(text));
  }

  /** The part of an address before its first `@`, or the whole address
      when it has none: `email.split("@")[0] if "@" in email else email`. */
  function LocalPart(email: string): (r: string)
    ensures |r| <= |email| && r == email[..|r|]
    ensures '@' !in r
    ensures |r| < |email| ==> email[|r|] == '@'
  {
    if email == [] || email[0] == '@' then [] else [email[0]] + LocalPart(email[1..])
  }

  /** What `uuid4().hex[:6]` produces: six lower-case hexadecimal digits. */
  predicate IsHexSuffix(s: string)
  {
    |s| == SuffixLength && forall i :: 0 <= i < |s| ==> ('0' <= s[i] <= '9' || 'a' <= s[i] <= 'f')
  }

  /** The slug `_unique_slug` settles on: the slug base of the local part,
      or that base with the suffix appended when the base is already taken.
      The suffixed slug is not looked up again. */
  function ChosenSlug(email: string, taken: set<string>, suffix: string): (r: string)
    requires IsHexSuffix(suffix)
    ensures var base := SlugifyBase(LocalPart(email));
      && AllSlugChars(r) && 1 <= |r| <= MaxBaseLength + SuffixLength
      && (base !in taken ==> r == base)
      && (base in taken ==> r == base + suffix && r != base && |r| == |base| + SuffixLength)
  {
    var base := SlugifyBase(LocalPart(email));
    if base in taken then
      SuffixedSlug(base, suffix);
      base + suffix
    else
      base
  }

  lemma SuffixedSlug(base: string, suffix: string)
    requires IsSlugBase(base) && IsHexSuffix(suffix)
    ensures AllSlugChars(base + suffix)
    ensures |base + suffix| == |base| + SuffixLength
  {
    forall i | 0 <= i < |base + suffix| ensures IsSlugChar((base + suffix)[i]) {
      if i >= |base| {
        assert (base + suffix)[i] == suffix[i - |base|];
      }
    }
  }

  /** The chosen slug is free exactly when the base was free or the base
      with its suffix was: one retry and no more. */
  lemma ChosenSlugFreeIff(email: string, taken: set<string>, suffix: string)
    requires IsHexSuffix(suffix)
    ensures var base := SlugifyBase(LocalPart(email));
      ChosenSlug(email, taken, suffix) !in taken <==> (base !in taken || base + suffix !in taken)
  {
  }

  /** The single retry can still collide: for every address and suffix
      there is a store holding both the slug base and the suffixed slug,
      and then the chosen slug is already taken. */
  lemma ChosenSlugMayCollide(email: string, suffix: string)
    requires IsHexSuffix(suffix)
    ensures var base := SlugifyBase(LocalPart(email));
      ChosenSlug(email, {base, base + suffix}, suffix) in {base, base + suffix}
  {
  }

  /** `_unique_slug`: start from the slug base and replace it once by the
      suffixed form when the base is already stored. */
  method UniqueSlug(email: string, taken: set<string>, suffix: string) returns (slug: string)
    requires IsHexSuffix(suffix)
    ensures slug == ChosenSlug(email, taken, suffix)
  {
    var base := SlugifyBase(LocalPart(email));
    slug := base;
    if slug in taken {
      slug := base + suffix;
    }
  }
}
