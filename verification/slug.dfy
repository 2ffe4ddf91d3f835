/**
  Slug derivation, shared by the create and update handlers
  (app/index.php lines 210 and 252): lowercase the name, replace every
  maximal run of bytes outside `[a-z0-9]` by one `-`, lowercase again.
 */
module Slug {
  import opened PhpStrings

  /** The class `[a-z0-9]` of the replacement pattern. */
  predicate IsAlnum(c: char) {
    'a' <= c <= 'z' || '0' <= c <= '9'
  }

  predicate IsSlugChar(c: char) {
    IsAlnum(c) || c == '-'
  }

  /** A well-formed slug: only `[a-z0-9-]`, and never two `-` in a row. */
  predicate IsSlug(s: string) {
    && (forall i :: 0 <= i < |s| ==> IsSlugChar(s[i]))
    && (forall i :: 0 <= i < |s| - 1 ==> !(s[i] == '-' && s[i + 1] == '-'))
  }

  /** Drops the leading run of bytes outside `[a-z0-9]`. */
  function SkipRun(s: string): (r: string)
    ensures |r| <= |s|
    ensures r == s[|s| - |r|..]
    ensures |r| == 0 || IsAlnum(r[0])
    ensures forall i :: 0 <= i < |s| - |r| ==> !IsAlnum(s[i])
    decreases |s|
  {
    if |s| == 0 || IsAlnum(s[0]) then s
    else
      var r := SkipRun(s[1..]);
      assert forall i :: 1 <= i < |s| - |r| ==> s[i] == s[1..][i - 1];
      r
  }

  /**
    `preg_replace('/[^a-z0-9]+/', '-', s)`: scanning left to right, each
    maximal run outside `[a-z0-9]` becomes a single `-`.
   */
  function ReplaceRuns(s: string): (r: string)
    ensures forall i :: 0 <= i < |r| ==> IsSlugChar(r[i])
    ensures forall i :: 0 <= i < |r| - 1 ==> !(r[i] == '-' && r[i + 1] == '-')
    ensures |s| > 0 && IsAlnum(s[0]) ==> |r| > 0 && r[0] == s[0]
    ensures |s| > 0 ==> |r| > 0
    decreases |s|
  {
    if |s| == 0 then ""
    else if IsAlnum(s[0]) then [s[0]] + ReplaceRuns(s[1..])
    else "-" + ReplaceRuns(SkipRun(s))
  }

  // ------------------------------------------- the replacement, byte by byte

  /** Every byte outside `[a-z0-9]` becomes `-`; the others stay. */
  function Mask(s: string): (r: string)
    ensures |r| == |s|
    ensures forall i :: 0 <= i < |s| ==> r[i] == if IsAlnum(s[i]) then s[i] else '-'
  {
    if |s| == 0 then "" else [if IsAlnum(s[0]) then s[0] else '-'] + Mask(s[1..])
  }

  /** Drops every `-` that directly follows another `-`. */
  function Squeeze(s: string): (r: string)
    ensures |r| <= |s|
    decreases |s|
  {
    if |s| <= 1 then s
    else if s[0] == '-' && s[1] == '-' then Squeeze(s[1..])
    else [s[0]] + Squeeze(s[1..])
  }

  lemma SqueezeAfterHyphen(x: string)
    requires |x| == 0 || x[0] != '-'
    ensures Squeeze("-" + x) == "-" + Squeeze(x)
  {
    if |x| > 0 {
      assert ("-" + x)[1..] == x;
    }
  }

  /** A run outside `[a-z0-9]` masks to hyphens that squeeze down to one. */
  lemma {:induction false} SqueezeMaskOfRun(s: string)
    requires |s| > 0 && !IsAlnum(s[0])
    ensures Squeeze(Mask(s)) == Squeeze("-" + Mask(SkipRun(s)))
    decreases |s|
  {
    var t := s[1..];
    assert Mask(s) == "-" + Mask(t);
    if |t| == 0 || IsAlnum(t[0]) {
      assert SkipRun(s) == t;
    } else {
      assert SkipRun(s) == SkipRun(t);
      assert Mask(t) == "-" + Mask(t[1..]);
      assert Squeeze(Mask(s)) == Squeeze(Mask(t)) by {
        assert Mask(s)[1..] == Mask(t);
      }
      SqueezeMaskOfRun(t);
    }
  }

  /**
    `preg_replace('/[^a-z0-9]+/', '-', s)` agrees with the rule stated
    byte by byte: mask every byte outside `[a-z0-9]` to `-`, then squeeze
    each run of `-` to one. So each maximal run becomes exactly one `-`,
    in place.
   */
  lemma {:induction false} ReplaceRunsIsSqueezedMask(s: string)
    ensures ReplaceRuns(s) == Squeeze(Mask(s))
    decreases |s|
  {
    if |s| > 0 {
      if IsAlnum(s[0]) {
        ReplaceRunsIsSqueezedMask(s[1..]);
        assert Mask(s) == [s[0]] + Mask(s[1..]);
        assert Mask(s)[1..] == Mask(s[1..]);
      } else {
        var u := SkipRun(s);
        assert |u| < |s|;
        ReplaceRunsIsSqueezedMask(u);
        SqueezeMaskOfRun(s);
        SqueezeAfterHyphen(Mask(u));
      }
    }
  }

  /**
    The slug the handlers store for a shop called `name`: always made of
    `a-z`, `0-9` and `-` with no two consecutive `-`, and empty only for
    an empty name.
   */
  function Slugify(name: string): (r: string)
    ensures IsSlug(r)
    ensures |r| == 0 <==> |name| == 0
  {
    var inner := ReplaceRuns(Lower(name));
    assert HasNoUpper(inner);
    LowerOfLowercase(inner);
    Lower(inner)
  }

  /** The second `strtolower` never changes anything. */
  lemma OuterLowerIsIdentity(name: string)
    ensures Slugify(name) == ReplaceRuns(Lower(name))
  {
    LowerOfLowercase(ReplaceRuns(Lower(name)));
  }

  /** `preg_replace` leaves a well-formed slug unchanged. */
  lemma {:induction false} ReplaceRunsFixesSlugs(s: string)
    requires IsSlug(s)
    ensures ReplaceRuns(s) == s
    decreases |s|
  {
    if |s| > 0 {
      assert IsSlug(s[1..]);
      ReplaceRunsFixesSlugs(s[1..]);
      if !IsAlnum(s[0]) {
        assert s[0] == '-';
        assert |s| == 1 || IsAlnum(s[1]);
        assert SkipRun(s) == s[1..];
      }
    }
  }

  /** Well-formed slugs are exactly the fixpoints of the derivation. */
  lemma SlugFixpoint(s: string)
    ensures IsSlug(s) <==> Slugify(s) == s
  {
    if IsSlug(s) {
      assert HasNoUpper(s);
      LowerOfLowercase(s);
      ReplaceRunsFixesSlugs(s);
      LowerOfLowercase(s);
    }
  }

  /** Deriving the slug of a slug returns it unchanged. */
  lemma SlugifyIdempotent(name: string)
    ensures Slugify(Slugify(name)) == Slugify(name)
  {
    SlugFixpoint(Slugify(name));
  }

  /** The `[a-z0-9]` bytes of a string, in order. */
  function Alnums(s: string): (r: string)
    ensures forall i :: 0 <= i < |r| ==> IsAlnum(r[i])
  {
    if |s| == 0 then ""
    else if IsAlnum(s[0]) then [s[0]] + Alnums(s[1..])
    else Alnums(s[1..])
  }

  lemma {:induction false} AlnumsOfSkipRun(s: string)
    ensures Alnums(SkipRun(s)) == Alnums(s)
    decreases |s|
  {
    if |s| > 0 && !IsAlnum(s[0]) {
      AlnumsOfSkipRun(s[1..]);
    }
  }

  lemma {:induction false} AlnumsOfReplaceRuns(s: string)
    ensures Alnums(ReplaceRuns(s)) == Alnums(s)
    decreases |s|
  {
    if |s| > 0 {
      if IsAlnum(s[0]) {
        AlnumsOfReplaceRuns(s[1..]);
        assert ([s[0]] + ReplaceRuns(s[1..]))[1..] == ReplaceRuns(s[1..]);
      } else {
        var t := SkipRun(s);
        AlnumsOfReplaceRuns(t);
        AlnumsOfSkipRun(s);
        assert ("-" + ReplaceRuns(t))[1..] == ReplaceRuns(t);
      }
    }
  }

  /**
    The slug keeps every letter and digit of the lowercased name, in
    order, and adds nothing but hyphens.
   */
  lemma SlugKeepsLettersAndDigits(name: string)
    ensures Alnums(Slugify(name)) == Alnums(Lower(name))
  {
    OuterLowerIsIdentity(name);
    AlnumsOfReplaceRuns(Lower(name));
  }

  /**
    The slug is the lowercased name with every byte outside `[a-z0-9]`
    masked to `-` and each run of `-` squeezed to one.
   */
  lemma SlugifyIsSqueezedMask(name: string)
    ensures Slugify(name) == Squeeze(Mask(Lower(name)))
  {
    OuterLowerIsIdentity(name);
    ReplaceRunsIsSqueezedMask(Lower(name));
  }

  /**
    A separator between two letters or digits is kept as one hyphen, so
    `joe's` and `joe s` share the slug `joe-s`, and `joes` keeps `joes`.
   */
  lemma SeparatorsBecomeOneHyphen(a: char, c: char, b: char)
    requires IsAlnum(a) && IsAlnum(b) && !IsAlnum(c)
    ensures ReplaceRuns([a, c, b]) == [a, '-', b]
    ensures ReplaceRuns([a, b]) == [a, b]
  {
    SingleAlnum(b);
    SkipOneSeparator(c, b);
    assert ReplaceRuns([c, b]) == "-" + [b];
    AlnumThenRest(a, [c, b]);
    AlnumThenRest(a, [b]);
    assert [a] + [c, b] == [a, c, b] && [a] + [b] == [a, b];
  }

  lemma SingleAlnum(b: char)
    requires IsAlnum(b)
    ensures ReplaceRuns([b]) == [b]
  {
    assert [b][1..] == [];
  }

  lemma SkipOneSeparator(c: char, b: char)
    requires IsAlnum(b) && !IsAlnum(c)
    ensures SkipRun([c, b]) == [b]
  {
    assert [c, b][1..] == [b];
  }

  lemma AlnumThenRest(a: char, t: string)
    requires IsAlnum(a)
    ensures ReplaceRuns([a] + t) == [a] + ReplaceRuns(t)
  {
    assert ([a] + t)[1..] == t;
  }
}
