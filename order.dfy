/**
 * How versions compare.  `Less` is what the source computes; `LexLess` is
 * the lexicographic order of the four components, the order "semantically
 * lower" describes.
 */
module VersionOrder {
  import opened Rbxver

  /** No version is `Less` than itself. */
  lemma LessIrreflexive(v: Version)
    ensures !v.Less(v)
  {
  }

  /** `Less` is false as soon as no component is smaller. */
  lemma NotLessWhenNoneSmaller(v: Version, u: Version)
    requires forall k | 0 <= k < 4 :: v.Field(k) >= u.Field(k)
    ensures !v.Less(u)
  {
  }

  /** `Less` is not an order: two versions can each be `Less` than the other. */
  lemma LessNotAsymmetric()
    ensures Version(2, 0, 0, 0).Less(Version(1, 5, 0, 0))
    ensures Version(1, 5, 0, 0).Less(Version(2, 0, 0, 0))
  {
  }

  lemma LexLessIrreflexive(v: Version)
    ensures !v.LexLess(v)
  {
  }

  lemma LexLessAsymmetric(v: Version, u: Version)
    ensures v.LexLess(u) ==> !u.LexLess(v)
  {
  }

  lemma LexLessTransitive(v: Version, u: Version, t: Version)
    requires v.LexLess(u) && u.LexLess(t)
    ensures v.LexLess(t)
  {
  }

  /** Any two different versions are ordered one way or the other. */
  lemma LexLessTotal(v: Version, u: Version)
    requires v != u
    ensures v.LexLess(u) || u.LexLess(v)
  {
  }

  /** Whatever is lexicographically lower is also `Less`, but not the other way round. */
  lemma LexLessIsLess(v: Version, u: Version)
    ensures v.LexLess(u) ==> v.Less(u)
    ensures Version(2, 0, 0, 0).Less(Version(1, 5, 0, 0)) && !Version(2, 0, 0, 0).LexLess(Version(1, 5, 0, 0))
  {
  }
}
