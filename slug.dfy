/**
 * `random_slug` (src/main.rs): a paste's name, built one letter at a time
 * from the thread-local random generator.
 *
 * The generator is an input: a sequence of raw draws, one per letter.
 * `gen_range(lo..hi)` turns a draw into a value of the half-open range
 * `lo..hi`; the model reduces the draw modulo the width of the range, which
 * keeps exactly what the range promises (every value of `lo..hi-1` is
 * reachable, `hi` never is) and nothing about the distribution.
 */
module Slug {

  /** `b'a'`, the inclusive lower bound of the range passed to `gen_range`. */
  const LetterLow: int := 97

  /** `b'z'`, the EXCLUDED upper bound of the range passed to `gen_range`. */
  const LetterHigh: int := 122

  /** The value `gen_range(lo..hi)` yields for one raw draw. */
  function GenRange(lo: int, hi: int, draw: nat): (v: int)
    requires lo < hi
    ensures lo <= v < hi
  {
    lo + draw % (hi - lo)
  }

  /** The characters a slug can hold: `'a'` to `'y'`, since `b'z'` is excluded. */
  predicate IsSlugChar(c: char) {
    'a' <= c <= 'y'
  }

  /** One iteration's character: `rng.gen_range(b'a'..b'z') as char`. */
  function Letter(draw: nat): char {
    GenRange(LetterLow, LetterHigh, draw) as char
  }

  /** The slug a sequence of draws produces, one pushed letter per draw. */
  function SlugOf(draws: seq<nat>): (s: string)
    ensures |s| == |draws|
    ensures forall i :: 0 <= i < |s| ==> IsSlugChar(s[i])
  {
    if draws == [] then ""
    else SlugOf(draws[..|draws| - 1]) + [Letter(draws[|draws| - 1])]
  }

  /** Letter i of the slug is the letter of draw i: the draws are used in order. */
  lemma {:induction false} SlugOfAt(draws: seq<nat>, i: nat)
    requires i < |draws|
    ensures SlugOf(draws)[i] == Letter(draws[i])
  {
    if i < |draws| - 1 {
      SlugOfAt(draws[..|draws| - 1], i);
    }
  }

  /** The letter `z` never occurs in a slug. */
  lemma NeverZ(draws: seq<nat>)
    ensures 'z' !in SlugOf(draws)
  {
  }

  /**
   * Every string over `a`..`y` is the slug of some draws, so the alphabet is
   * exactly `a`..`y`.
   */
  lemma {:induction false} EveryLetterReachable(s: string) returns (draws: seq<nat>)
    requires forall i :: 0 <= i < |s| ==> IsSlugChar(s[i])
    ensures SlugOf(draws) == s
  {
    draws := seq(|s|, i requires 0 <= i < |s| => s[i] as int - LetterLow);
    forall i | 0 <= i < |s|
      ensures SlugOf(draws)[i] == s[i]
    {
      SlugOfAt(draws, i);
    }
  }

  /**
   * `random_slug(l)`: pushes `l` letters into an empty string. The first
   * `l` draws are consumed.
   */
  method RandomSlug(l: nat, draws: seq<nat>) returns (out: string)
    requires l <= |draws|
    ensures out == SlugOf(draws[..l])
    ensures |out| == l
    ensures forall i :: 0 <= i < l ==> IsSlugChar(out[i]) && out[i] == Letter(draws[i])
  {
    out := "";
    for i := 0 to l
      invariant out == SlugOf(draws[..i])
    {
      assert draws[..i + 1][..i] == draws[..i];
      out := out + [Letter(draws[i])];
    }
    forall i | 0 <= i < l
      ensures out[i] == Letter(draws[i])
    {
      SlugOfAt(draws[..l], i);
    }
  }
}
