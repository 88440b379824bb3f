/** Path comparison used by the active-link rule (`samePath` in
    components/custom/navbar.tsx): an empty path is the root, and trailing
    slashes are ignored. */
module Paths {
  import opened Text

  predicate AllSlashes(p: string)
  {
    forall k :: 0 <= k < |p| ==> p[k] == '/'
  }

  /** The normal form of a path: an empty path stands for the root, the
      maximal run of trailing slashes is removed, and a path left empty by
      that removal is again the root. */
  function Normalize(p: string): (r: string)
    ensures |r| > 0
    ensures r[|r| - 1] == '/' <==> r == "/"
    ensures AllSlashes(p) ==> r == "/"
    ensures !AllSlashes(p) ==> |r| <= |p| && r == p[..|r|] && !AllSlashes(r)
    ensures !AllSlashes(p) ==> forall k :: |r| <= k < |p| ==> p[k] == '/'
  {
    var stem := StripTrailing(if p == "" then "/" else p, '/');
    if stem == "" then "/" else stem
  }

  /** `samePath(a, b)`: the two paths have the same normal form, which is
      the same as agreeing once trailing slashes are dropped (so "", "/" and
      "///" are all the root). */
  predicate SamePath(a: string, b: string): (r: bool)
    ensures r <==> StripTrailing(a, '/') == StripTrailing(b, '/')
  {
    StemOfEmptyOrRoot(a);
    StemOfEmptyOrRoot(b);
    Normalize(a) == Normalize(b)
  }

  /** A path already in normal form is left alone, so normalising twice is
      the same as normalising once. */
  lemma NormalizeIdempotent(p: string)
    ensures Normalize(Normalize(p)) == Normalize(p)
  {
    var r := Normalize(p);
    if r != "/" {
      assert StripTrailing(r, '/') == r;
    }
  }

  /** `samePath` is an equivalence relation on paths. */
  lemma SamePathEquivalence(a: string, b: string, c: string)
    ensures SamePath(a, a)
    ensures SamePath(a, b) ==> SamePath(b, a)
    ensures SamePath(a, b) && SamePath(b, c) ==> SamePath(a, c)
  {
  }

  /** The normal form is the slash-free stem, or "/" when that stem is empty. */
  lemma StemOfEmptyOrRoot(p: string)
    ensures Normalize(p) == (if StripTrailing(p, '/') == "" then "/" else StripTrailing(p, '/'))
  {
    if p == "" {
      assert StripTrailing("/", '/') == StripTrailing("", '/');
    }
  }

  /** A non-empty path with no trailing slash is its own normal form. */
  lemma NormalizeFixesCleanPath(p: string)
    requires |p| > 0 && p[|p| - 1] != '/'
    ensures Normalize(p) == p
  {
  }
}
