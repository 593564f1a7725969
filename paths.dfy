// '/'-separated path names, as far as extraction uses them (Poco::Path on a
// POSIX host, and std::string::find on entry names). Devices, Windows
// separators and the normalisation of "." segments are not modelled.
module Paths {

  predicate IsAbsolute(p: string)
  {
    |p| > 0 && p[0] == '/'
  }

  /** `sub` occurs in `s` starting at index `i`. */
  predicate OccursAt(s: string, sub: string, i: nat)
  {
    i + |sub| <= |s| && s[i..i + |sub|] == sub
  }

  /** std::string::find(sub) != npos, scanning from the front. */
  predicate Contains(s: string, sub: string)
    decreases |s|
  {
    |sub| <= |s| && (s[..|sub|] == sub || (|s| > 0 && Contains(s[1..], sub)))
  }

  /** The scan finds `sub` exactly when it occurs at some index of `s`. */
  lemma {:induction false} ContainsOccurs(s: string, sub: string)
    ensures Contains(s, sub) <==> exists i: nat :: OccursAt(s, sub, i)
    decreases |s|
  {
    if Contains(s, sub) {
      if s[..|sub|] == sub {
        assert OccursAt(s, sub, 0);
      } else {
        ContainsOccurs(s[1..], sub);
        var i: nat :| OccursAt(s[1..], sub, i);
        assert s[1..][i..i + |sub|] == s[i + 1..i + 1 + |sub|];
        assert OccursAt(s, sub, i + 1);
      }
    }
    if i: nat :| OccursAt(s, sub, i) {
      if i > 0 {
        assert s[1..][i - 1..i - 1 + |sub|] == s[i..i + |sub|];
        assert OccursAt(s[1..], sub, i - 1);
        ContainsOccurs(s[1..], sub);
      } else {
        assert s[..|sub|] == s[0..|sub|];
      }
    }
  }

  /** The last segment of a path: everything after its last '/'
      (Poco::Path::getFileName). */
  function LastSegment(s: string): (r: string)
    ensures '/' !in r
    ensures |r| <= |s| && r == s[|s| - |r|..]
    ensures |r| < |s| ==> s[|s| - |r| - 1] == '/'
  {
    if |s| == 0 || s[|s| - 1] == '/' then ""
    else
      var init := s[..|s| - 1];
      var r := LastSegment(init) + [s[|s| - 1]];
      assert init[|init| - |r| + 1..] + [s[|s| - 1]] == s[|s| - |r|..];
      r
  }

  /** The directory part of a path: everything before its last '/', or "" when it
      has none (Poco::Path::parent as a file name; "" means depth 0). */
  function Parent(s: string): (r: string)
    ensures |LastSegment(s)| < |s| ==> s == r + "/" + LastSegment(s)
    ensures |LastSegment(s)| == |s| ==> r == ""
  {
    var last := LastSegment(s);
    if |last| < |s| then
      var r := s[..|s| - |last| - 1];
      assert s == r + [s[|s| - |last| - 1]] + s[|s| - |last|..];
      r
    else ""
  }

  /** The path Poco::File operates on: one trailing '/' removed. */
  function StripSlash(p: string): string
  {
    if |p| > 1 && p[|p| - 1] == '/' then p[..|p| - 1] else p
  }

  /** `p` resolved against directory `base` (Path::makeAbsolute, and the operating
      system's lookup of a relative name from the working directory): an absolute
      `p` replaces the base. */
  function ResolvePath(base: string, p: string): (r: string)
    ensures IsAbsolute(p) ==> r == p
    ensures !IsAbsolute(p) ==> |p| <= |r| && r[|r| - |p|..] == p && r[..|r| - |p|] != ""
    // A relative `p` lands under `base`, after a '/' unless `base` already ends in one.
    ensures !IsAbsolute(p) ==>
      && |base| <= |r| && r[..|base|] == base
      && (r[|base|..] == p || r[|base|..] == "/" + p)
      && (r[|base|..] == "/" + p <==> !(|base| > 0 && base[|base| - 1] == '/'))
  {
    if IsAbsolute(p) then p
    else if |base| > 0 && base[|base| - 1] == '/' then base + p
    else base + "/" + p
  }

  /** Poco::Path(parent, p): `p` resolved against the directory part of `parent`.
      The parent's last segment is its file name, and `p` replaces it, so a parent
      without a trailing '/' contributes only the directory that holds it. An
      absolute `p` replaces the parent. */
  function JoinPath(parent: string, p: string): (r: string)
    ensures IsAbsolute(p) ==> r == p
    // The parent up to its last '/', then `p`.
    ensures !IsAbsolute(p) && |LastSegment(parent)| < |parent| ==> r == Parent(parent) + "/" + p
    ensures !IsAbsolute(p) && |LastSegment(parent)| == |parent| ==> r == p
    // A parent in directory form is kept whole.
    ensures !IsAbsolute(p) && |parent| > 0 && parent[|parent| - 1] == '/' ==> r == parent + p
  {
    if IsAbsolute(p) then p
    else
      var dir := parent[..|parent| - |LastSegment(parent)|];
      assert |LastSegment(parent)| < |parent| ==> dir == Parent(parent) + "/";
      dir + p
  }
}
