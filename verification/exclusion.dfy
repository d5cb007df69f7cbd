/**
 * The file filter of getAllFiles (generate_manifest.js:22): a non-directory
 * entry is skipped when its name ends in `manifest.json`, compared without
 * regard to case, or when it begins with a dot.
 */
module Exclusion {

  /** The literal the regular expression `/manifest\.json$/i` looks for. */
  const ManifestPattern: string := "manifest.json"

  /**
   * Case folding of the `i` flag. A JavaScript regular expression without the
   * `u` flag folds a character through its upper-case form, but never maps a
   * non-ASCII character onto an ASCII one; since the pattern is all ASCII, two
   * characters match exactly when they agree after ASCII lower-casing.
   */
  function AsciiLower(c: char): (d: char)
    ensures 'A' <= c <= 'Z' ==> 'a' <= d <= 'z' && d as int - c as int == 32
    ensures !('A' <= c <= 'Z') ==> d == c
  {
    if 'A' <= c <= 'Z' then (c as int + 32) as char else c
  }

  function Lowered(s: string): string
  {
    seq(|s|, i requires 0 <= i < |s| => AsciiLower(s[i]))
  }

  /** The name ends in `manifest.json`, ignoring case. */
  predicate IsManifestFile(name: string)
  {
    |ManifestPattern| <= |name| && Lowered(name[|name| - |ManifestPattern|..]) == ManifestPattern
  }

  /** The name begins with `.`. */
  predicate IsHiddenFile(name: string)
  {
    |name| > 0 && name[0] == '.'
  }

  /**
   * A non-directory entry with this name is listed: the regular expression
   * finds no match and the name does not start with a dot.
   */
  predicate Kept(name: string)
    ensures Kept(name) <==> !RegexTest(name) && (name == [] || name[0] != '.')
  {
    RegexTestIsSuffixCheck(name);
    !IsManifestFile(name) && !IsHiddenFile(name)
  }

  /**
   * What `RegExp.prototype.test` does with the pattern: search every start
   * position for a case-insensitive occurrence of the literal that ends where
   * the name ends (the `$` anchor).
   */
  ghost predicate RegexMatchesAt(name: string, start: int)
  {
    0 <= start && start + |ManifestPattern| == |name| &&
    forall k :: 0 <= k < |ManifestPattern| ==> AsciiLower(name[start + k]) == AsciiLower(ManifestPattern[k])
  }

  ghost predicate RegexTest(name: string)
  {
    exists start :: 0 <= start <= |name| && RegexMatchesAt(name, start)
  }

  /** The suffix check is exactly the anchored regular-expression search. */
  lemma RegexTestIsSuffixCheck(name: string)
    ensures RegexTest(name) <==> IsManifestFile(name)
  {
    var p := ManifestPattern;
    assert Lowered(p) == p;
    if IsManifestFile(name) {
      var start := |name| - |p|;
      forall k | 0 <= k < |p|
        ensures AsciiLower(name[start + k]) == AsciiLower(p[k])
      {
        assert name[start..][k] == name[start + k];
        assert Lowered(name[start..])[k] == p[k];
      }
      assert RegexMatchesAt(name, start);
    }
    if RegexTest(name) {
      var start :| 0 <= start <= |name| && RegexMatchesAt(name, start);
      assert start == |name| - |p|;
      var tail := Lowered(name[start..]);
      assert |tail| == |p|;
      forall k | 0 <= k < |p|
        ensures tail[k] == p[k]
      {
        assert AsciiLower(name[start + k]) == AsciiLower(p[k]);
        assert AsciiLower(p[k]) == p[k];
      }
      assert tail == p;
    }
  }

  /**
   * Any name ending in any upper/lower-case spelling of `manifest.json`
   * (`MANIFEST.JSON`, `Game_Manifest.Json`, ...) is excluded.
   */
  lemma {:induction false} CaseVariantExcluded(stem: string, suffix: string)
    requires Lowered(suffix) == ManifestPattern
    ensures IsManifestFile(stem + suffix)
    ensures !Kept(stem + suffix)
  {
    var name := stem + suffix;
    assert |suffix| == |ManifestPattern|;
    assert name[|name| - |ManifestPattern|..] == suffix;
  }

  /** Every name beginning with a dot is excluded, whatever follows. */
  lemma HiddenExcluded(rest: string)
    ensures !Kept(['.'] + rest)
  {
  }
}
