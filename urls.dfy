/**
 * The two URL helpers of the converter: resolving a site-relative or
 * protocol-relative URL, and swapping the extension at the end of a path.
 */
module Urls {
  import opened Wrappers
  import opened Strings

  /** The site every site-relative path is resolved against. */
  const Root: string := "https://voxeltycoon.xyz"

  /**
   * `getUrl`: a protocol-relative URL gets the `https:` scheme, a
   * site-relative one gets the root, anything else is kept. The result never
   * starts with '/' and always ends with the URL it was given.
   */
  function GetUrl(url: string): (r: string)
    ensures StartsWith(url, "//") ==> r == "https:" + url
    ensures !StartsWith(url, "//") && StartsWith(url, "/") ==> r == Root + url
    ensures !StartsWith(url, "/") ==> r == url
    ensures !StartsWith(r, "/")
    ensures |url| <= |r| && r[|r| - |url|..] == url
  {
    var r := if StartsWith(url, "//") then "https:" + url
      else if StartsWith(url, "/") then Root + url
      else url;
    assert r != [] ==> r[..1] == [r[0]];
    r
  }

  /** Resolving an already resolved URL changes nothing. */
  lemma GetUrlIdempotent(url: string)
    ensures GetUrl(GetUrl(url)) == GetUrl(url)
  {
  }

  /**
   * The extension pattern matches at index `i` of `s`: a '.' followed by one
   * or more characters, none of them '/' or '.', up to the end of `s`.
   */
  predicate ExtensionAt(s: string, i: int) {
    && 0 <= i < |s| - 1
    && s[i] == '.'
    && forall k :: i < k < |s| ==> s[k] != '/' && s[k] != '.'
  }

  /** The extension pattern matches in at most one place, so the leftmost match is the only one. */
  lemma ExtensionAtUnique(s: string, i: int, j: int)
    requires ExtensionAt(s, i) && ExtensionAt(s, j)
    ensures i == j
  {
  }

  /**
   * Scans `s[..k]` backwards for the '.' that starts an extension, given that
   * `s[k..]` holds no '/' and no '.'.
   */
  function FindExtensionBefore(s: string, k: nat): (r: Option<nat>)
    requires k <= |s|
    requires forall j :: k <= j < |s| ==> s[j] != '/' && s[j] != '.'
    ensures r.Some? ==> ExtensionAt(s, r.value)
    ensures r.None? ==> forall i :: !ExtensionAt(s, i)
  {
    if k == 0 then None
    else if s[k - 1] == '.' then (if k < |s| then Some(k - 1) else None)
    else if s[k - 1] == '/' then None
    else FindExtensionBefore(s, k - 1)
  }

  /** Where the extension of `s` starts, if it has one. */
  function FindExtension(s: string): (r: Option<nat>)
    ensures r.Some? ==> ExtensionAt(s, r.value)
    ensures r.None? ==> forall i :: !ExtensionAt(s, i)
  {
    FindExtensionBefore(s, |s|)
  }

  /**
   * `changeExtension`: replaces the first (and only) match of the extension
   * pattern. When the path ends in an extension, everything before its '.' is
   * kept and the extension is replaced; otherwise the path comes back unchanged.
   */
  function ChangeExtension(filePath: string, newExtension: string): (r: string)
    ensures forall i :: ExtensionAt(filePath, i) ==> r == filePath[..i] + newExtension
    ensures (forall i :: !ExtensionAt(filePath, i)) ==> r == filePath
  {
    match FindExtension(filePath)
    case Some(i) =>
      assert forall j :: ExtensionAt(filePath, j) ==> j == i by {
        forall j | ExtensionAt(filePath, j) ensures j == i {
          ExtensionAtUnique(filePath, i, j);
        }
      }
      filePath[..i] + newExtension
    case None => filePath
  }

  /**
   * Changing the extension to one that itself matches the pattern (such as
   * ".webp") a second time changes nothing more.
   */
  lemma ChangeExtensionIdempotent(filePath: string, newExtension: string)
    requires ExtensionAt(newExtension, 0)
    ensures ChangeExtension(ChangeExtension(filePath, newExtension), newExtension)
         == ChangeExtension(filePath, newExtension)
  {
    match FindExtension(filePath)
    case Some(i) =>
      var r := filePath[..i] + newExtension;
      assert r == ChangeExtension(filePath, newExtension);
      forall k | i < k < |r| ensures r[k] != '/' && r[k] != '.' {
        assert r[k] == newExtension[k - i];
      }
      assert ExtensionAt(r, i);
      assert r[..i] == filePath[..i];
    case None =>
  }

  /** The example of a video path whose ".mp4" becomes ".webp". */
  lemma ChangeExtensionExample()
    ensures ChangeExtension("a/b/video.mp4", ".webp") == "a/b/video.webp"
  {
    var p := "a/b/video.mp4";
    assert ExtensionAt(p, 9);
    assert p[..9] == "a/b/video";
  }

  /** A path without an extension is left as it is. */
  lemma ChangeExtensionNoExtensionExample()
    ensures ChangeExtension("a.b/video", ".webp") == "a.b/video"
  {
    var p := "a.b/video";
    forall i ensures !ExtensionAt(p, i) {
      if 0 <= i < 3 {
        assert p[3] == '/';
      }
    }
  }
}
