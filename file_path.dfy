/**
  The string predicates on `FilePath` in `FilePath++.swift`
  (CorePersistence), read on the path's string value, with the directory
  separator `/` of `FilePath+FileManager.swift`.
 */
module FilePath {
  import opened Text

  const DirectorySeparator: string := "/"

  /** `isAbsolute`: the path starts with the directory separator. */
  predicate IsAbsolute(path: string) {
    StartsWith(path, DirectorySeparator)
  }

  /** `isLiteralHardlinkToCurrent`: the path is exactly `.`. */
  predicate IsLiteralHardlinkToCurrent(path: string) {
    path == "."
  }

  /** `isLiteralHardlinkToParent`: the path is exactly `..`. */
  predicate IsLiteralHardlinkToParent(path: string) {
    path == ".."
  }

  /** `isEmptyOrLiteralHardlinkToCurrent`. */
  predicate IsEmptyOrLiteralHardlinkToCurrent(path: string) {
    |path| == 0 || IsLiteralHardlinkToCurrent(path)
  }

  // ----- properties -----

  /** A path is absolute exactly when its first character is `/`. */
  lemma AbsoluteIffLeadingSlash(path: string)
    ensures IsAbsolute(path) <==> |path| > 0 && path[0] == '/'
  {
    if |path| > 0 {
      assert path[..1] == [path[0]];
    }
  }

  /** The literal links, the empty path and absolute paths do not overlap. */
  lemma LiteralLinksAreRelative(path: string)
    ensures IsLiteralHardlinkToCurrent(path) ==> !IsAbsolute(path) && !IsLiteralHardlinkToParent(path)
    ensures IsLiteralHardlinkToParent(path) ==> !IsAbsolute(path) && !IsEmptyOrLiteralHardlinkToCurrent(path)
    ensures IsEmptyOrLiteralHardlinkToCurrent(path) ==> !IsAbsolute(path)
  {
    AbsoluteIffLeadingSlash(path);
  }

  /** Exactly two paths are empty or a link to the current directory. */
  lemma EmptyOrCurrentIsTwoPaths(path: string)
    ensures IsEmptyOrLiteralHardlinkToCurrent(path) <==> path == "" || path == "."
  {
  }

  /** A path with a leading separator stays absolute whatever follows it. */
  lemma AbsoluteUnderAppend(path: string, rest: string)
    requires IsAbsolute(path)
    ensures IsAbsolute(path + rest)
  {
    assert (path + rest)[..1] == path[..1];
  }
}
