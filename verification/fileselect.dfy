/** The index lookups of the file-selection dialog (file_select_ctx.go):
    which immediate sub-directory of a directory node contains a path, and
    where a path sits in the list of files. Paths are plain strings with
    `/` as the separator.
 */
module FileSelect {
  import Session

  /** `path` with exactly one separator added when it does not end in one. */
  function WithSlash(path: string): (r: string)
    ensures |path| > 0 && path[|path| - 1] == Session.Separator ==> r == path
    ensures (|path| == 0 || path[|path| - 1] != Session.Separator) ==> r == path + [Session.Separator]
  {
    if |path| > 0 && path[|path| - 1] == Session.Separator then path else path + [Session.Separator]
  }

  /** `dir + "/"` is a prefix of the normalised `path`: the path lies in or under `dir`. */
  predicate Under(path: string, dir: string)
  {
    dir + [Session.Separator] <= WithSlash(path)
  }

  /** `directoryNode.ItemIndex`: the first sub-directory that holds `item`
      (the item itself or anything beneath it), or -1. */
  method DirectoryItemIndex(subdirs: seq<string>, item: string) returns (r: int)
    ensures -1 <= r < |subdirs|
    ensures r >= 0 ==> Under(item, subdirs[r])
    ensures forall j :: 0 <= j < |subdirs| && (r == -1 || j < r) ==> !Under(item, subdirs[j])
  {
    var path := item;
    if !(|path| > 0 && path[|path| - 1] == Session.Separator) {
      path := path + [Session.Separator];
    }
    var i := 0;
    while i < |subdirs|
      invariant 0 <= i <= |subdirs|
      invariant path == WithSlash(item)
      invariant forall j :: 0 <= j < i ==> !Under(item, subdirs[j])
    {
      var subpath := subdirs[i] + [Session.Separator];
      if subpath <= path {
        return i;
      }
      i := i + 1;
    }
    return -1;
  }

  /** `filesAdapter.ItemIndex`: the position of the first file equal to
      `path`, or -1. */
  method FilesItemIndex(files: seq<string>, path: string) returns (r: int)
    ensures -1 <= r < |files|
    ensures r >= 0 ==> files[r] == path
    ensures r == -1 <==> path !in files
    ensures forall j :: 0 <= j < |files| && (r == -1 || j < r) ==> files[j] != path
  {
    var i := 0;
    while i < |files|
      invariant 0 <= i <= |files|
      invariant path !in files[..i]
    {
      if files[i] == path {
        return i;
      }
      assert files[..i + 1] == files[..i] + [files[i]];
      i := i + 1;
    }
    assert files[..i] == files;
    return -1;
  }

  /** A path is under a directory (one not ending in a separator) exactly
      when it is that directory, with or without a trailing separator, or
      it continues the directory's path after a separator. */
  lemma {:induction false} UnderMeans(path: string, dir: string)
    requires |dir| > 0 && dir[|dir| - 1] != Session.Separator
    ensures Under(path, dir) <==> path == dir || dir + [Session.Separator] <= path
  {
    var d := dir + [Session.Separator];
    if |path| > 0 && path[|path| - 1] == Session.Separator {
      assert WithSlash(path) == path;
      assert path != dir;
    } else {
      var p := path + [Session.Separator];
      if d <= p && !(d <= path) {
        assert dir == p[..|dir|] == path;
      }
      if d <= path {
        assert d == path[..|d|] == p[..|d|];
      }
    }
  }

  /** A sibling sharing a name prefix is not mistaken for a sub-directory. */
  lemma SiblingIsNotUnder()
    ensures !Under("/a/bc", "/a/b")
    ensures Under("/a/b/c", "/a/b")
    ensures Under("/a/b", "/a/b")
  {
    assert WithSlash("/a/bc") == "/a/bc/";
    assert "/a/b/"[3] != "/a/bc/"[3] || "/a/b/"[4] != "/a/bc/"[4];
    assert WithSlash("/a/b/c") == "/a/b/c/";
    assert "/a/b/c/"[..5] == "/a/b/";
  }
}
