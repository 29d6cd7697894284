/** File-name handling: `os.path.basename`, `os.path.splitext` and the photo-path normalisation. */
module Paths {
  import opened Wrappers
  import opened Text

  /** `posixpath.basename(p)`: the part after the last `/`. */
  function BaseName(p: string): (r: string)
    ensures '/' !in r
    ensures |r| <= |p| && r == p[|p| - |r|..]
    ensures r == p || p[|p| - |r| - 1] == '/'
  {
    match LastIndexOf(p, '/')
    case None => p
    case Some(k) => p[k + 1..]
  }

  /** A separator-free suffix of the normalised path is the same suffix of the original path. */
  lemma NormalisedSuffix(path: string, q: string, b: string)
    requires |q| == |path|
    requires forall k :: 0 <= k < |path| ==> q[k] == (if path[k] == '\\' then '/' else path[k])
    requires |b| <= |q| && b == q[|q| - |b|..] && '/' !in b
    requires b == q || q[|q| - |b| - 1] == '/'
    ensures b == path[|path| - |b|..] && '\\' !in b
    ensures b != path ==> path[|path| - |b| - 1] == '/' || path[|path| - |b| - 1] == '\\'
  {
    var off := |q| - |b|;
    forall j | off <= j < |q|
      ensures path[j] == q[j] && path[j] != '\\'
    {
      assert q[j] == b[j - off];
    }
    assert b == path[off..];
  }

  lemma FileNameSuffix(path: string)
    ensures var b := BaseName(ReplaceChar(path, '\\', "/"));
            |b| <= |path| && b == path[|path| - |b|..] && '\\' !in b
            && (b != path ==> path[|path| - |b| - 1] == '/' || path[|path| - |b| - 1] == '\\')
  {
    var q := ReplaceChar(path, '\\', "/");
    assert |"/"| == 1 && "/"[0] == '/';
    var b := BaseName(q);
    NormalisedSuffix(path, q, b);
  }

  /**
   * `get_filename_from_path`: None for an empty path; otherwise the part after the
   * last `/` or `\`, both being accepted as separators.
   */
  function FileNameFromPath(path: string): (r: Option<string>)
    ensures r.None? <==> path == ""
    ensures r.Some? ==> '/' !in r.value && '\\' !in r.value
    ensures r.Some? ==> |r.value| <= |path| && r.value == path[|path| - |r.value|..]
    ensures r.Some? && r.value != path ==>
      path[|path| - |r.value| - 1] == '/' || path[|path| - |r.value| - 1] == '\\'
  {
    if path == "" then None
    else
      FileNameSuffix(path);
      Some(BaseName(ReplaceChar(path, '\\', "/")))
  }

  /** A name with no separator in it is its own file name. */
  lemma PlainFileName(name: string)
    requires name != "" && '/' !in name && '\\' !in name
    ensures FileNameFromPath(name) == Some(name)
  {
    assert forall i :: 0 <= i < |name| ==> name[i] != '/' && name[i] != '\\';
  }

  /** The first character of `s` that is not a dot, if any. */
  function FirstNonDot(s: string): (r: Option<nat>)
    ensures r.Some? ==> r.value < |s| && s[r.value] != '.'
    ensures r.None? ==> forall k :: 0 <= k < |s| ==> s[k] == '.'
  {
    if |s| == 0 then None
    else if s[0] != '.' then Some(0)
    else match FirstNonDot(s[1..]) case None => None case Some(k) => Some(k + 1)
  }

  /**
   * The last path component of `p` holds a dot after some character other than a dot,
   * which is when `splitext` finds an extension.
   */
  predicate HasExtension(p: string)
  {
    exists j, d :: 0 <= j < d < |p| && p[j] != '.' && p[d] == '.' && NoSlashFrom(p, j)
  }

  predicate NoSlashFrom(p: string, j: nat)
  {
    forall i :: j <= i < |p| ==> p[i] != '/'
  }

  /**
   * `posixpath.splitext(p)[0]`: `p` without the text from its last dot on, provided
   * that dot lies in the last path component and is preceded there by a character
   * other than a dot; otherwise `p` itself.
   */
  function SplitExtRoot(p: string): (r: string)
    ensures |r| <= |p| && r == p[..|r|]
    ensures r != p ==> p[|r|] == '.' && forall k :: |r| < k < |p| ==> p[k] != '.' && p[k] != '/'
    ensures r != p ==> exists k :: 0 <= k < |r| && r[k] != '.' && forall j :: k <= j < |r| ==> r[j] != '/'
  {
    match LastIndexOf(p, '.')
    case None => p
    case Some(d) =>
      var start := match LastIndexOf(p, '/') case None => 0 case Some(sl) => sl + 1;
      if start <= d then
        match FirstNonDot(p[start..d])
        case None => p
        case Some(j) =>
          assert p[..d][start + j] == p[start + j] != '.';
          assert forall i :: start + j <= i < d ==> p[..d][i] != '/';
          p[..d]
      else p
  }

  /** Whenever the last component holds a dot after a non-dot character, an extension is removed. */
  lemma SplitExtRootFindsExtension(p: string)
    ensures HasExtension(p) ==> SplitExtRoot(p) != p
  {
    if HasExtension(p) {
      var j, e :| 0 <= j < e < |p| && p[j] != '.' && p[e] == '.' && NoSlashFrom(p, j);
      assert p[e] in p;
      var d := LastIndexOf(p, '.').value;
      assert e <= d;
      var start := match LastIndexOf(p, '/') case None => 0 case Some(sl) => sl + 1;
      assert start <= j;
      assert p[start..d][j - start] == p[j];
      assert FirstNonDot(p[start..d]).Some?;
      assert |SplitExtRoot(p)| == d;
    }
  }

  /** The extension, from the last dot on, is dropped. */
  lemma SplitExtRootDropsExtension()
    ensures SplitExtRoot("photo.jpg") == "photo"
  {
    var p := "photo.jpg";
    assert p[5] == '.' && '.' !in p[6..];
    assert '/' !in p;
    assert p[0] != '.';
    assert p[..5] == "photo";
  }

  /** Only the last extension is dropped. */
  lemma SplitExtRootDropsLastExtension()
    ensures SplitExtRoot("data.tar.gz") == "data.tar"
  {
    var p := "data.tar.gz";
    assert p[8] == '.' && '.' !in p[9..];
    assert '/' !in p;
    assert p[0] != '.';
    assert p[..8] == "data.tar";
  }

  /** A leading dot does not start an extension. */
  lemma SplitExtRootKeepsHiddenName()
    ensures SplitExtRoot(".hidden") == ".hidden"
  {
    var p := ".hidden";
    assert p[0] == '.' && '.' !in p[1..];
    assert '/' !in p;
  }

  /** A name without a dot has no extension. */
  lemma SplitExtRootKeepsBareName()
    ensures SplitExtRoot("README") == "README"
  {
    assert '.' !in "README";
  }
}
