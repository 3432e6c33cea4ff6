/**
 * `App\Model\WebDir`: paths under the public web directory. The directory
 * separator is the platform's `DIRECTORY_SEPARATOR`, passed in as `sep`.
 */
module WebDir {

  /** `getPath($suffix)`: the web directory, joined to the suffix when there is one. */
  function GetPath(wwwDir: string, sep: string, suffix: string): (r: string)
    ensures suffix == "" ==> r == wwwDir
    ensures suffix != "" ==> r == wwwDir + sep + suffix
  {
    wwwDir + (if suffix != "" then sep + suffix else "")
  }

  /** The result starts with the web directory; with a suffix it ends with the suffix, after exactly one separator. */
  lemma PathShape(wwwDir: string, sep: string, suffix: string)
    ensures var r := GetPath(wwwDir, sep, suffix);
      && r[..|wwwDir|] == wwwDir
      && (suffix != "" ==>
            && |r| == |wwwDir| + |sep| + |suffix|
            && r[|wwwDir|..|wwwDir| + |sep|] == sep
            && r[|r| - |suffix|..] == suffix)
  {
    var r := GetPath(wwwDir, sep, suffix);
    if suffix != "" {
      assert r == wwwDir + sep + suffix;
      assert r[|wwwDir|..|wwwDir| + |sep|] == sep;
      assert r[|r| - |suffix|..] == suffix;
    }
    assert r[..|wwwDir|] == wwwDir;
  }

  /** Splitting the result at the separator gives the directory and the suffix back. */
  lemma PathSplits(wwwDir: string, sep: string, suffix: string)
    requires suffix != ""
    ensures var r := GetPath(wwwDir, sep, suffix);
      r[..|wwwDir|] == wwwDir && r[|wwwDir| + |sep|..] == suffix
  {
    var r := GetPath(wwwDir, sep, suffix);
    assert r == wwwDir + sep + suffix;
    assert r[|wwwDir| + |sep|..] == suffix;
    assert r[..|wwwDir|] == wwwDir;
  }
}
