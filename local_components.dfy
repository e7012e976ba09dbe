/**
 * Local endpoints and the directory their previous copy is cleaned from
 * (commands/install.js:51-56).
 */
module LocalComponents {
  import opened Common
  import opened JsStrings
  import opened Settings

  /** `s.substring(0, n)` for `n >= 0`: clamped to the string's length. */
  function Substring(s: string, n: nat): (r: string)
    ensures |r| == if |s| < n then |s| else n
    ensures r == s[..|r|]
  {
    if |s| <= n then s else s[..n]
  }

  /** `endpoint.substring(0, 2) === './' || endpoint[0] === '/'`. */
  function IsLocal(endpoint: string): (local: bool)
    ensures local <==> ((|endpoint| >= 2 && endpoint[0] == '.' && endpoint[1] == '/')
                        || (|endpoint| >= 1 && endpoint[0] == '/'))
  {
    Substring(endpoint, 2) == "./" || (|endpoint| > 0 && endpoint[0] == '/')
  }

  /** Paths that only look relative to the current directory are registry targets. */
  lemma NotLocalExamples()
    ensures !IsLocal("../x") && !IsLocal("x/./y") && !IsLocal("") && !IsLocal(".") && !IsLocal("jquery")
    ensures IsLocal("./my-widget") && IsLocal("/abs/widget")
  {
    assert Substring("../x", 2) == "..";
    assert Substring("jquery", 2) == "jq";
    assert Substring("x/./y", 2) == "x/";
    assert Substring("./my-widget", 2) == "./";
  }

  /**
   * Line 55 as written: `path.join(baseUrl, bowerRc.directory)`. With
   * `path.join` as plain concatenation, the directory always ends up under
   * the base, even when it is absolute.
   */
  function CleanDirectoryAsWritten(base: string, directory: string): (dir: string)
    ensures |dir| == |base| + 1 + |directory|
    ensures dir[..|base|] == base && dir[|base| + 1..] == directory
    ensures base != "" ==> dir != directory
  {
    PathJoin(base, directory)
  }

  /**
   * The directory the local copy is cleaned from, as evidently intended: the
   * install directory resolved against the base, so an absolute one (such as
   * the default filled in at line 45) is used as it is.
   */
  function CleanDirectory(base: string, directory: string): (dir: string)
    ensures !IsAbsolute(directory) ==> dir == CleanDirectoryAsWritten(base, directory)
    ensures IsAbsolute(directory) ==> dir == directory
  {
    if IsAbsolute(directory) then directory else PathJoin(base, directory)
  }

  /**
   * With no `directory` in `.bowerrc`, the default is already joined to the
   * base, and line 55 joins the base a second time (with `path.join` as
   * plain concatenation; a real `path.join` collapses this only for base `/`).
   */
  lemma AsWrittenRepeatsBase(rc: RcDoc, base: string)
    requires !IsSet(rc.directory)
    ensures var dir := WithDefaultDirectory(rc, base).directory.value;
      && CleanDirectoryAsWritten(base, dir) == base + "/" + base + "/bower_components"
      && CleanDirectoryAsWritten(base, dir) != base + "/bower_components"
  {
    var dir := WithDefaultDirectory(rc, base).directory.value;
    assert dir == base + "/bower_components";
    assert |CleanDirectoryAsWritten(base, dir)| == 2 * |base| + 18;
  }

  /**
   * The corrected directory is the default install directory when none is
   * configured, and otherwise the configured one resolved against the base.
   */
  lemma CleanDirectoryIsInstallDirectory(rc: RcDoc, base: string)
    requires IsAbsolute(base)
    ensures var dir := WithDefaultDirectory(rc, base).directory.value;
      CleanDirectory(base, dir)
        == if !IsSet(rc.directory) then base + "/bower_components"
           else if IsAbsolute(rc.directory.value) then rc.directory.value
           else base + "/" + rc.directory.value
  {
    DefaultDirectoryValue(rc, base);
    if !IsSet(rc.directory) {
      assert IsAbsolute(base + "/bower_components") by {
        assert (base + "/bower_components")[0] == base[0];
      }
    }
  }
}
