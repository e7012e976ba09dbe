/**
 * The two settings documents the install command edits before generation:
 * `.bowerrc` (the install directory, defaulted at commands/install.js:45) and
 * `bb.json` (overridden from the command options by `applyBBJSONconfChanges`,
 * commands/install.js:23-28).
 */
module Settings {
  import opened Common
  import opened JsStrings

  /** Command options after parsing: option name to its string value. */
  type Options = map<string, string>

  /** `argOptions[key]` is truthy: present and not the empty string. */
  predicate OptionSet(opts: Options, key: string): (truthy: bool)
    ensures key !in opts ==> !truthy
    ensures key in opts && opts[key] == "" ==> !truthy
    ensures truthy ==> key in opts && |opts[key]| >= 1
    ensures key in opts && opts[key] != "" ==> truthy
  {
    IsSet(if key in opts then Some(opts[key]) else None)
  }

  /** A snapshot of `.bowerrc`: the install directory and every other field, untouched here. */
  datatype RcDoc = RcDoc(directory: Option<string>, others: map<string, string>)

  /** A snapshot of `bb.json`: the two overridable fields and every other field. */
  datatype BbDoc = BbDoc(
    dependenciesWebUrl: Option<string>,
    requirejsConfigs: Option<seq<string>>,
    others: map<string, string>)

  /** `.bowerrc` after its `directory` has been given the default when missing or empty. */
  function WithDefaultDirectory(rc: RcDoc, base: string): (r: RcDoc)
    ensures IsSet(r.directory)
    ensures r.others == rc.others
    ensures IsSet(rc.directory) ==> r == rc
  {
    if IsSet(rc.directory) then rc
    else rc.(directory := Some(PathJoin(base, "bower_components")))
  }

  /** `bb.json` after the `web-url` and `require-confs` options have been applied. */
  function WithOverrides(bb: BbDoc, opts: Options): (r: BbDoc)
    ensures r.others == bb.others
    ensures !OptionSet(opts, "web-url") ==> r.dependenciesWebUrl == bb.dependenciesWebUrl
    ensures !OptionSet(opts, "require-confs") ==> r.requirejsConfigs == bb.requirejsConfigs
  {
    var withUrl :=
      if OptionSet(opts, "web-url") then bb.(dependenciesWebUrl := Some(opts["web-url"])) else bb;
    if OptionSet(opts, "require-confs") then withUrl.(requirejsConfigs := Some(Split(opts["require-confs"], ',')))
    else withUrl
  }

  /** A missing or empty directory becomes `<base>/bower_components`; a set one is kept. */
  lemma DefaultDirectoryValue(rc: RcDoc, base: string)
    ensures WithDefaultDirectory(rc, base).directory
         == if IsSet(rc.directory) then rc.directory else Some(base + "/bower_components")
  {
    assert PathJoin(base, "bower_components") == base + "/bower_components";
  }

  /** `web-url` replaces `dependenciesWebUrl` with the option's value. */
  lemma WebUrlOverride(bb: BbDoc, opts: Options)
    requires OptionSet(opts, "web-url")
    ensures WithOverrides(bb, opts).dependenciesWebUrl == Some(opts["web-url"])
    ensures WithOverrides(bb, opts).requirejsConfigs == WithOverrides(bb, opts - {"web-url"}).requirejsConfigs
  {
  }

  /**
   * `require-confs` becomes the list of its comma-separated parts: one more
   * than there are commas, none holding a comma, and joined by commas they
   * give back the option.
   */
  lemma RequireConfsOverride(bb: BbDoc, opts: Options)
    requires OptionSet(opts, "require-confs")
    ensures WithOverrides(bb, opts).requirejsConfigs.Some?
    ensures var confs := WithOverrides(bb, opts).requirejsConfigs.value;
      && |confs| == Occurrences(opts["require-confs"], ',') + 1
      && (forall i :: 0 <= i < |confs| ==> ',' !in confs[i])
      && JoinWith(confs, ',') == opts["require-confs"]
  {
    var s := opts["require-confs"];
    SplitCount(s, ',');
    SplitPartsFree(s, ',');
    SplitThenJoin(s, ',');
  }

  /** A list of comma-free paths given as `require-confs` arrives unchanged. */
  lemma RequireConfsListRoundTrip(bb: BbDoc, opts: Options, paths: seq<string>)
    requires |paths| >= 1 && forall i :: 0 <= i < |paths| ==> ',' !in paths[i]
    requires "require-confs" in opts && opts["require-confs"] == JoinWith(paths, ',')
    requires opts["require-confs"] != ""
    ensures WithOverrides(bb, opts).requirejsConfigs == Some(paths)
  {
    JoinThenSplit(paths, ',');
  }

  /** The parsed `.bowerrc`, whose `directory` the command fills in place. */
  class BowerRc {
    var directory: Option<string>
    var others: map<string, string>

    constructor (doc: RcDoc)
      ensures Doc() == doc
    {
      directory := doc.directory;
      others := doc.others;
    }

    function Doc(): RcDoc
      reads this
    {
      RcDoc(directory, others)
    }

    /** `if (!bowerRc.directory) bowerRc.directory = path.join(baseUrl, 'bower_components')`. */
    method AddDefaultDirectory(base: string)
      modifies this`directory
      ensures Doc() == WithDefaultDirectory(old(Doc()), base)
    {
      if !IsSet(directory) {
        directory := Some(PathJoin(base, "bower_components"));
      }
    }
  }

  /** The parsed `bb.json`, whose two overridable fields are assigned in place. */
  class BbJson {
    var dependenciesWebUrl: Option<string>
    var requirejsConfigs: Option<seq<string>>
    var others: map<string, string>

    constructor (doc: BbDoc)
      ensures Doc() == doc
    {
      dependenciesWebUrl := doc.dependenciesWebUrl;
      requirejsConfigs := doc.requirejsConfigs;
      others := doc.others;
    }

    function Doc(): BbDoc
      reads this
    {
      BbDoc(dependenciesWebUrl, requirejsConfigs, others)
    }

    /** `applyBBJSONconfChanges(bbJSON, argOptions)`: only the two overridable fields may change. */
    method ApplyConfChanges(argOptions: Options)
      modifies this`dependenciesWebUrl, this`requirejsConfigs
      ensures Doc() == WithOverrides(old(Doc()), argOptions)
    {
      if OptionSet(argOptions, "web-url") {
        dependenciesWebUrl := Some(argOptions["web-url"]);
      }
      if OptionSet(argOptions, "require-confs") {
        requirejsConfigs := Some(Split(argOptions["require-confs"], ','));
      }
    }
  }
}
