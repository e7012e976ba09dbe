/**
 * The install command's sequence of steps (commands/install.js:30-96) as a
 * state machine over abstract outcomes. Every external call is an event in
 * a trace; what the outside world answers (the three configuration loads,
 * the process's exit status, the generator's result, the name the package
 * metadata gives the endpoint) is a `World` value.
 */
module Pipeline {
  import opened Common
  import opened JsStrings
  import opened Arguments
  import opened Settings
  import opened LocalComponents

  /** One run of `bb install [<endpoint>] [OPTIONS]`. */
  datatype Invocation = Invocation(
    argv: seq<string>,          // the raw tokens the command reads (`process.argv`)
    options: Options,           // the parsed options (`this.options`)
    endpoint: Option<string>,   // `componentEndpoint`
    base: string)               // `baseUrl`, the working directory

  /** `if (componentEndpoint)`: an endpoint was given, and `undefined` and "" are falsy. */
  predicate HasEndpoint(inv: Invocation): (given: bool)
    ensures inv.endpoint.None? ==> !given
    ensures inv.endpoint == Some("") ==> !given
    ensures given ==> |inv.endpoint.value| >= 1
    ensures inv.endpoint.Some? && inv.endpoint.value != "" ==> given
  {
    IsSet(inv.endpoint)
  }

  /** The three documents loaded before anything else: bower.json, .bowerrc, bb.json. */
  datatype Loaded = Loaded(bowerJson: map<string, string>, bowerRc: RcDoc, bbJson: BbDoc)

  /** What the configuration generator produced: component name to relative path. */
  datatype Confs = Confs(customComponents: map<string, string>)

  /** The answers of everything outside the command. */
  datatype World = World(
    configs: Option<Loaded>,    // None: one of the three loads failed
    exitCode: int,              // bower's exit status, which the command never reads
    generated: Option<Confs>,   // None: the generator failed
    metaName: string)           // what `getComponentNameFromMeta` derives from the endpoint

  /** The command's effects on the outside world, in the order it causes them. */
  datatype Event =
    | CleanLocalComponent(directory: string, endpoint: string)
    | SpawnBowerInstall(args: seq<string>)
    | GenerateRequireConf(base: string, bowerJson: map<string, string>, bowerRc: RcDoc, bbJson: BbDoc)
    | ResolveComponentPath(name: string)
    | SubmitToPortal(base: string, components: map<string, string>, componentPath: Option<string>)

  /** The two reported failures: the configuration read and the configuration generation. */
  datatype Failure = ConfigReadFailed | ConfigGenerationFailed

  datatype Stage =
    | LoadingConfig
    | InvokingInstall(docs: Loaded)
    | GeneratingConfig(docs: Loaded)
    | Resolving(confs: Confs)
    | Submitting(confs: Confs, componentPath: Option<string>)
    | Done
    | Failed(failure: Failure)

  datatype State = State(stage: Stage, trace: seq<Event>)

  predicate Terminal(stage: Stage)
  {
    stage.Done? || stage.Failed?
  }

  /** How many steps at most remain from a stage. */
  function Rank(stage: Stage): nat
  {
    match stage
    case LoadingConfig => 5
    case InvokingInstall(_) => 4
    case GeneratingConfig(_) => 3
    case Resolving(_) => 2
    case Submitting(_, _) => 1
    case Done => 0
    case Failed(_) => 0
  }

  /** Whether a local copy of the endpoint is cleaned before the install. */
  predicate CleansLocal(inv: Invocation)
  {
    HasEndpoint(inv) && IsLocal(inv.endpoint.value)
  }

  /** The documents as handed to the generator: defaulted directory, overrides applied. */
  function Prepared(inv: Invocation, l: Loaded): (docs: Loaded)
    ensures IsSet(docs.bowerRc.directory)
  {
    Loaded(l.bowerJson, WithDefaultDirectory(l.bowerRc, inv.base), WithOverrides(l.bbJson, inv.options))
  }

  /**
   * The clean step (line 55), present only for a local endpoint: the
   * endpoint under `path.join(baseUrl, bowerRc.directory)`.
   */
  function CleanEvents(inv: Invocation, docs: Loaded): (cleans: seq<Event>)
    requires IsSet(docs.bowerRc.directory)
    ensures |cleans| <= 1
    ensures cleans != [] <==> CleansLocal(inv)
    ensures forall e :: e in cleans ==>
      && e.CleanLocalComponent?
      && e.endpoint == inv.endpoint.value
      && e.directory == CleanDirectoryAsWritten(inv.base, docs.bowerRc.directory.value)
  {
    if CleansLocal(inv)
    then [CleanLocalComponent(CleanDirectoryAsWritten(inv.base, docs.bowerRc.directory.value), inv.endpoint.value)]
    else []
  }

  /** The arguments `bower` is spawned with (lines 39, 61-67). */
  function BowerArgs(inv: Invocation): (args: seq<string>)
    ensures |args| >= 1 && args[0] == "install"
    ensures |args| <= |inv.argv| + 1
    ensures forall a :: a in args[1..] ==> !IsCustomArg(a)
  {
    ForwardedNoReserved(inv.argv);
    assert (["install"] + Forwarded(inv.argv))[1..] == Forwarded(inv.argv);
    ["install"] + Forwarded(inv.argv)
  }

  /** One transition of the state machine. */
  function Step(inv: Invocation, w: World, s: State): (r: State)
    requires !Terminal(s.stage)
    ensures Rank(r.stage) < Rank(s.stage)
    ensures s.trace <= r.trace
  {
    match s.stage
    case LoadingConfig =>
      (match w.configs
       case None => State(Failed(ConfigReadFailed), s.trace)
       case Some(l) =>
         var docs := Prepared(inv, l);
         State(InvokingInstall(docs), s.trace + CleanEvents(inv, docs)))
    case InvokingInstall(docs) =>
      // Generation follows the process's close whatever its exit status.
      State(GeneratingConfig(docs), s.trace + [SpawnBowerInstall(BowerArgs(inv))])
    case GeneratingConfig(docs) =>
      var t := s.trace + [GenerateRequireConf(inv.base, docs.bowerJson, docs.bowerRc, docs.bbJson)];
      (match w.generated
       case None => State(Failed(ConfigGenerationFailed), t)
       case Some(c) =>
         if HasEndpoint(inv) then State(Resolving(c), t)
         else if CatalogFlag(inv.argv) then State(Submitting(c, None), t)
         else State(Done, t))
    case Resolving(c) =>
      var t := s.trace + [ResolveComponentPath(w.metaName)];
      if w.metaName in c.customComponents then
        var path := Some(PathJoin(inv.base, c.customComponents[w.metaName]));
        if CatalogFlag(inv.argv) then State(Submitting(c, path), t) else State(Done, t)
      else
        // `path.join` rejects the undefined lookup; the generation handler reports it.
        State(Failed(ConfigGenerationFailed), t)
    case Submitting(c, path) =>
      State(Done, s.trace + [SubmitToPortal(inv.base, c.customComponents, path)])
  }

  /** Runs the machine to a terminal stage. */
  function Run(inv: Invocation, w: World, s: State): (r: State)
    ensures Terminal(r.stage)
    ensures s.trace <= r.trace
    ensures Terminal(s.stage) ==> r == s
    decreases Rank(s.stage)
  {
    if Terminal(s.stage) then s else Run(inv, w, Step(inv, w, s))
  }

  /** A whole run of the install command. */
  function Execute(inv: Invocation, w: World): (r: State)
    ensures Terminal(r.stage)
    ensures w.configs.None? ==> r == State(Failed(ConfigReadFailed), [])
  {
    Run(inv, w, State(LoadingConfig, []))
  }
}
