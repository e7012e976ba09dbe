/**
 * What a run of the install command does, stated on the trace of effects
 * and the final stage: a flat reference description of the whole run, and
 * the ordering and gating properties that follow from it.
 */
module PipelineProperties {
  import opened Common
  import opened JsStrings
  import opened Arguments
  import opened Settings
  import opened LocalComponents
  import opened Pipeline

  /** The submission is made: the catalog flag is set and the component path, if needed, exists. */
  predicate Submits(inv: Invocation, w: World, c: Confs)
  {
    CatalogFlag(inv.argv) && (!HasEndpoint(inv) || w.metaName in c.customComponents)
  }

  /** The single-component path handed to the portal. */
  function SubmittedPath(inv: Invocation, w: World, c: Confs): Option<string>
  {
    if HasEndpoint(inv) && w.metaName in c.customComponents
    then Some(PathJoin(inv.base, c.customComponents[w.metaName]))
    else None
  }

  /** The effects up to the generation: an optional clean, the spawn, the generation. */
  function HeadEvents(inv: Invocation, docs: Loaded): seq<Event>
    requires IsSet(docs.bowerRc.directory)
  {
    CleanEvents(inv, docs)
    + [SpawnBowerInstall(BowerArgs(inv)),
       GenerateRequireConf(inv.base, docs.bowerJson, docs.bowerRc, docs.bbJson)]
  }

  /** The effects after a successful generation: an optional resolve, an optional submission. */
  function AfterGeneration(inv: Invocation, w: World, c: Confs): seq<Event>
  {
    (if HasEndpoint(inv) then [ResolveComponentPath(w.metaName)] else [])
    + (if Submits(inv, w, c) then [SubmitToPortal(inv.base, c.customComponents, SubmittedPath(inv, w, c))] else [])
  }

  /** The effects after the generation, which are none when it fails. */
  function AfterRead(inv: Invocation, w: World): seq<Event>
  {
    match w.generated
    case None => []
    case Some(c) => AfterGeneration(inv, w, c)
  }

  /** Every effect of a run, written out in one piece. */
  function ReferenceTrace(inv: Invocation, w: World): seq<Event>
  {
    match w.configs
    case None => []
    case Some(l) => HeadEvents(inv, Prepared(inv, l)) + AfterRead(inv, w)
  }

  /** How a run ends once the configuration has been read. */
  function OutcomeAfterRead(inv: Invocation, w: World): Stage
  {
    if w.generated.None? then Failed(ConfigGenerationFailed)
    else if HasEndpoint(inv) && w.metaName !in w.generated.value.customComponents then Failed(ConfigGenerationFailed)
    else Done
  }

  /** How a run ends. */
  function ReferenceOutcome(inv: Invocation, w: World): Stage
  {
    if w.configs.None? then Failed(ConfigReadFailed) else OutcomeAfterRead(inv, w)
  }

  /** From the generation on, the machine appends the generation and what follows it. */
  lemma {:induction false} RunFromGeneration(inv: Invocation, w: World, docs: Loaded, t: seq<Event>)
    ensures var r := Run(inv, w, State(GeneratingConfig(docs), t));
      && r.stage == OutcomeAfterRead(inv, w)
      && r.trace == t + [GenerateRequireConf(inv.base, docs.bowerJson, docs.bowerRc, docs.bbJson)]
                      + AfterRead(inv, w)
  {
    var s3 := State(GeneratingConfig(docs), t);
    var t3 := t + [GenerateRequireConf(inv.base, docs.bowerJson, docs.bowerRc, docs.bbJson)];
    var s4 := Step(inv, w, s3);
    assert Run(inv, w, s3) == Run(inv, w, s4);
    assert s4.trace == t3;
    if w.generated.Some? {
      var c := w.generated.value;
      if HasEndpoint(inv) {
        assert s4.stage == Resolving(c);
        var s5 := Step(inv, w, s4);
        assert Run(inv, w, s4) == Run(inv, w, s5);
        assert s5.trace == t3 + [ResolveComponentPath(w.metaName)];
        if s5.stage.Submitting? {
          var s6 := Step(inv, w, s5);
          assert Run(inv, w, s5) == s6;
        } else {
          assert Run(inv, w, s5) == s5;
        }
      } else if CatalogFlag(inv.argv) {
        var s5 := Step(inv, w, s4);
        assert Run(inv, w, s4) == s5;
      } else {
        assert t3 + [] == t3;
      }
    } else {
      assert t3 + [] == t3;
    }
  }

  /** The state machine does exactly what the reference description says. */
  lemma {:induction false} ExecuteMatchesReference(inv: Invocation, w: World)
    ensures Execute(inv, w).trace == ReferenceTrace(inv, w)
    ensures Execute(inv, w).stage == ReferenceOutcome(inv, w)
  {
    var s0 := State(LoadingConfig, []);
    var s1 := Step(inv, w, s0);
    assert Execute(inv, w) == Run(inv, w, s1);
    if w.configs.Some? {
      var docs := Prepared(inv, w.configs.value);
      assert s1 == State(InvokingInstall(docs), CleanEvents(inv, docs));
      var s2 := Step(inv, w, s1);
      assert s2 == State(GeneratingConfig(docs), CleanEvents(inv, docs) + [SpawnBowerInstall(BowerArgs(inv))]);
      assert Run(inv, w, s1) == Run(inv, w, s2);
      RunFromGeneration(inv, w, docs, s2.trace);
    }
  }

  /** The kinds of effect, in the command's fixed order. */
  datatype Kind = Clean | Spawn | Generate | Resolve | Submit

  function KindOf(e: Event): Kind
  {
    match e
    case CleanLocalComponent(_, _) => Clean
    case SpawnBowerInstall(_) => Spawn
    case GenerateRequireConf(_, _, _, _) => Generate
    case ResolveComponentPath(_) => Resolve
    case SubmitToPortal(_, _, _) => Submit
  }

  function Position(k: Kind): nat
  {
    match k
    case Clean => 0
    case Spawn => 1
    case Generate => 2
    case Resolve => 3
    case Submit => 4
  }

  /** Some effect of kind `k` is in the trace. */
  predicate Happens(t: seq<Event>, k: Kind)
  {
    exists e :: e in t && KindOf(e) == k
  }

  /** An effect of a kind happens in a joined trace exactly when it happens in one of the pieces. */
  lemma HappensConcat(a: seq<Event>, b: seq<Event>, k: Kind)
    ensures Happens(a + b, k) <==> Happens(a, k) || Happens(b, k)
  {
    if Happens(a + b, k) {
      var e :| e in a + b && KindOf(e) == k;
      assert e in a || e in b;
    }
    if Happens(a, k) {
      var e :| e in a && KindOf(e) == k;
      assert e in a + b;
    }
    if Happens(b, k) {
      var e :| e in b && KindOf(e) == k;
      assert e in a + b;
    }
  }

  /** Which kinds of effect a run has, by the outside world's answers. */
  predicate Expected(inv: Invocation, w: World, k: Kind)
  {
    w.configs.Some? &&
    match k
    case Clean => CleansLocal(inv)
    case Spawn => true
    case Generate => true
    case Resolve => w.generated.Some? && HasEndpoint(inv)
    case Submit => w.generated.Some? && Submits(inv, w, w.generated.value)
  }

  /** Effects in strictly increasing order. */
  predicate Ordered(t: seq<Event>)
  {
    forall i, j :: 0 <= i < j < |t| ==> Position(KindOf(t[i])) < Position(KindOf(t[j]))
  }

  /** Joining two ordered pieces, the first all earlier than the second, keeps the order. */
  lemma OrderedConcat(a: seq<Event>, b: seq<Event>, bound: nat)
    requires Ordered(a) && Ordered(b)
    requires forall e :: e in a ==> Position(KindOf(e)) < bound
    requires forall e :: e in b ==> Position(KindOf(e)) >= bound
    ensures Ordered(a + b)
  {
    forall i, j | 0 <= i < j < |a + b|
      ensures Position(KindOf((a + b)[i])) < Position(KindOf((a + b)[j]))
    {
      if j < |a| {
        assert (a + b)[i] == a[i] && (a + b)[j] == a[j];
      } else if i < |a| {
        assert (a + b)[i] == a[i] && (a + b)[j] == b[j - |a|];
        assert a[i] in a && b[j - |a|] in b;
      } else {
        assert (a + b)[i] == b[i - |a|] && (a + b)[j] == b[j - |a|];
      }
    }
  }

  /** The head of a run: an optional clean, then spawn and generation, in order. */
  lemma HeadOrdered(inv: Invocation, docs: Loaded)
    requires IsSet(docs.bowerRc.directory)
    ensures var h := HeadEvents(inv, docs);
      && Ordered(h)
      && (forall e :: e in h ==> Position(KindOf(e)) < 3)
  {
    var mid := [SpawnBowerInstall(BowerArgs(inv)),
                GenerateRequireConf(inv.base, docs.bowerJson, docs.bowerRc, docs.bbJson)];
    OrderedConcat(CleanEvents(inv, docs), mid, 1);
  }

  /** The head of a run: a clean only for a local endpoint, a spawn and a generation always. */
  lemma HeadHappens(inv: Invocation, docs: Loaded, k: Kind)
    requires IsSet(docs.bowerRc.directory)
    ensures Happens(HeadEvents(inv, docs), k) <==> (k == Clean && CleansLocal(inv)) || k == Spawn || k == Generate
  {
    var mid := [SpawnBowerInstall(BowerArgs(inv)),
                GenerateRequireConf(inv.base, docs.bowerJson, docs.bowerRc, docs.bbJson)];
    HappensConcat(CleanEvents(inv, docs), mid, k);
    assert mid[0] in mid && mid[1] in mid;
    if CleansLocal(inv) {
      assert CleanEvents(inv, docs)[0] in CleanEvents(inv, docs);
    }
  }

  /** The tail of a run: a resolve, then a submission, each optional. */
  lemma AfterOrdered(inv: Invocation, w: World, c: Confs)
    ensures var a := AfterGeneration(inv, w, c);
      && Ordered(a)
      && (forall e :: e in a ==> Position(KindOf(e)) >= 3)
  {
    var resolve := if HasEndpoint(inv) then [ResolveComponentPath(w.metaName)] else [];
    var submit := if Submits(inv, w, c)
      then [SubmitToPortal(inv.base, c.customComponents, SubmittedPath(inv, w, c))] else [];
    assert Ordered(resolve) && Ordered(submit);
    assert forall e :: e in resolve ==> KindOf(e) == Resolve;
    assert forall e :: e in submit ==> KindOf(e) == Submit;
    OrderedConcat(resolve, submit, 4);
  }

  /** The tail of a run: a resolve only for an endpoint, a submission only when it is made. */
  lemma AfterHappens(inv: Invocation, w: World, c: Confs, k: Kind)
    ensures Happens(AfterGeneration(inv, w, c), k)
      <==> (k == Resolve && HasEndpoint(inv)) || (k == Submit && Submits(inv, w, c))
  {
    var resolve := if HasEndpoint(inv) then [ResolveComponentPath(w.metaName)] else [];
    var submit := if Submits(inv, w, c)
      then [SubmitToPortal(inv.base, c.customComponents, SubmittedPath(inv, w, c))] else [];
    HappensConcat(resolve, submit, k);
    if HasEndpoint(inv) { assert resolve[0] in resolve; }
    if Submits(inv, w, c) { assert submit[0] in submit; }
  }

  /**
   * The effects come in the order clean, spawn, generate, resolve, submit,
   * each at most once: in particular the clean completes before the spawn.
   */
  lemma TraceOrdered(inv: Invocation, w: World)
    ensures Ordered(Execute(inv, w).trace)
  {
    ExecuteMatchesReference(inv, w);
    if w.configs.Some? {
      var docs := Prepared(inv, w.configs.value);
      HeadOrdered(inv, docs);
      if w.generated.Some? {
        AfterOrdered(inv, w, w.generated.value);
      }
      OrderedConcat(HeadEvents(inv, docs), AfterRead(inv, w), 3);
    }
  }

  /**
   * Which effects a run has: spawn and generation exactly when the
   * configuration was read, a clean also needing a local endpoint, a resolve
   * a successful generation and an endpoint, a submission a successful
   * generation and the submission's conditions.
   */
  lemma EffectsThatHappen(inv: Invocation, w: World, k: Kind)
    ensures Happens(Execute(inv, w).trace, k) <==> Expected(inv, w, k)
  {
    ExecuteMatchesReference(inv, w);
    if w.configs.Some? {
      var docs := Prepared(inv, w.configs.value);
      HeadHappens(inv, docs, k);
      if w.generated.Some? {
        AfterHappens(inv, w, w.generated.value, k);
      }
      HappensConcat(HeadEvents(inv, docs), AfterRead(inv, w), k);
    }
  }

  /** What an effect of a run carries, given the outside world's answers. */
  predicate Carries(inv: Invocation, w: World, e: Event)
  {
    w.configs.Some? &&
    match e
    case CleanLocalComponent(dir, endpoint) =>
      && CleansLocal(inv)
      && endpoint == inv.endpoint.value
      && dir == CleanDirectoryAsWritten(inv.base, Prepared(inv, w.configs.value).bowerRc.directory.value)
    case SpawnBowerInstall(args) => args == ["install"] + Forwarded(inv.argv)
    case GenerateRequireConf(base, bowerJson, bowerRc, bbJson) =>
      && base == inv.base
      && bowerJson == w.configs.value.bowerJson
      && bowerRc == WithDefaultDirectory(w.configs.value.bowerRc, inv.base)
      && bbJson == WithOverrides(w.configs.value.bbJson, inv.options)
    case ResolveComponentPath(name) => HasEndpoint(inv) && name == w.metaName
    case SubmitToPortal(base, components, path) =>
      && w.generated.Some?
      && base == inv.base
      && components == w.generated.value.customComponents
      && (path.None? <==> !HasEndpoint(inv))
      && (HasEndpoint(inv) ==>
            w.metaName in components && path == Some(PathJoin(inv.base, components[w.metaName])))
  }

  /** Every effect of a run carries what the invocation and the outside world determine. */
  lemma EffectContents(inv: Invocation, w: World)
    ensures forall e :: e in Execute(inv, w).trace ==> Carries(inv, w, e)
  {
    ExecuteMatchesReference(inv, w);
    if w.configs.Some? {
      var l := w.configs.value;
      var docs := Prepared(inv, l);
      forall e | e in CleanEvents(inv, docs) ensures Carries(inv, w, e) { }
      var spawn := SpawnBowerInstall(BowerArgs(inv));
      assert Carries(inv, w, spawn);
      var generate := GenerateRequireConf(inv.base, docs.bowerJson, docs.bowerRc, docs.bbJson);
      assert Carries(inv, w, generate);
      assert forall e :: e in HeadEvents(inv, docs) ==> Carries(inv, w, e);
      if w.generated.Some? {
        var c := w.generated.value;
        forall e | e in AfterGeneration(inv, w, c) ensures Carries(inv, w, e) {
          if e.SubmitToPortal? {
            assert Submits(inv, w, c) && e.componentPath == SubmittedPath(inv, w, c);
          }
        }
      }
      assert forall e :: e in AfterRead(inv, w) ==> Carries(inv, w, e);
    }
  }

  /** A failed configuration read is reported and nothing at all happens. */
  lemma ConfigReadFailureStops(inv: Invocation, w: World)
    ensures Execute(inv, w).stage == Failed(ConfigReadFailed) <==> w.configs.None?
    ensures w.configs.None? ==> Execute(inv, w).trace == []
  {
    ExecuteMatchesReference(inv, w);
  }

  /**
   * `bower` is spawned exactly when the configuration was read, and only with
   * "install" followed by the forwarded tokens.
   */
  lemma SpawnedWithForwardedArgs(inv: Invocation, w: World)
    ensures Happens(Execute(inv, w).trace, Spawn) <==> w.configs.Some?
    ensures forall e :: e in Execute(inv, w).trace && e.SpawnBowerInstall? ==>
      e.args == ["install"] + Forwarded(inv.argv)
  {
    EffectsThatHappen(inv, w, Spawn);
    EffectContents(inv, w);
  }

  /** The previous local copy is cleaned exactly when a local endpoint is given, and only that endpoint. */
  lemma CleanIffLocalEndpoint(inv: Invocation, w: World)
    ensures Happens(Execute(inv, w).trace, Clean) <==> w.configs.Some? && CleansLocal(inv)
    ensures forall e :: e in Execute(inv, w).trace && e.CleanLocalComponent? ==>
      HasEndpoint(inv) && IsLocal(e.endpoint) && e.endpoint == inv.endpoint.value
    ensures forall j :: 0 <= j < |Execute(inv, w).trace| && Execute(inv, w).trace[j].CleanLocalComponent? ==> j == 0
  {
    EffectsThatHappen(inv, w, Clean);
    EffectContents(inv, w);
    TraceOrdered(inv, w);
    var t := Execute(inv, w).trace;
    forall j | 0 <= j < |t| && t[j].CleanLocalComponent?
      ensures j == 0
    {
      assert j > 0 ==> Position(KindOf(t[0])) < Position(KindOf(t[j]));
    }
  }

  /**
   * Generation runs after every close of the process, whatever its exit
   * status, on the settings with the default directory and the overrides.
   */
  lemma GenerationFollowsEveryInstall(inv: Invocation, w: World, exitCode: int)
    ensures Execute(inv, w.(exitCode := exitCode)) == Execute(inv, w)
    ensures Happens(Execute(inv, w).trace, Generate) <==> Happens(Execute(inv, w).trace, Spawn)
    ensures forall e :: e in Execute(inv, w).trace && e.GenerateRequireConf? ==>
      e.bowerRc == WithDefaultDirectory(w.configs.value.bowerRc, inv.base)
      && e.bbJson == WithOverrides(w.configs.value.bbJson, inv.options)
  {
    ExecuteMatchesReference(inv, w);
    ExecuteMatchesReference(inv, w.(exitCode := exitCode));
    EffectsThatHappen(inv, w, Generate);
    EffectsThatHappen(inv, w, Spawn);
    EffectContents(inv, w);
  }

  /** A failed generation is reported; no path is resolved and nothing is submitted. */
  lemma GenerationFailureStops(inv: Invocation, w: World)
    requires w.configs.Some? && w.generated.None?
    ensures Execute(inv, w).stage == Failed(ConfigGenerationFailed)
    ensures !Happens(Execute(inv, w).trace, Resolve) && !Happens(Execute(inv, w).trace, Submit)
  {
    ExecuteMatchesReference(inv, w);
    EffectsThatHappen(inv, w, Resolve);
    EffectsThatHappen(inv, w, Submit);
  }

  /** The component path is resolved exactly when an endpoint was given and generation succeeded. */
  lemma ResolveIffEndpointAndGenerated(inv: Invocation, w: World)
    ensures Happens(Execute(inv, w).trace, Resolve)
      <==> w.configs.Some? && w.generated.Some? && HasEndpoint(inv)
  {
    EffectsThatHappen(inv, w, Resolve);
  }

  /**
   * The portal submission happens exactly when the configuration was read,
   * generation succeeded, the catalog flag is among the raw tokens and, for a
   * given endpoint, its component is in the generated map.
   */
  lemma SubmitIff(inv: Invocation, w: World)
    ensures Happens(Execute(inv, w).trace, Submit)
      <==> w.configs.Some? && w.generated.Some? && CatalogFlag(inv.argv)
           && (!HasEndpoint(inv) || w.metaName in w.generated.value.customComponents)
  {
    EffectsThatHappen(inv, w, Submit);
  }

  /**
   * The submission carries the generated component map, and a single-component
   * path exactly when an endpoint was given: the generated path joined to the base.
   */
  lemma SubmittedComponentPath(inv: Invocation, w: World)
    ensures forall e :: e in Execute(inv, w).trace && e.SubmitToPortal? ==>
      && w.generated.Some?
      && e.base == inv.base
      && e.components == w.generated.value.customComponents
      && (e.componentPath.None? <==> !HasEndpoint(inv))
      && (HasEndpoint(inv) ==>
            w.metaName in e.components && e.componentPath == Some(PathJoin(inv.base, e.components[w.metaName])))
  {
    EffectContents(inv, w);
  }

  /**
   * An endpoint whose component is missing from the generated map makes the
   * run end as a generation failure, with no submission even under the
   * catalog flag.
   */
  lemma MissingComponentIsGenerationFailure(inv: Invocation, w: World)
    requires w.configs.Some? && w.generated.Some? && HasEndpoint(inv)
    requires w.metaName !in w.generated.value.customComponents
    ensures Execute(inv, w).stage == Failed(ConfigGenerationFailed)
    ensures Happens(Execute(inv, w).trace, Resolve) && !Happens(Execute(inv, w).trace, Submit)
  {
    ExecuteMatchesReference(inv, w);
    EffectsThatHappen(inv, w, Resolve);
    EffectsThatHappen(inv, w, Submit);
  }

  /** A run completes exactly when no load, generation or path lookup failed. */
  lemma DoneIff(inv: Invocation, w: World)
    ensures Execute(inv, w).stage == Done
      <==> w.configs.Some? && w.generated.Some?
           && (!HasEndpoint(inv) || w.metaName in w.generated.value.customComponents)
  {
    ExecuteMatchesReference(inv, w);
  }

  /** Fixed documents for the scenario lemmas below. */
  function SampleDocs(): Loaded
  {
    Loaded(map[], RcDoc(None, map[]), BbDoc(None, None, map[]))
  }

  /** `bb install`: install everything, generate, no resolve, no submission. */
  lemma ScenarioInstallAll(base: string)
    ensures var inv := Invocation([], map[], None, base);
      var w := World(Some(SampleDocs()), 0, Some(Confs(map[])), "");
      var docs := Prepared(inv, SampleDocs());
      && Execute(inv, w).trace
           == [SpawnBowerInstall(["install"]),
               GenerateRequireConf(base, map[], docs.bowerRc, docs.bbJson)]
      && Execute(inv, w).stage == Done
  {
    var inv := Invocation([], map[], None, base);
    var w := World(Some(SampleDocs()), 0, Some(Confs(map[])), "");
    assert BowerArgs(inv) == ["install"];
    assert CleanEvents(inv, Prepared(inv, SampleDocs())) == [];
    assert AfterGeneration(inv, w, Confs(map[])) == [];
    ExecuteMatchesReference(inv, w);
  }

  /** Up to the generation, a `bb install <name> -C` run spawns with `["install", <name>]`. */
  lemma CatalogSubmitHead(base: string, name: string)
    requires name != "" && !IsLocal(name) && !IsCustomArg(name)
    ensures var inv := Invocation([name, "-C"], map[], Some(name), base);
      var docs := Prepared(inv, SampleDocs());
      HeadEvents(inv, docs)
        == [SpawnBowerInstall(["install", name]), GenerateRequireConf(base, map[], docs.bowerRc, docs.bbJson)]
  {
    var inv := Invocation([name, "-C"], map[], Some(name), base);
    assert CleanEvents(inv, Prepared(inv, SampleDocs())) == [];
    ForwardedSnoc([], name);
    assert [name] == [] + [name];
    ForwardedSnoc([name], "-C");
    assert [name, "-C"] == [name] + ["-C"];
    assert BowerArgs(inv) == ["install", name];
  }

  /** After the generation, a `bb install <name> -C` run resolves the name and submits its path. */
  lemma CatalogSubmitAfter(base: string, name: string)
    requires name != ""
    ensures var inv := Invocation([name, "-C"], map[], Some(name), base);
      var comps := map[name := "bower_components/" + name];
      var w := World(Some(SampleDocs()), 1, Some(Confs(comps)), name);
      AfterRead(inv, w)
        == [ResolveComponentPath(name), SubmitToPortal(base, comps, Some(PathJoin(base, "bower_components/" + name)))]
  {
    var inv := Invocation([name, "-C"], map[], Some(name), base);
    var comps := map[name := "bower_components/" + name];
    var w := World(Some(SampleDocs()), 1, Some(Confs(comps)), name);
    assert Submits(inv, w, Confs(comps)) by {
      assert inv.argv[1] == "-C";
    }
    assert SubmittedPath(inv, w, Confs(comps)) == Some(PathJoin(base, "bower_components/" + name));
  }

  /**
   * `bb install <name> -C` for a registry name such as `jquery`: `-C` is not
   * forwarded; the component's path is resolved and submitted.
   */
  lemma ScenarioCatalogSubmit(base: string, name: string)
    requires name != "" && !IsLocal(name) && !IsCustomArg(name)
    ensures var inv := Invocation([name, "-C"], map[], Some(name), base);
      var comps := map[name := "bower_components/" + name];
      var w := World(Some(SampleDocs()), 1, Some(Confs(comps)), name);
      var docs := Prepared(inv, SampleDocs());
      && Execute(inv, w).trace
           == [SpawnBowerInstall(["install", name]),
               GenerateRequireConf(base, map[], docs.bowerRc, docs.bbJson),
               ResolveComponentPath(name),
               SubmitToPortal(base, comps, Some(PathJoin(base, "bower_components/" + name)))]
      && Execute(inv, w).stage == Done
  {
    var inv := Invocation([name, "-C"], map[], Some(name), base);
    var comps := map[name := "bower_components/" + name];
    var w := World(Some(SampleDocs()), 1, Some(Confs(comps)), name);
    CatalogSubmitHead(base, name);
    CatalogSubmitAfter(base, name);
    ExecuteMatchesReference(inv, w);
  }

  /** `jquery` is such a registry name. */
  lemma JqueryIsRegistryName()
    ensures "jquery" != "" && !IsLocal("jquery") && !IsCustomArg("jquery")
  {
    NotLocalExamples();
  }

  /**
   * Up to the generation, a `bb install ./my-widget` run cleans under the
   * directory line 55 computes, with the base repeated, and spawns.
   */
  lemma LocalWidgetHead(base: string)
    ensures var inv := Invocation(["./my-widget"], map[], Some("./my-widget"), base);
      var docs := Prepared(inv, SampleDocs());
      HeadEvents(inv, docs)
        == [CleanLocalComponent(base + "/" + base + "/bower_components", "./my-widget"),
            SpawnBowerInstall(["install", "./my-widget"]),
            GenerateRequireConf(base, map[], docs.bowerRc, docs.bbJson)]
  {
    var inv := Invocation(["./my-widget"], map[], Some("./my-widget"), base);
    var docs := Prepared(inv, SampleDocs());
    AsWrittenRepeatsBase(SampleDocs().bowerRc, base);
    NotLocalExamples();
    assert CleanEvents(inv, docs) == [CleanLocalComponent(base + "/" + base + "/bower_components", "./my-widget")];
    ForwardedSingle("./my-widget");
    assert BowerArgs(inv) == ["install", "./my-widget"];
  }

  /**
   * `bb install ./my-widget`: the local copy is cleaned first, from
   * `<base>/<base>/bower_components` as line 55 computes it; no submission.
   */
  lemma ScenarioLocalWidget(base: string)
    ensures var inv := Invocation(["./my-widget"], map[], Some("./my-widget"), base);
      var w := World(Some(SampleDocs()), 0, Some(Confs(map["my-widget" := "bower_components/my-widget"])), "my-widget");
      var docs := Prepared(inv, SampleDocs());
      && Execute(inv, w).trace
           == [CleanLocalComponent(base + "/" + base + "/bower_components", "./my-widget"),
               SpawnBowerInstall(["install", "./my-widget"]),
               GenerateRequireConf(base, map[], docs.bowerRc, docs.bbJson),
               ResolveComponentPath("my-widget")]
      && Execute(inv, w).stage == Done
  {
    var inv := Invocation(["./my-widget"], map[], Some("./my-widget"), base);
    var w := World(Some(SampleDocs()), 0, Some(Confs(map["my-widget" := "bower_components/my-widget"])), "my-widget");
    LocalWidgetHead(base);
    assert !CatalogFlag(inv.argv);
    assert AfterRead(inv, w) == [ResolveComponentPath("my-widget")];
    ExecuteMatchesReference(inv, w);
  }
}
