# bb-cli `install` command, modelled in Dafny

`bb install [<endpoint>] [OPTIONS]` wraps `bower install`. It reads three configuration documents
(`bower.json`, `.bowerrc`, `bb.json`), fills in a default install directory, applies the
`--web-url` and `--require-confs` overrides to `bb.json`, cleans the previous copy of a local endpoint,
and spawns `bower` with every raw token except the tool's own flags. When the process closes, it
generates the RequireJS configuration. If that succeeds and an endpoint was given, it resolves the
component's path. If the catalog flag (`--catalog` or `-C`) is among the raw tokens, it submits the
components to the portal.

The model has seven modules:

- `Common`: optional values and JavaScript truthiness of a string.
- `JsStrings`: the runtime pieces the command relies on. These are `indexOf`, `split(',')` and `path.join`,
  plus `join(',')`, which the command does not call, to state that the split round-trips.
- `Arguments`: the reserved flags, the forwarded-token filter (`Forwarded`, and the loop that builds
  the `bower` argument list, `BuildBowerCommand`) and the catalog flag.
- `LocalComponents`: local-endpoint classification and the directory a local copy is cleaned from.
- `Settings`: `.bowerrc` and `bb.json` as classes mutated in place (`BowerRc`, `BbJson`). Their
  methods are specified by the value functions `WithDefaultDirectory` and `WithOverrides`.
- `Pipeline` and `PipelineProperties`: the orchestration as a state machine (`Step`, `Run`, `Execute`)
  producing a trace of effects. The effects are clean, spawn, generate, resolve and submit. The
  outside world's answers are a `World` value: load ok or failed, bower's exit status, the generator's
  result, and the component name the package metadata gives. `ReferenceTrace` describes a whole run in
  one piece. `ExecuteMatchesReference` ties the state machine to it, and the ordering and gating
  lemmas are stated on the trace.

A component name missing from the generated map makes `path.join(baseUrl, undefined)` throw inside
the generation callback (install.js:85). The generation failure handler reports it, and nothing is
submitted; see `PipelineProperties.MissingComponentIsGenerationFailure`.

The clean step follows line 55 as written, so its trace records the directory the code computes,
including the repeated base described under "## Findings".

## Model

| member | source | states |
|---|---|---|
| `JsStrings.IndexOf` | commands/install.js:41 | `indexOf` returns -1 exactly when the value is absent, otherwise the first position holding it |
| `JsStrings.PathJoin` | commands/install.js:45 | `path.join` of two pieces is the first, a `/`, then the second, each kept whole |
| `JsStrings.Split` | commands/install.js:25 | `split` always yields at least one part |
| `JsStrings.SplitCount` | commands/install.js:25 | a split has one more part than the string has separators |
| `JsStrings.SplitPartsFree` | commands/install.js:25 | no part of a split contains the separator |
| `JsStrings.SplitThenJoin` | commands/install.js:25 | joining the parts of a split with the separator gives back the original string |
| `JsStrings.JoinThenSplit` | commands/install.js:25 | splitting a join of separator-free parts gives back the parts |
| `Arguments.IsCustomArg` | commands/install.js:15-21 | a token is reserved iff it equals exactly `--catalog`, `-C`, `--web-url` or `--require-confs` |
| `Arguments.Forwarded` | commands/install.js:63-66 | the forwarded tokens are no more than the raw tokens |
| `Arguments.ForwardedNoReserved` | commands/install.js:63-66 | no forwarded token is a reserved flag |
| `Arguments.BuildBowerCommand` | commands/install.js:39-67 | the push loop yields `"install"` followed by the forwarded tokens; no reserved flag appears after the first element |
| `Arguments.ForwardedAppend` | commands/install.js:63-66 | filtering distributes over concatenation, so the relative order of kept tokens is the original one |
| `Arguments.ForwardedCount` | commands/install.js:63-66 | every non-reserved token is forwarded as many times as it occurs, a reserved one never |
| `Arguments.ForwardedAllPlain` | commands/install.js:63-66 | with no reserved token present, everything is forwarded unchanged |
| `Arguments.ForwardedSnoc` | commands/install.js:63-66 | one more token is forwarded at the end exactly when it is not reserved |
| `Arguments.FlagValueForwarded` | commands/install.js:63-66 | each token is judged on its own: a reserved flag such as `--web-url` drops out, while the value after it is forwarded in place |
| `Arguments.NearMissesNotReserved` | commands/install.js:15-21 | `--catalog=true`, `--web-urlX` and `-c` are not reserved; `--web-url` and `-C` are |
| `Arguments.CatalogFlag` | commands/install.js:41 | the catalog flag is true iff some raw token equals `--catalog` or `-C` |
| `Arguments.CatalogFlagConcat` | commands/install.js:41 | the catalog flag of joined token lists is the disjunction of their flags, whatever else they hold |
| `Arguments.CatalogFlagNotForwarded` | commands/install.js:41-65 | the forwarded tokens never raise the catalog flag; it is read only from the raw tokens |
| `LocalComponents.Substring` | commands/install.js:54 | `substring(0, n)` is the prefix of length `min(n, length)`: the whole string when it is shorter than `n` |
| `LocalComponents.IsLocal` | commands/install.js:54 | an endpoint is local iff it starts with `./` or with `/` |
| `LocalComponents.NotLocalExamples` | commands/install.js:54 | `../x`, `x/./y`, `""`, `.` and `jquery` are not local; `./my-widget` and `/abs/widget` are |
| `LocalComponents.CleanDirectoryAsWritten` | commands/install.js:55 | line 55 puts the install directory under the base even when it is absolute: with `path.join` as plain concatenation, the result is the base, `/`, then the directory, never the directory alone for a non-empty base |
| `LocalComponents.AsWrittenRepeatsBase` | commands/install.js:45-55 | with the defaulted directory, line 55 as written yields `<base>/<base>/bower_components`, not the install directory (with `path.join` as plain concatenation; a real `path.join` with base `/` normalises this to the install directory) |
| `LocalComponents.CleanDirectoryIsInstallDirectory` | commands/install.js:45-55 | the corrected clean directory is `<base>/bower_components` by default, else the configured directory resolved against the base |
| `Settings.OptionSet` | commands/install.js:24-25 | an option counts as given exactly when present and not empty, as JavaScript truthiness of a string |
| `Settings.WithDefaultDirectory` | commands/install.js:45 | after defaulting, `directory` is set; other fields are unchanged; a set directory is kept as it is |
| `Settings.DefaultDirectoryValue` | commands/install.js:45 | a missing or empty directory becomes `<base>/bower_components` |
| `Settings.BowerRc.AddDefaultDirectory` | commands/install.js:45 | the in-place assignment leaves `.bowerrc` equal to its defaulted value and changes only `directory` |
| `Settings.WithOverrides` | commands/install.js:23-28 | only `dependenciesWebUrl` and `requirejsConfigs` can change, each only when its option is truthy |
| `Settings.WebUrlOverride` | commands/install.js:24 | a truthy `web-url` replaces `dependenciesWebUrl` and does not affect `requirejsConfigs` |
| `Settings.RequireConfsOverride` | commands/install.js:25 | `requirejsConfigs` has commas + 1 comma-free parts whose comma-join is the option |
| `Settings.RequireConfsListRoundTrip` | commands/install.js:25 | a comma-joined list of comma-free paths arrives as exactly that list |
| `Settings.BbJson.ApplyConfChanges` | commands/install.js:23-28 | the in-place overrides leave `bb.json` equal to `WithOverrides` of its old value and change only the two overridable fields |
| `Pipeline.HasEndpoint` | commands/install.js:51 | `if (componentEndpoint)`: an endpoint counts as given exactly when it is present and not empty |
| `Pipeline.Prepared` | commands/install.js:45-48 | the documents handed to the generator always have an install directory |
| `Pipeline.CleanEvents` | commands/install.js:51-56 | at most one clean, present iff an endpoint is given and is local, for that endpoint under the line-55 directory |
| `Pipeline.BowerArgs` | commands/install.js:39-67 | `bower` is spawned with `install` first, no more tokens than were given, and no reserved flag |
| `Pipeline.Step` | commands/install.js:34-95 | each transition advances to a later stage and only appends to the trace |
| `Pipeline.Run` | commands/install.js:34-95 | a run always reaches `Done` or `Failed` and only appends to the trace |
| `Pipeline.Execute` | commands/install.js:30-96 | a run from the start always ends, and a failed load ends it as a configuration-read failure with no effect |
| `PipelineProperties.ExecuteMatchesReference` | commands/install.js:34-95 | the state machine's trace and final stage equal the one-piece reference description of a run |
| `PipelineProperties.RunFromGeneration` | commands/install.js:72-91 | from the generation on, the machine appends the generation, then the resolve and submission it makes, and ends as the reference says |
| `PipelineProperties.HeadOrdered` | commands/install.js:51-78 | before the generation's callback the effects are an optional clean, then the spawn, then the generation, in that order |
| `PipelineProperties.HeadHappens` | commands/install.js:51-78 | before the generation's callback a clean happens iff a local endpoint was given; the spawn and the generation always happen |
| `PipelineProperties.AfterOrdered` | commands/install.js:78-88 | after a successful generation the effects are a resolve, then a submission, in that order, both later than the generation |
| `PipelineProperties.AfterHappens` | commands/install.js:78-88 | after a successful generation a resolve happens iff an endpoint was given, and a submission iff it is made |
| `PipelineProperties.TraceOrdered` | commands/install.js:51-88 | effects come in strictly increasing order, so each happens at most once and the clean precedes the spawn |
| `PipelineProperties.EffectsThatHappen` | commands/install.js:34-91 | each kind of effect happens iff the outside world's answers call for it: spawn and generation after a read, a clean also needing a local endpoint, a resolve and a submission a successful generation and their own conditions |
| `PipelineProperties.EffectContents` | commands/install.js:34-91 | every effect carries what the code hands it: the line-55 clean directory (`path.join` of the base and the defaulted directory) and the endpoint, the forwarded arguments, the prepared documents, the metadata name, the components and path |
| `PipelineProperties.ConfigReadFailureStops` | commands/install.js:34-38 | the run ends as a configuration-read failure iff a load fails, and then nothing happens |
| `PipelineProperties.SpawnedWithForwardedArgs` | commands/install.js:61-72 | `bower` is spawned iff the configuration was read, always with `"install"` plus the forwarded tokens |
| `PipelineProperties.CleanIffLocalEndpoint` | commands/install.js:51-56 | a clean happens iff the configuration was read and a local endpoint was given; it is the first effect |
| `PipelineProperties.GenerationFollowsEveryInstall` | commands/install.js:72-78 | the exit status changes nothing; after a read, generation runs on the defaulted and overridden settings |
| `PipelineProperties.GenerationFailureStops` | commands/install.js:78-91 | a failed generation is reported, with no path resolved and nothing submitted |
| `PipelineProperties.ResolveIffEndpointAndGenerated` | commands/install.js:80-86 | the component path is resolved iff generation succeeded and an endpoint was given |
| `PipelineProperties.SubmitIff` | commands/install.js:78-88 | submission happens iff generation succeeded, the catalog flag is set, and any given endpoint's component is in the map |
| `PipelineProperties.SubmittedComponentPath` | commands/install.js:80-88 | the submission carries the component map, and a single path iff an endpoint was given: the map's path joined to the base |
| `PipelineProperties.MissingComponentIsGenerationFailure` | commands/install.js:83-91 | a component name missing from the map ends the run as a generation failure after the resolve step |
| `PipelineProperties.DoneIff` | commands/install.js:34-95 | a run completes iff the load, the generation and any needed path lookup all succeed |
| `PipelineProperties.ScenarioInstallAll` | commands/install.js:34-95 | `bb install`: spawn with `["install"]`, generate, nothing else |
| `PipelineProperties.ScenarioCatalogSubmit` | commands/install.js:34-95 | `bb install <name> -C` for a registry name such as `jquery` (`JqueryIsRegistryName`): spawn with `["install", <name>]`, generate, resolve, submit the component's path joined to the base |
| `PipelineProperties.ScenarioLocalWidget` | commands/install.js:34-95 | `bb install ./my-widget` with no configured directory: clean from `<base>/<base>/bower_components` as line 55 computes it, spawn, generate, resolve, no submission |

## Findings

| source | as written | input that shows it | evidently intended | confidence | as-written member | corrected member |
|---|---|---|---|---|---|---|
| commands/install.js:45-55 | line 45 defaults `directory` to `path.join(baseUrl, 'bower_components')`, an absolute path, and line 55 joins `baseUrl` to it again | `.bowerrc` without `directory`, endpoint `./my-widget`, base `/work`: the clean targets `/work/work/bower_components` | clean under the install directory itself, `/work/bower_components` | medium, not executed; `lib/config.js` (what `getBowerRc` returns) is not part of this model | `LocalComponents.AsWrittenRepeatsBase` | `LocalComponents.CleanDirectoryIsInstallDirectory` |

The pipeline records the directory as line 55 computes it (`LocalComponents.CleanDirectoryAsWritten`).
The corrected rule is `LocalComponents.CleanDirectory`: an absolute directory is used as it is, and a
relative one is joined to the base as line 55 does.

## Left out

- Spawning `bower` with inherited stdio is one `SpawnBowerInstall` event. Its exit status is a `World` field that nothing reads.
- The `q.all` / `.spread` / `.then` / `.fail` promise plumbing is modelled as sequential outcomes. The three loads are one outcome, because any single failure fails the join.
- `GenerateRequireConf`, `restUtils.submitToPortal`, `depUtils.cleanLocalComponent`, `depUtils.getComponentNameFromMeta` and `configLib.*` are foreign modules and are not part of this model. They appear only as events or as `World` answers. The name derived from the package metadata is `World.metaName`.
- Failures of `cleanLocalComponent`, of the spawn and of `submitToPortal` are not modelled. A synchronous throw from `cleanLocalComponent` (line 55) would be reported by the configuration-read handler (lines 93-95), and one from `submitToPortal` (line 88) by the generation handler (lines 89-91). Their asynchronous failures and the spawn's `error` event (for example `bower` not on the path) go unhandled in the source.
- `path.join` normalisation is not modelled. `JsStrings.PathJoin` is plain concatenation with `/`.
- `argv` is the token list the command reads from `process.argv`. Whether the runtime's interpreter path, script path and sub-command name are still in that list depends on the command framework (ronin), which is not part of this model. The scenario lemmas use only the user's tokens.
- Option values are strings; an option given without a value (a boolean) is not modelled. With such a value, `split` at line 25 would fail.
- `SubmitToPortal` does not record the constant `false` passed as the third argument of `submitToPortal`.
- Console and chalk messages (including the two progress messages), and the `help` text, are presentation only.
- templates/widget/bbscaff.js is an interactive prompt wizard around a foreign call. It is not part of this model.
