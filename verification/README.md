# ts-make core in Dafny

ts-make is a small build tool. It reads a `ts-make` configuration file that
declares plugins and targets. It loads the plugins, whose initialisers
register named actions. It then builds a `MakeSpec`: every target is linked
to its action and its dependency targets, and any dependency cycle is
rejected. Finally it plans a depth-first build of the requested target and
runs the action of each target the plan builds, one at a time, in plan order.

This project models that engine as immutable data and pure functions, and
proves what each phase guarantees. Targets are keyed by name. The source
compares target objects by identity, which coincides with names because
`addTarget` rejects duplicates. The dependency graph is a
`map<string, seq<string>>`.

| file | module | models |
|---|---|---|
| wrappers.dfy | Wrappers | `Option`, `Result`, and JavaScript's `undefined`/`null`/value as `Nullish` |
| seqs.dfy, text.dfy | Seqs, Text | sequence and string helpers (`NoDups`, `Join`, `endsWith`, `path.basename`) |
| js.dfy | Js | JavaScript values as far as the core inspects them (`typeof`, `??`, `await`) |
| graph.dfy | Graph | walks, acyclicity and reachability over the dependency graph |
| cycle_check.dfy | CycleCheck | the path-carrying depth-first cycle check of `checkTargetForDepCycle` |
| model.dfy | Model | `Plugin`, `Action`, `Target` and `MakeSpec`, with their index invariants |
| build_plan.dfy | BuildPlan | `createBuildPlan`, `createBuildTarget`, `getBuildSteps`, `buildStepToString` |
| config.dfy | ConfigShape | the zod schemas of `Config.ts` as datatypes, a validity predicate and a parser |
| module_loader.dfy | ModuleLoader | `resolveFrom`, the `loadOne` cache, the `loadMany` error policy, `wrapErr`, `makePluginNormalizer` |
| model_builder.dfy | ModelBuilder | `buildModel`'s phases and `ModelBuilderPluginHost.registerAction` |
| export_files.dfy | ExportFiles | extension classification, file search, per-kind loading and the default-export unwrap rule |
| config_loader.dfy | ConfigLoader | `findConfig` and `loadConfig` |
| config_to_model.dfy | ConfigToModel | the legacy `configToModel` path over its own input shape |
| built_in_plugins.dfy | BuiltInPlugins | the `@ts-make` plugin and its `print` action |
| make.dfy | Make | `make`, `Make.build` and `Make.buildTarget` as a trace of action invocations |

Several things the engine calls are not modelled as code. Each one is a
parameter that the caller supplies, and the contracts hold for every choice:

- `require.resolve`, `import()`, `package.json` exports, `path.resolve` and file URLs: the `ModuleEnv` fields.
- `Utils.isFile`, the JSON reader, the esbuild bundler and the package-directory lookup behind `getProjectRoot`: the `FileEnv` fields.
- A plugin initialiser: the list of names it passes to `registerAction`.
- An action's `run`: a function from the invocation to success or an error.
- `MakeSpec.getTargetOrDefault`: a function from the spec and the requested name to a target name or an error.

`src/lib/ModelBuilder.ts:168` calls `Plugin.toFullName`, but `Model.ts`
has no such member, so the repository gives the naming rule no body. The
model assumes this naming rule: a built-in plugin's actions keep their bare
name, and any other plugin's actions are named
`<alias or plugin name>:<name>` (`Model.ToFullName`).

## Model

| member | source | states |
|---|---|---|
| BuildPlan.CreateBuildTarget | src/lib/BuildPlan.ts:62-75 | the node lists one dependency entry per `target.deps` entry, in order; the completed set afterwards is the completed set before plus everything reachable from the target |
| BuildPlan.CreateDeps | src/lib/BuildPlan.ts:64-72 | a dependency is tagged Completed exactly when it was completed before or is reachable from an earlier sibling; otherwise it is expanded; the completed set grows by what the dependencies reach |
| BuildPlan.CreateBuildPlan | src/lib/BuildPlan.ts:55-60 | the plan's root node is the chosen target |
| BuildPlan.CreateBuildPlanFromSpec | src/lib/BuildPlan.ts:55-60 | a plan exists exactly when `getTargetOrDefault` yields a target, and its root is that target |
| BuildPlan.StepsBuildOrder | src/lib/BuildPlan.ts:19-38 | the `BuildTarget` events of a node's step sequence are exactly the post-order of its expanded subtree; skipped dependencies contribute none |
| BuildPlan.CreateBuildTargetOrder | src/lib/BuildPlan.ts:62-75 | expansion builds each target not completed before exactly once, each after all its dependencies, and the target itself last |
| BuildPlan.PlanBuildsReachableOnce | src/lib/BuildPlan.ts:55-75 | on an acyclic graph, the plan builds every target reachable from the root exactly once, nothing else, each after its dependencies, and the root last |
| BuildPlan.BuildStepToString | src/lib/BuildPlan.ts:125-142 | every rendering starts with the target name followed by ` - `, and the rest is the step's own text |
| BuildPlan.StepTextShowsKind | src/lib/BuildPlan.ts:126-141 | the kind of a step can be read back from the text after ` - ` |
| BuildPlan.StepLinesDistinguishKinds | src/lib/BuildPlan.ts:125-142 | two steps of the same target but of different kinds render as different lines |
| BuildPlan.GetBuildSteps | src/lib/BuildPlan.ts:19-38 | the step sequence of one node; what it builds and in what order is stated by `BuildPlan.StepsBuildOrder` and `BuildPlan.PlanBuildsReachableOnce` |
| CycleCheck.CheckTarget | src/lib/ModelBuilder.ts:146-155 | a reported cycle is a real walk that returns to a node on it, and it extends the current path |
| CycleCheck.CheckDeps | src/lib/ModelBuilder.ts:150-153 | a cycle found among a target's dependencies is a real cycle that extends the current path; `CycleCheck.CheckDepsNoneIff` states when none is found |
| CycleCheck.CheckAll | src/lib/ModelBuilder.ts:140-144 | any reported path is a cycle of the graph |
| CycleCheck.CheckAllNoneIff | src/lib/ModelBuilder.ts:140-155 | the check passes exactly when no walk from any listed target repeats a node |
| CycleCheck.CheckAllAcyclic | src/lib/ModelBuilder.ts:140-155 | run over every target, the check passes exactly when the dependency graph is acyclic |
| ConfigShape.ParseDeps | src/lib/Config.ts:18 | `deps` is accepted exactly when it is absent, null, a string or an array of strings |
| ConfigShape.ParseTarget | src/lib/Config.ts:16-21 | a target parses exactly when it satisfies the strict target schema, keeping its name |
| ConfigShape.ParsePlugin | src/lib/Config.ts:24-31 | a plugin declaration parses exactly when it is a string or an object with a string name and an optional, nullable string alias |
| ConfigShape.ParseConfig | src/lib/Config.ts:33-37 | a configuration parses exactly when it satisfies the strict configuration schema |
| ConfigShape.ParseEncodeConfig | src/lib/Config.ts:16-37 | every configuration value is recovered by parsing its JSON form |
| ConfigShape.EncodeParseTarget | src/lib/Config.ts:16-21 | a valid target object with no `undefined`-valued key is exactly the encoding of what it parses to |
| ConfigShape.EncodeParsePlugin | src/lib/Config.ts:24-31 | a valid plugin declaration, if an object then with no key beyond `name` and `alias` and none `undefined`, is exactly the encoding of what it parses to |
| ConfigShape.EncodeParseConfig | src/lib/Config.ts:16-37 | a valid configuration value in that canonical form is exactly the encoding of what it parses to, so on canonical values parsing and encoding are inverse both ways |
| ConfigShape.EncodeConfigCanonical | src/lib/Config.ts:16-37 | every encoded configuration is in canonical form |
| ConfigShape.TargetRejectsExtraKey | src/lib/Config.ts:21 | a target object with any key outside `name`, `deps`, `action`, `args` is rejected |
| ConfigShape.ConfigRejectsExtraKey | src/lib/Config.ts:36 | a configuration object with any key outside `plugins`, `targets` is rejected |
| ConfigShape.PluginIgnoresExtraKey | src/lib/Config.ts:24-27 | extra keys do not change how a plugin object parses, because that object schema is not strict |
| ModuleLoader.SortByLengthSpec | src/lib/utils/GenericModuleLoader.ts:87-90 | the candidate keys are ordered by JavaScript `length` (UTF-16 code units), are a permutation of the input, and keys of equal length keep their order |
| ModuleLoader.ExportKeyOrder | src/lib/utils/GenericModuleLoader.ts:84-90 | the export-key candidates are the keys matching the pattern, shortest first by UTF-16 length, ties in `Object.keys` order |
| Text.JsLengthOfBmp | src/lib/utils/GenericModuleLoader.ts:90 | on text without characters beyond the Basic Multilingual Plane, JavaScript `length` is the number of characters |
| Text.AstralCharCountsTwice | src/lib/utils/GenericModuleLoader.ts:90 | a character beyond the Basic Multilingual Plane counts two towards `length`, so `./ab` and `./😀` tie |
| ModuleLoader.FirstResolved | src/lib/utils/GenericModuleLoader.ts:61-99 | the first request that resolves wins; nothing resolves exactly when every request fails |
| ModuleLoader.ResolveFrom | src/lib/utils/GenericModuleLoader.ts:43-56 | a `file:` specifier is returned unchanged; a relative or absolute path resolves against the base directory |
| ModuleLoader.ResolvePackageFirstWins | src/lib/utils/GenericModuleLoader.ts:58-111 | a package name resolves through the entry, then each subpath candidate, then each matching export key, taking the first that resolves; otherwise the error names the specifier, the base directory and the candidates |
| ModuleLoader.LoadOne | src/lib/utils/GenericModuleLoader.ts:121-142 | the cache holds the outcome under `baseDir::spec`; the load runs exactly when the key was absent; existing entries are never changed |
| ModuleLoader.LoadOneOnce | src/lib/utils/GenericModuleLoader.ts:130-141 | loading the same key again returns the same outcome, leaves the cache unchanged and runs nothing |
| ModuleLoader.LoadAll | src/lib/utils/GenericModuleLoader.ts:155-168 | one outcome per specifier, each the cache's entry for its key; existing entries are kept; the loads that ran are distinct keys that were not cached before |
| ModuleLoader.LoadManyRunsOnce | src/lib/utils/GenericModuleLoader.ts:155-168 | across a `loadMany`, each key's load runs at most once, and only for keys not already cached |
| ModuleLoader.WrapErr | src/lib/utils/GenericModuleLoader.ts:181-185 | the wrapped message is `[spec] ` followed by the original message |
| ModuleLoader.LoadManyOutcomes | src/lib/utils/GenericModuleLoader.ts:148-179 | `loadMany` applies its error policy to the cached outcome of each specifier; equal specifiers get equal outcomes |
| ModuleLoader.ApplyPolicy | src/lib/utils/GenericModuleLoader.ts:157-178 | the error policy over the outcomes in specifier order; stated by `ModuleLoader.PolicyStopsAtFirst`, `ModuleLoader.PolicyCollects` and `ModuleLoader.PolicySuccessMap` |
| ModuleLoader.LoadMany | src/lib/utils/GenericModuleLoader.ts:148-179 | existing cache entries are kept and every specifier's key is cached afterwards; the result is stated by `ModuleLoader.LoadManyOutcomes` |
| ModuleLoader.PolicySuccessMap | src/lib/utils/GenericModuleLoader.ts:174-178 | the returned map has a key exactly for each specifier that loaded, mapped to its instance |
| ModuleLoader.PolicyStopsAtFirst | src/lib/utils/GenericModuleLoader.ts:157-166 | without `continueOnError`, the load succeeds exactly when every specifier loads, and otherwise raises the first failure prefixed with its specifier |
| ModuleLoader.PolicyCollects | src/lib/utils/GenericModuleLoader.ts:160-172 | with `continueOnError`, the load fails exactly when some specifier failed and errors are not swallowed, with every wrapped failure and the count in the message |
| ModuleLoader.Normalize | src/lib/utils/GenericModuleLoader.ts:220-249 | a normalised instance always passes `validate` |
| ModuleLoader.NormalizeProbeOrder | src/lib/utils/GenericModuleLoader.ts:220-248 | the normaliser returns the first valid probe, in the order `default`, instance names, factory results, then the whole module when allowed; a throwing factory stops the search |
| ModelBuilder.AddPlugins | src/lib/ModelBuilder.ts:25-41 | each declared plugin is appended in order as a non-built-in plugin with its alias, and nothing else changes |
| ModelBuilder.AssignPlugins | src/lib/ModelBuilder.ts:66-76 | assignment succeeds exactly when every plugin name has a loaded, non-null instance, and each plugin then gets its own instance |
| ModelBuilder.LoadPlugins | src/lib/ModelBuilder.ts:43-77 | after loading, the plugins are the same records, each with an instance, nothing else changes, and the cache only grows |
| ModelBuilder.LoadPluginsAssignmentHolds | src/lib/ModelBuilder.ts:43-77 | with the corrected check, loading succeeds exactly when every plugin's cached load succeeded, and the cache holds only plugin functions |
| ModelBuilder.RegisterAction | src/lib/ModelBuilder.ts:167-176 | registration fails exactly when the full name is already registered, with the source's message; otherwise the action is appended and only the action fields change |
| ModelBuilder.RegisterActionIndexed | src/lib/ModelBuilder.ts:167-176 | registration keeps the action list and the full-name index in agreement |
| ModelBuilder.InitializePlugins | src/lib/ModelBuilder.ts:79-81 | initialisation changes only the actions and their index; when it succeeds is stated by `ModelBuilder.InitializeEachSpec` |
| ModelBuilder.RegisterAllSpec | src/lib/ModelBuilder.ts:83-86 | one plugin's registrations all succeed exactly when no full name repeats, among themselves or against earlier actions; the names are then appended in order |
| ModelBuilder.InitializeEachSpec | src/lib/ModelBuilder.ts:79-86 | initialising the plugins succeeds exactly when every initialiser succeeds and no full name repeats across all plugins; the action names are then all the registered names in order |
| ModelBuilder.LookupAction | src/lib/ModelBuilder.ts:98-108 | a target without an action gets none; a named action is found exactly when it is registered, otherwise the error names the action and the target |
| ModelBuilder.AddTarget | src/lib/ModelBuilder.ts:95-117 | the action lookup fails first; then a duplicate name fails; the target is added exactly when its action is found and its name is new |
| ModelBuilder.AddTargetSpec | src/lib/ModelBuilder.ts:110-116 | an added target is appended with its action, arguments and no dependencies yet; the indexes stay consistent and its configuration is recorded |
| ModelBuilder.AddTargets | src/lib/ModelBuilder.ts:89-93 | the configured targets added in order, stopping at the first error; stated by `ModelBuilder.AddTargetsSpec` |
| ModelBuilder.AddTargetsSpec | src/lib/ModelBuilder.ts:89-117 | adding the configured targets succeeds exactly when every action is found and no name repeats; the targets are then appended in configuration order |
| ModelBuilder.RawDeps | src/lib/ModelBuilder.ts:131 | absent or null deps give no dependencies, and an array gives its names |
| ModelBuilder.StringDepsAreCharacters | src/lib/ModelBuilder.ts:131 | a string `deps` value is iterated by character: one single-character name per character, which together spell the string |
| ModelBuilder.ResolveDeps | src/lib/ModelBuilder.ts:131-137 | a target's deps resolve exactly when every name is a target; otherwise the first missing one is reported with the source's message |
| ModelBuilder.ResolveTargets | src/lib/ModelBuilder.ts:120-124 | each target's dependencies resolved in order; stated by `ModelBuilder.ResolveFromSpec` and `ModelBuilder.ResolvedClosed` |
| ModelBuilder.ResolveFromSpec | src/lib/ModelBuilder.ts:120-138 | resolution succeeds exactly when every target's configuration is recorded and its deps resolve, and each target then gets exactly its configured deps |
| ModelBuilder.ResolvedClosed | src/lib/ModelBuilder.ts:120-138 | after resolution the indexes are intact and every dependency is a target |
| ModelBuilder.CheckCycles | src/lib/ModelBuilder.ts:140-155 | the check passes exactly when the dependency graph is acyclic; otherwise the error is `Deps cycle detected: ` and a real cycle joined with ` -> ` |
| ModelBuilder.BuildModel | src/lib/ModelBuilder.ts:12-23 | the plugin cache only grows; what a built model satisfies is stated by `ModelBuilder.BuildModelWellFormed` |
| ModelBuilder.BuildModelWellFormed | src/lib/ModelBuilder.ts:12-23 | a built model has consistent indexes, resolved actions and dependencies, no cycle, and exactly the configured targets in order |
| ModelBuilder.PluginToInstanceAcceptsDefaultFunction | src/lib/ModelBuilder.ts:48-55 | the corrected check accepts a module exactly when its default export is a function, and yields that function |
| ModelBuilder.AsWrittenRejectsEveryModule | src/lib/ModelBuilder.ts:48-55 | the check as written rejects every module namespace |
| ModelBuilder.AsWrittenLoadFails | src/lib/ModelBuilder.ts:43-77 | with the check as written, loading any declared plugin fails |
| ExportFiles.FilenameToExportFile | src/lib/utils/ExportFiles.ts:130-156 | a file is classified exactly when it ends with a known extension, keeping its name; otherwise the error lists the extensions |
| ExportFiles.ClassifiesByOwnExtension | src/lib/utils/ExportFiles.ts:120-156 | `<base><ext>` is classified by the group of `ext`: JS for `.js`, `.mjs`, `.cjs`, TS for `.ts`, JSON for `.json` |
| ExportFiles.FindExportFile | src/lib/utils/ExportFiles.ts:159-170 | the extension search; stated by `ExportFiles.FindExportFileSpec` |
| ExportFiles.FindExportFileSpec | src/lib/utils/ExportFiles.ts:159-170 | the search returns the first `basename+ext` that is a file, in the priority order, or none when no candidate is a file |
| ExportFiles.Validate | src/lib/utils/ExportFiles.ts:30-36 | a value is returned exactly when the schema accepts it; otherwise the error names the file |
| ExportFiles.ValidateFromJsFile | src/lib/utils/ExportFiles.ts:14-37 | an import failure yields an error naming the file; a rejected default export fails with the rejection's own reason, unwrapped; otherwise the result is the schema's verdict on the module's exported value, reported against the file |
| ExportFiles.UnwrapRule | src/lib/utils/ExportFiles.ts:27-29 | the exported value is the non-null `default` export, else the whole module, awaited when it is a promise; a rejected promise fails with its reason |
| ExportFiles.RejectedDefaultPropagates | src/lib/utils/ExportFiles.ts:19-29 | a module whose default export settles to a rejection fails to load with that reason, without the `Error loading file` prefix |
| Js.Await | src/lib/utils/ExportFiles.ts:29 | awaiting leaves a non-promise value as is, yields no promise, and throws a rejected promise's reason |
| ExportFiles.ValidateFromTsFile | src/lib/utils/ExportFiles.ts:40-68 | the project root, then the bundle, then the JS load; stated by `ExportFiles.TsLoadsBundleAsJs` |
| ExportFiles.ValidateFromExportFile | src/lib/utils/ExportFiles.ts:88-101 | a failure to obtain the file's value (import, read, parse, project root or bundle) is reported unchanged; otherwise the result is the schema's verdict on that value: the module's export, the parsed JSON, or the bundle's export, reported against the file loaded |
| ExportFiles.TsOutfileShape | src/lib/utils/ExportFiles.ts:45-49 | the bundle goes to `<projectRoot>/node_modules/.esbuild-tmp/<basename>.mjs`, which classifies as a JS file |
| ExportFiles.GetProjectRoot | src/lib/utils/Utils.ts:5-15 | the project root exists exactly when a package directory is found from `curdir`, or from the working directory when `curdir` is absent |
| ExportFiles.ValidateFromJsonFile | src/lib/utils/ExportFiles.ts:70-85 | a read or parse failure is reported as is; otherwise the result is the schema's verdict on the parsed JSON value, reported against the file |
| ExportFiles.LoadedValuePassedSchema | src/lib/utils/ExportFiles.ts:88-101 | whatever kind the file is, it loads exactly when its own value is obtained and the schema accepts that value, and the result is what the schema made of it |
| ExportFiles.TsLoadsBundleAsJs | src/lib/utils/ExportFiles.ts:40-68 | a TypeScript file that bundles is loaded as the JS file at the bundle's path |
| ConfigLoader.FindConfig | src/lib/ConfigLoader.ts:19-37 | an explicit file or the search under the project root; stated by `ConfigLoader.ExplicitConfigNotSearched` and `ConfigLoader.SearchedConfig` |
| ConfigLoader.LoadConfig | src/lib/ConfigLoader.ts:6-17 | a failure to find the file is reported unchanged; otherwise the result is the found file loaded against the configuration schema |
| ConfigLoader.ExplicitConfigNotSearched | src/lib/ConfigLoader.ts:24-25 | an explicit file is classified directly, and the result does not depend on the file system |
| ConfigLoader.SearchedConfig | src/lib/ConfigLoader.ts:27-36 | without an explicit file, the search under `<projectRoot>/ts-make` finds the first existing candidate in priority order; otherwise the error names the basename and the extension list |
| ConfigLoader.LoadedConfigIsValid | src/lib/ConfigLoader.ts:6-17 | a configuration loads exactly when the file is found, its value obtained and that value has the configuration shape; the result is that value's parse, and re-encodes to it when the value is canonical; a value of the wrong shape fails with the schema error naming the file |
| ConfigToModel.ToDepends | src/lib/ConfigToModel.ts:35-45 | null or absent gives no names, a string gives one name, and an array is returned unchanged |
| ConfigToModel.FindTarget | src/lib/ConfigToModel.ts:55-63 | a name is found exactly when it is registered; otherwise the error is `Target "<name>" not found` |
| ConfigToModel.LinkFrom | src/lib/ConfigToModel.ts:16-23 | linking succeeds exactly when every normalised dependency names a declared target |
| ConfigToModel.DefaultOf | src/lib/ConfigToModel.ts:26 | no default gives none; an empty name is kept as is without a lookup; any other name must be declared, or the not-found error is raised |
| ConfigToModel.BuildTarget | src/lib/ConfigToModel.ts:88-116 | a target without `build` yields nothing; an esbuild target needs its resolved source file to exist and otherwise fails naming it |
| ConfigToModel.ConfigToModel | src/lib/ConfigToModel.ts:5-33 | the legacy path; stated by `ConfigToModel.ConfigToModelSpec` |
| ConfigToModel.ConfigToModelSpec | src/lib/ConfigToModel.ts:5-33 | the legacy path succeeds exactly when every dependency and the default are declared, the graph is acyclic and every source exists; the model then holds the declared names, the normalised graph and the built targets |
| ConfigToModel.StringDependsDiffer | src/lib/ConfigToModel.ts:35-45 | a string dependency is one name here, and it agrees with the character-wise reading in the model builder exactly when the string has one character |
| BuiltInPlugins.BuiltInPluginRegistrations | src/lib/plugins/BuiltInPlugins.ts:8-10 | exactly one plugin is registered, named `@ts-make` |
| BuiltInPlugins.TsmakeRegistrations | src/lib/plugins/BuiltInPlugins.ts:12-14 | the plugin registers exactly one action, named `print` |
| BuiltInPlugins.TsmakeRegistersPrint | src/lib/plugins/BuiltInPlugins.ts:12-14 | initialising `@ts-make` as a built-in plugin adds the single action `print` under its bare name, and fails exactly when that name is taken |
| BuiltInPlugins.ParsePrintArgs | src/lib/plugins/BuiltInPlugins.ts:19 | the print arguments are accepted exactly when they are a string or an array of strings |
| BuiltInPlugins.PrintArgsRoundTrip | src/lib/plugins/BuiltInPlugins.ts:19-20 | parsing recovers every argument value from its JSON form, and anything that parses is that form |
| BuiltInPlugins.PrintRun | src/lib/plugins/BuiltInPlugins.ts:22-33 | a string logs exactly one line, the string; an array logs one line per element, in order, and none when empty |
| Make.InvocationOf | src/lib/Make.ts:49-57 | a target invokes its action exactly when it has one, with that target's name |
| Make.Invocations | src/lib/Make.ts:49-57 | the invocation of each named target that has an action, in order; stated by `Make.InvocationsOfNames` and `Make.InvocationsInOrder` |
| Make.Drive | src/lib/Make.ts:38-47 | the build loop over the steps; stated by `Make.DriveFollowsBuilds` and `Make.DrivePlan` |
| Make.DriveFollowsBuilds | src/lib/Make.ts:38-47 | the driver invokes the actions of the built targets in step order; all of them when each succeeds, and otherwise exactly those up to the first failure, whose error ends the build |
| Make.InvocationsOfNames | src/lib/Make.ts:49-57 | each invocation carries its own target's action full name and arguments, and every named target with an action is invoked |
| Make.InvocationsInOrder | src/lib/Make.ts:38-47 | invocations follow the build order: no target twice, and each after the invocations of its direct dependencies |
| Make.MakeBuild | src/lib/Make.ts:38-47 | a build happens exactly when `getTargetOrDefault` picks a target |
| Make.DrivePlan | src/lib/Make.ts:38-57 | driving the plan invokes only targets reachable from the root, each once, with its own action and arguments, after its dependencies; with no failure, every reachable target that has an action is invoked |
| Make.MakeBuildRunsReachableActions | src/lib/Make.ts:38-57 | the same for the root `getTargetOrDefault` chooses |
| Make.RunMake | src/lib/Make.ts:11-29 | a model-building error ends `make` before any action runs; otherwise the build runs exactly when a target is chosen |
| Make.RunMakeInvokesConfiguredTargets | src/lib/Make.ts:11-29 | every action that `make` runs belongs to a target the configuration declares, in a model that was fully built and checked |

## Left out

- Concurrency: `Promise.all` in `loadMany` and `initializePlugins` is modelled sequentially. Every specifier is loaded before the error policy is applied. Failures are reported and collected in specifier order, which is this model's choice. In the source, `Promise.all` rejects with the first failure to settle, and `errors.push` (src/lib/utils/GenericModuleLoader.ts:162) appends failures in the order they settle. So when several specifiers fail, the error raised without `continueOnError`, and the order of the collected errors with it, may differ from the model's.
- Single-flight loading is modelled as "a cache entry is written only when its key is absent". Two loads of one key can therefore never both run.
- `wrapErr` mutates the cached error object, so a second wrap of the same error prefixes it twice. Errors are strings here, so each failure is wrapped once.
- Real module machinery (`import()`, `createRequire`, `req.resolve`, `pathToFileURL`, reading `package.json`), esbuild and the file system are oracles, as listed above.
- The `exportKeyPattern` regular expression is an arbitrary predicate on keys.
- Zod internals are left out. The config schemas are modelled as a validity predicate and a parser. Other schemas are functions from a value to a result, and their issue text is a parameter.
- ModelBuilder.BuildModel: loads plugins with the corrected `PluginToInstance`, which tests the module's default export, not with `toInstance` as written (see Findings). This also holds for `ModelBuilder.BuildModelWellFormed`, `Make.RunMake` and `Make.RunMakeInvokesConfiguredTargets`. Under the check as written, every build that declares a plugin fails (`ModelBuilder.AsWrittenLoadFails`).
- ExportFiles.UnwrapRule: only `JsPromise` and `JsRejected` values count as thenables. `Utils.isPromise`'s duck typing of other objects with a `then` key is not modelled.
- `path.join` is string concatenation with `/`, and `path.basename` is the text after the last `/`. Paths are assumed normalised, with no trailing slash. An absolute path is one that starts with `/`, as `path.isAbsolute` reads it on POSIX. On Windows, `path.isAbsolute` also accepts drive-letter and UNC paths such as `C:\x`, which `ModuleLoader.IsPathSpec` treats as package names.
- A plugin initialiser is the list of names it registers, or an error. The action objects it registers, and their optional argument schemas, are left out.
- An action's `run` is a function from the invocation to success or an error. The context it receives is not modelled. `MakeActionContext` in `Make.ts` declares no members, although `PrintAction.run` calls `ctx.log`.
- `make` reads `config.baseDir` and `config.makeSpec`, which `loadConfig` does not return. `RunMake` therefore takes the configuration and base directory as inputs and does not call `LoadConfig`.
- `loadConfig` passes `curdir` to `validateExportFromExportFile`, which takes no such argument. `LoadConfig` drops it there.
- `configToModel` returns nothing. `ConfigToModel.ConfigToModel` returns the values it computes. It also takes its targets as name/entry pairs with distinct names, as `Object.entries` yields them. The legacy shapes `depends`, `build` and `defaultTarget` are absent from `Config.ts`, so they are modelled over their own datatypes.
- The esbuild targets' `metafile` option and the watch mode of the commented-out build visitor are left out.
- `registerBuiltInPlugins` is never called by `buildModel`, because of the FIXME in `ModelBuilder.ts`. `BuildModel` therefore adds declared plugins only. The built-in plugin's registrations are modelled separately, in `BuiltInPlugins`.
- `PrintAction.run` receives arguments typed as the schema's output, so `PrintRun` takes the parsed arguments. What it would do with other values is not modelled; `Make` never validates arguments against a schema.
- The CLI (`src/cli.ts`, `src/cli/commands/*`) and `EsbuildPlugin.ts` are not part of this model.
- `Model.ts` is an older shape that lacks `MakeSpec`, `toFullName` and `getTargetOrDefault`. The model's `MakeSpec` follows the fields that `ModelBuilder.ts` and `BuildPlan.ts` use.

## Findings

| source | as written | input that shows it | evidently intended | confidence | as-written member | corrected member |
|---|---|---|---|---|---|---|
| src/lib/ModelBuilder.ts:48-55 | `toInstance` rejects the module unless `typeof mod` is `"function"`. But `mod` is the namespace object that `import()` yields (src/lib/utils/GenericModuleLoader.ts:135-136), and a namespace object is never a function. | any declared plugin, e.g. `plugins: ["some-plugin"]` whose module has a default-exported function | accept the module when its default export is a function, as the error message says ("must export a default function") | not executed | ModelBuilder.AsWrittenLoadFails | ModelBuilder.PluginToInstanceAcceptsDefaultFunction |
