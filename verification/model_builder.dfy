/** `buildModel`: the phase pipeline that turns a configuration into a
    `MakeSpec` — declare the plugins, load them, let each register its
    actions, add the targets, resolve their dependencies, and reject
    dependency cycles. Each phase is a function from the spec built so far
    to a new spec or an error message. */
module ModelBuilder {
  import opened Wrappers
  import opened Seqs
  import opened Text
  import opened Js
  import opened Graph
  import opened CycleCheck
  import opened Model
  import opened ConfigShape
  import opened ModuleLoader

  //----------------------------------------------------------------------
  // Declaring plugins

  /** `addPlugin(c, builtIn)`: a bare name has no alias; an object's alias is `c.alias ?? null`. */
  function NewPlugin(c: PluginDecl, builtIn: bool): (p: Plugin)
    ensures p.name == c.name && p.builtIn == builtIn && p.plugin.None?
    ensures c.PluginName? ==> p.alias.None?
    ensures c.FullPlugin? ==> (p.alias.Some? <==> c.alias.Value?)
    ensures c.FullPlugin? && c.alias.Value? ==> p.alias.value == c.alias.v
  {
    match c
    case PluginName(n) => Plugin(n, builtIn, None, None)
    case FullPlugin(n, a) => Plugin(n, builtIn, a.ToOption(), None)
  }

  /** `addPlugins`: each declared plugin in configuration order, never built in. */
  function AddPlugins(s: MakeSpec, decls: Nullish<seq<PluginDecl>>): (r: MakeSpec)
    ensures var ds := if decls.Value? then decls.v else [];
      && |r.plugins| == |s.plugins| + |ds|
      && r.plugins[..|s.plugins|] == s.plugins
      && (forall i :: 0 <= i < |ds| ==> r.plugins[|s.plugins| + i] == NewPlugin(ds[i], false))
    ensures r.actions == s.actions && r.actionsByFullName == s.actionsByFullName
    ensures r.targets == s.targets && r.targetsByName == s.targetsByName
  {
    var ds := if decls.Value? then decls.v else [];
    s.(plugins := s.plugins + seq(|ds|, i requires 0 <= i < |ds| => NewPlugin(ds[i], false)))
  }

  function PluginNames(ps: seq<Plugin>): (r: seq<string>)
    ensures |r| == |ps| && forall i :: 0 <= i < |ps| ==> r[i] == ps[i].name
  {
    seq(|ps|, i requires 0 <= i < |ps| => ps[i].name)
  }

  //----------------------------------------------------------------------
  // Loading plugins

  const PluginExportError := "must export a default function of type \"(host: PluginHost)=>Promise<void>\""

  /** `toInstance` as written: it tests the module namespace itself for being a function. */
  function PluginToInstanceAsWritten(mod: JsValue, spec: string, url: string): (r: Result<JsValue, string>)
    ensures r.Ok? ==> r.value.JsFunction?
  {
    if TypeOf(mod) != "function" then Err("Plugin \"" + spec + "\" " + PluginExportError)
    else Ok(mod)
  }

  /** `import()` yields a namespace object, which is never a function: the
      as-written check rejects every module. */
  lemma AsWrittenRejectsEveryModule(ns: map<string, JsValue>, spec: string, url: string)
    ensures PluginToInstanceAsWritten(JsObject(ns), spec, url).Err?
  {
  }

  /** `toInstance` as its error message describes it: the default export must be a function. */
  function PluginToInstance(mod: JsValue, spec: string, url: string): (r: Result<JsValue, string>)
    ensures r.Ok? ==> r.value.JsFunction?
  {
    if TypeOf(Prop(mod, "default")) != "function" then Err("Plugin \"" + spec + "\" " + PluginExportError)
    else Ok(Prop(mod, "default"))
  }

  /** The corrected check accepts a namespace exactly when its default export
      is a function, and yields that function. */
  lemma PluginToInstanceAcceptsDefaultFunction(ns: map<string, JsValue>, spec: string, url: string)
    ensures PluginToInstance(JsObject(ns), spec, url).Ok? <==> "default" in ns && ns["default"].JsFunction?
    ensures PluginToInstance(JsObject(ns), spec, url).Ok? ==> PluginToInstance(JsObject(ns), spec, url).value == ns["default"]
  {
  }

  function PluginLoadOptions(): LoadManyOptions {
    LoadManyOptions(ResolveOptions(None, None), false, false)
  }

  function LoadErrorMessage(e: LoadError): string {
    e.message
  }

  /** The assignment loop of `loadPlugins`: every plugin must have a loaded value. */
  function AssignPlugins(ps: seq<Plugin>, loaded: map<string, JsValue>): (r: Result<seq<Plugin>, string>)
    ensures r.Ok? <==> forall i :: 0 <= i < |ps| ==> ps[i].name in loaded && !IsNullish(loaded[ps[i].name])
    ensures r.Ok? ==> |r.value| == |ps| && forall i :: 0 <= i < |ps| ==>
      r.value[i] == ps[i].(plugin := Some(loaded[ps[i].name]))
  {
    if |ps| == 0 then Ok([])
    else
      var name := ps[0].name;
      if name !in loaded || IsNullish(loaded[name]) then
        Err("Assertion failed: plugin \"" + name + "\" was not loaded")
      else
        match AssignPlugins(ps[1..], loaded)
        case Err(e) => Err(e)
        case Ok(rest) => Ok([ps[0].(plugin := Some(loaded[name]))] + rest)
  }

  /** The step of `loadPlugins` after `loadMany` settles: propagate its error or attach every plugin. */
  function AttachLoaded(s: MakeSpec, loaded: Result<map<string, JsValue>, LoadError>): (r: Result<MakeSpec, string>)
    ensures loaded.Err? ==> r == Err(LoadErrorMessage(loaded.error))
    ensures r.Ok? ==> (|r.value.plugins| == |s.plugins|
      && (forall i :: 0 <= i < |s.plugins| ==> r.value.plugins[i].(plugin := None) == s.plugins[i].(plugin := None))
      && (forall i :: 0 <= i < |s.plugins| ==> r.value.plugins[i].plugin.Some?))
    ensures r.Ok? ==> r.value == s.(plugins := r.value.plugins)
    ensures loaded.Ok? ==> (r.Ok? <==> forall i :: 0 <= i < |s.plugins| ==>
      s.plugins[i].name in loaded.value && !IsNullish(loaded.value[s.plugins[i].name]))
  {
    match loaded
    case Err(e) => Err(LoadErrorMessage(e))
    case Ok(m) =>
      match AssignPlugins(s.plugins, m)
      case Err(e) => Err(e)
      case Ok(ps) => Ok(s.(plugins := ps))
  }

  /** `loadPlugins`: load every declared plugin through the shared cache, then attach each one. */
  function LoadPlugins(env: ModuleEnv, s: MakeSpec, baseDir: string,
                       toInstance: (JsValue, string, string) -> Result<JsValue, string>,
                       cache: Cache<JsValue>): (r: (Result<MakeSpec, string>, Cache<JsValue>))
    ensures r.0.Ok? ==> (|r.0.value.plugins| == |s.plugins|
      && (forall i :: 0 <= i < |s.plugins| ==> r.0.value.plugins[i].(plugin := None) == s.plugins[i].(plugin := None))
      && (forall i :: 0 <= i < |s.plugins| ==> r.0.value.plugins[i].plugin.Some?))
    ensures r.0.Ok? ==> r.0.value == s.(plugins := r.0.value.plugins)
    ensures forall k :: k in cache ==> k in r.1 && r.1[k] == cache[k]
  {
    var (loaded, cache') := LoadMany(env, PluginNames(s.plugins), baseDir, toInstance, PluginLoadOptions(), cache);
    (AttachLoaded(s, loaded), cache')
  }

  /** Every cached plugin that loaded is a function. */
  ghost predicate FunctionsOnly(cache: Cache<JsValue>) {
    forall k :: k in cache && cache[k].Ok? ==> cache[k].value.JsFunction?
  }

  /** When every specifier loaded to a function, the policy's map attaches every plugin. */
  lemma AttachAfterPolicy(s: MakeSpec, results: seq<Result<JsValue, string>>)
    requires |results| == |s.plugins|
    requires forall i :: 0 <= i < |results| && results[i].Ok? ==> results[i].value.JsFunction?
    requires forall i, j :: 0 <= i < |results| && 0 <= j < |results| && s.plugins[i].name == s.plugins[j].name ==>
      results[i] == results[j]
    ensures AttachLoaded(s, ApplyPolicy(PluginNames(s.plugins), results, PluginLoadOptions())).Ok?
      <==> forall i :: 0 <= i < |results| ==> results[i].Ok?
  {
    var names := PluginNames(s.plugins);
    var opts := PluginLoadOptions();
    PolicyStopsAtFirst(names, results, opts);
    PolicySuccessMap(names, results, opts);
    var loaded := ApplyPolicy(names, results, opts);
    if loaded.Ok? {
      forall i | 0 <= i < |s.plugins| ensures s.plugins[i].name in loaded.value && !IsNullish(loaded.value[s.plugins[i].name]) {
        assert names[i] == s.plugins[i].name;
      }
    }
  }

  /** The assertion in `loadPlugins` never fires: when every declared plugin
      loads, each is attached, so loading fails exactly when `loadMany` does. */
  lemma LoadPluginsAssignmentHolds(env: ModuleEnv, s: MakeSpec, baseDir: string, cache: Cache<JsValue>)
    requires FunctionsOnly(cache)
    ensures var (r, c) := LoadPlugins(env, s, baseDir, PluginToInstance, cache);
      && (r.Ok? <==> forall i :: 0 <= i < |s.plugins| ==> Outcome(c, baseDir, s.plugins[i].name).Ok?)
      && FunctionsOnly(c)
  {
    var names := PluginNames(s.plugins);
    var opts := PluginLoadOptions();
    var q := (x: Result<JsValue, string>) => x.Ok? ==> x.value.JsFunction?;
    LoadAllKeeps(env, names, baseDir, PluginToInstance, opts.resolve, cache, q);
    LoadManyOutcomes(env, names, baseDir, PluginToInstance, opts, cache);
    var (results, c, _) := LoadAll(env, names, baseDir, PluginToInstance, opts.resolve, cache);
    forall i | 0 <= i < |results| && results[i].Ok? ensures results[i].value.JsFunction? {
      assert q(c[CacheKey(baseDir, names[i])]);
    }
    AttachAfterPolicy(s, results);
  }

  /** As written, loading fails for any non-empty plugin list when nothing
      has been loaded successfully before: no module passes the check. */
  lemma AsWrittenLoadFails(env: ModuleEnv, s: MakeSpec, baseDir: string, cache: Cache<JsValue>)
    requires |s.plugins| > 0
    requires forall k :: k in cache ==> cache[k].Err?
    ensures LoadPlugins(env, s, baseDir, PluginToInstanceAsWritten, cache).0.Err?
  {
    var names := PluginNames(s.plugins);
    var opts := PluginLoadOptions();
    var q := (x: Result<JsValue, string>) => x.Err?;
    forall ns: map<string, JsValue>, sp: string, u: string ensures q(PluginToInstanceAsWritten(JsObject(ns), sp, u)) {
      AsWrittenRejectsEveryModule(ns, sp, u);
    }
    LoadAllKeeps(env, names, baseDir, PluginToInstanceAsWritten, opts.resolve, cache, q);
    LoadManyOutcomes(env, names, baseDir, PluginToInstanceAsWritten, opts, cache);
    var (results, c, _) := LoadAll(env, names, baseDir, PluginToInstanceAsWritten, opts.resolve, cache);
    PolicyStopsAtFirst(names, results, opts);
    assert q(c[CacheKey(baseDir, names[0])]);
  }

  //----------------------------------------------------------------------
  // Initialising plugins: action registration

  /** `registerAction(name, action)` on the host of plugin `p`. */
  function RegisterAction(s: MakeSpec, p: Plugin, name: string): (r: Result<MakeSpec, string>)
    ensures r.Err? <==> ToFullName(p, name) in s.actionsByFullName
    ensures r.Err? ==> r.error == "Action \"" + ToFullName(p, name) + "\" has already been registered"
    ensures r.Ok? ==> r.value.actions == s.actions + [Action(name, ToFullName(p, name))]
    ensures r.Ok? ==> r.value == s.(actions := r.value.actions, actionsByFullName := r.value.actionsByFullName)
  {
    var full := ToFullName(p, name);
    if full in s.actionsByFullName then Err("Action \"" + full + "\" has already been registered")
    else
      var a := Action(name, full);
      Ok(s.(actions := s.actions + [a], actionsByFullName := s.actionsByFullName[full := a]))
  }

  lemma ActionNamesAppend(acts: seq<Action>, a: Action)
    ensures ActionNames(acts + [a]) == ActionNames(acts) + [a.fullName]
  {
    var l := ActionNames(acts + [a]);
    var r := ActionNames(acts) + [a.fullName];
    assert |l| == |r|;
    forall i | 0 <= i < |l| ensures l[i] == r[i] {
      if i < |acts| { assert (acts + [a])[i] == acts[i]; }
    }
  }

  /** Appending an action under a new full name, to the list and the index, keeps them in step. */
  lemma AppendActionIndexed(s: MakeSpec, a: Action)
    requires ActionsIndexed(s) && a.fullName !in s.actionsByFullName
    ensures ActionsIndexed(s.(actions := s.actions + [a], actionsByFullName := s.actionsByFullName[a.fullName := a]))
    ensures ActionNames(s.actions + [a]) == ActionNames(s.actions) + [a.fullName]
  {
    var t := s.(actions := s.actions + [a], actionsByFullName := s.actionsByFullName[a.fullName := a]);
    var names := ActionNames(s.actions);
    ActionNamesAppend(s.actions, a);
    assert NoDups(ActionNames(t.actions)) by {
      NoDupsAppend(names, [a.fullName]);
    }
    assert t.actionsByFullName.Keys == Elems(ActionNames(t.actions)) by {
      ElemsAppend(names, [a.fullName]);
    }
    forall i | 0 <= i < |t.actions| ensures t.actionsByFullName[t.actions[i].fullName] == t.actions[i] {
      if i < |s.actions| {
        assert t.actions[i] == s.actions[i];
        assert s.actions[i].fullName in s.actionsByFullName;
      }
    }
  }

  /** Registration keeps the action list and the full-name index in step. */
  lemma RegisterActionIndexed(s: MakeSpec, p: Plugin, name: string)
    requires ActionsIndexed(s)
    ensures RegisterAction(s, p, name).Ok? ==> ActionsIndexed(RegisterAction(s, p, name).value)
    ensures RegisterAction(s, p, name).Ok? ==>
      ActionNames(RegisterAction(s, p, name).value.actions) == ActionNames(s.actions) + [ToFullName(p, name)]
  {
    if RegisterAction(s, p, name).Ok? {
      AppendActionIndexed(s, Action(name, ToFullName(p, name)));
    }
  }

  /** The full names a plugin's registrations receive, in order. */
  function FullNames(p: Plugin, names: seq<string>): (r: seq<string>)
    ensures |r| == |names| && forall i :: 0 <= i < |names| ==> r[i] == ToFullName(p, names[i])
  {
    seq(|names|, i requires 0 <= i < |names| => ToFullName(p, names[i]))
  }

  /** One plugin's registrations, in the order the plugin makes them. */
  function RegisterAll(s: MakeSpec, p: Plugin, names: seq<string>): (r: Result<MakeSpec, string>)
    ensures r.Ok? ==> r.value == s.(actions := r.value.actions, actionsByFullName := r.value.actionsByFullName)
    decreases |names|
  {
    if |names| == 0 then Ok(s)
    else
      match RegisterAction(s, p, names[0])
      case Err(e) => Err(e)
      case Ok(s1) => RegisterAll(s1, p, names[1..])
  }

  /** A plugin's registrations all succeed exactly when no full name repeats,
      neither among themselves nor against earlier actions, and then the
      actions are the earlier ones followed by the new ones, still indexed. */
  lemma {:induction false} RegisterAllSpec(s: MakeSpec, p: Plugin, names: seq<string>)
    requires ActionsIndexed(s)
    ensures RegisterAll(s, p, names).Ok? <==> NoDups(ActionNames(s.actions) + FullNames(p, names))
    ensures RegisterAll(s, p, names).Ok? ==>
      && ActionsIndexed(RegisterAll(s, p, names).value)
      && ActionNames(RegisterAll(s, p, names).value.actions) == ActionNames(s.actions) + FullNames(p, names)
    decreases |names|
  {
    var a := ActionNames(s.actions);
    var f := FullNames(p, names);
    if |names| == 0 {
      assert a + f == a;
    } else {
      var full := ToFullName(p, names[0]);
      if full in s.actionsByFullName {
        assert full in Elems(a);
        RepeatAtJoin(a, f);
      } else {
        RegisterStep(s, p, names);
      }
    }
  }

  lemma {:induction false} RegisterStep(s: MakeSpec, p: Plugin, names: seq<string>)
    requires ActionsIndexed(s) && |names| > 0
    requires ToFullName(p, names[0]) !in s.actionsByFullName
    ensures RegisterAll(s, p, names).Ok? <==> NoDups(ActionNames(s.actions) + FullNames(p, names))
    ensures RegisterAll(s, p, names).Ok? ==>
      && ActionsIndexed(RegisterAll(s, p, names).value)
      && ActionNames(RegisterAll(s, p, names).value.actions) == ActionNames(s.actions) + FullNames(p, names)
    decreases |names|, 0
  {
    var a := ActionNames(s.actions);
    var full := ToFullName(p, names[0]);
    RegisterActionIndexed(s, p, names[0]);
    var s1 := RegisterAction(s, p, names[0]).value;
    RegisterAllSpec(s1, p, names[1..]);
    FullNamesCons(a, p, names);
    assert full !in a by { assert Elems(a) == s.actionsByFullName.Keys; }
    NoDupsSnoc(a, full);
    RegisterAllUnfold(s, p, names);
  }

  lemma RegisterAllUnfold(s: MakeSpec, p: Plugin, names: seq<string>)
    requires |names| > 0 && RegisterAction(s, p, names[0]).Ok?
    ensures RegisterAll(s, p, names) == RegisterAll(RegisterAction(s, p, names[0]).value, p, names[1..])
  {
  }

  lemma FullNamesCons(a: seq<string>, p: Plugin, names: seq<string>)
    requires |names| > 0
    ensures a + FullNames(p, names) == (a + [ToFullName(p, names[0])]) + FullNames(p, names[1..])
  {
  }

  /** Every full name the plugins register, plugin by plugin, or the first
      initialiser failure. */
  function RegisteredNames(ps: seq<Plugin>, init: JsValue -> Result<seq<string>, string>): (r: Result<seq<string>, string>)
    requires forall i :: 0 <= i < |ps| ==> ps[i].plugin.Some?
  {
    if |ps| == 0 then Ok([])
    else
      match init(ps[0].plugin.value)
      case Err(e) => Err(e)
      case Ok(names) =>
        match RegisteredNames(ps[1..], init)
        case Err(e) => Err(e)
        case Ok(rest) => Ok(FullNames(ps[0], names) + rest)
  }

  /** `initializePlugins` over `ps`: call each plugin with a host for it.
      `init` stands for the plugin's code: the action names it registers, or
      the error it rejects with. */
  function InitializeEach(s: MakeSpec, ps: seq<Plugin>, init: JsValue -> Result<seq<string>, string>)
    : (r: Result<MakeSpec, string>)
    requires forall i :: 0 <= i < |ps| ==> ps[i].plugin.Some?
    ensures r.Ok? ==> r.value == s.(actions := r.value.actions, actionsByFullName := r.value.actionsByFullName)
    decreases |ps|
  {
    if |ps| == 0 then Ok(s)
    else
      match init(ps[0].plugin.value)
      case Err(e) => Err(e)
      case Ok(names) =>
        match RegisterAll(s, ps[0], names)
        case Err(e) => Err(e)
        case Ok(s1) => InitializeEach(s1, ps[1..], init)
  }

  function InitializePlugins(s: MakeSpec, init: JsValue -> Result<seq<string>, string>): (r: Result<MakeSpec, string>)
    requires forall i :: 0 <= i < |s.plugins| ==> s.plugins[i].plugin.Some?
    ensures r.Ok? ==> r.value == s.(actions := r.value.actions, actionsByFullName := r.value.actionsByFullName)
  {
    InitializeEach(s, s.plugins, init)
  }

  /** Initialisation succeeds exactly when every plugin's code succeeds and
      no full name is registered twice; the actions are then the registered
      names in plugin order, indexed by full name. */
  lemma {:induction false} InitializeEachSpec(s: MakeSpec, ps: seq<Plugin>, init: JsValue -> Result<seq<string>, string>)
    requires ActionsIndexed(s)
    requires forall i :: 0 <= i < |ps| ==> ps[i].plugin.Some?
    ensures InitializeEach(s, ps, init).Ok? <==>
      RegisteredNames(ps, init).Ok? && NoDups(ActionNames(s.actions) + RegisteredNames(ps, init).value)
    ensures InitializeEach(s, ps, init).Ok? ==>
      && ActionsIndexed(InitializeEach(s, ps, init).value)
      && ActionNames(InitializeEach(s, ps, init).value.actions) == ActionNames(s.actions) + RegisteredNames(ps, init).value
    decreases |ps|
  {
    if |ps| == 0 {
      assert ActionNames(s.actions) + [] == ActionNames(s.actions);
    } else if init(ps[0].plugin.value).Ok? {
      InitializeStep(s, ps, init);
    }
  }

  lemma {:induction false} InitializeStep(s: MakeSpec, ps: seq<Plugin>, init: JsValue -> Result<seq<string>, string>)
    requires ActionsIndexed(s)
    requires |ps| > 0 && forall i :: 0 <= i < |ps| ==> ps[i].plugin.Some?
    requires init(ps[0].plugin.value).Ok?
    ensures InitializeEach(s, ps, init).Ok? <==>
      RegisteredNames(ps, init).Ok? && NoDups(ActionNames(s.actions) + RegisteredNames(ps, init).value)
    ensures InitializeEach(s, ps, init).Ok? ==>
      && ActionsIndexed(InitializeEach(s, ps, init).value)
      && ActionNames(InitializeEach(s, ps, init).value.actions) == ActionNames(s.actions) + RegisteredNames(ps, init).value
    decreases |ps|, 0
  {
    var a := ActionNames(s.actions);
    var names := init(ps[0].plugin.value).value;
    var f := FullNames(ps[0], names);
    RegisterAllSpec(s, ps[0], names);
    var r1 := RegisterAll(s, ps[0], names);
    var rest := RegisteredNames(ps[1..], init);
    InitializeUnfold(s, ps, init);
    if r1.Ok? {
      InitializeEachSpec(r1.value, ps[1..], init);
    } else if rest.Ok? && NoDups((a + f) + rest.value) {
      NoDupsPrefix(a + f, rest.value);
    }
  }

  lemma InitializeUnfold(s: MakeSpec, ps: seq<Plugin>, init: JsValue -> Result<seq<string>, string>)
    requires |ps| > 0 && forall i :: 0 <= i < |ps| ==> ps[i].plugin.Some?
    requires init(ps[0].plugin.value).Ok?
    ensures var r1 := RegisterAll(s, ps[0], init(ps[0].plugin.value).value);
      && InitializeEach(s, ps, init) == (if r1.Ok? then InitializeEach(r1.value, ps[1..], init) else Err(r1.error))
    ensures var rest := RegisteredNames(ps[1..], init);
      && RegisteredNames(ps, init).Ok? == rest.Ok?
      && (rest.Ok? ==> (ActionNames(s.actions) + RegisteredNames(ps, init).value
                       == (ActionNames(s.actions) + FullNames(ps[0], init(ps[0].plugin.value).value)) + rest.value))
  {
  }

  //----------------------------------------------------------------------
  // Adding targets

  /** The spec under construction with the configuration each target came
      from (`targetConfigsByTarget`, keyed by the target's unique name). */
  datatype Building = Building(spec: MakeSpec, configs: map<string, TargetConfig>)

  /** The name index covers the targets, and each target's configuration is recorded under its name. */
  ghost predicate BuildingIndexed(b: Building) {
    && TargetsIndexed(b.spec)
    && b.configs.Keys == b.spec.targetsByName.Keys
    && forall n :: n in b.configs ==> b.configs[n].name == n
  }

  lemma TargetIndexKeys(s: MakeSpec)
    requires TargetsIndexed(s)
    ensures s.targetsByName.Keys == Elems(TargetNames(s.targets))
  {
    forall n | n in s.targetsByName ensures n in Elems(TargetNames(s.targets)) {
      assert TargetNames(s.targets)[s.targetsByName[n]] == n;
    }
  }

  /** A target's `action` reference names a registered action, if it has one. */
  predicate ActionFound(byFullName: map<string, Action>, tc: TargetConfig) {
    tc.action.Value? ==> tc.action.v in byFullName
  }

  function ActionOf(byFullName: map<string, Action>, tc: TargetConfig): Option<Action>
    requires ActionFound(byFullName, tc)
  {
    if tc.action.Value? then Some(byFullName[tc.action.v]) else None
  }

  /** The action lookup of `addTarget`: `null` and `undefined` mean no action. */
  function LookupAction(s: MakeSpec, tc: TargetConfig): (r: Result<Option<Action>, string>)
    ensures r.Ok? <==> ActionFound(s.actionsByFullName, tc)
    ensures r.Ok? ==> r.value == ActionOf(s.actionsByFullName, tc)
    ensures r.Err? ==> r.error == "Action \"" + tc.action.v + "\" specified by target \"" + tc.name + "\" not found"
  {
    if tc.action.IsNullish() then Ok(None)
    else if tc.action.v !in s.actionsByFullName then
      Err("Action \"" + tc.action.v + "\" specified by target \"" + tc.name + "\" not found")
    else Ok(Some(s.actionsByFullName[tc.action.v]))
  }

  /** `addTarget`: the action is looked up before the name is checked for a repeat. */
  function AddTarget(b: Building, tc: TargetConfig): (r: Result<Building, string>)
    ensures !ActionFound(b.spec.actionsByFullName, tc) ==> r == Err(LookupAction(b.spec, tc).error)
    ensures ActionFound(b.spec.actionsByFullName, tc) && tc.name in b.spec.targetsByName ==>
      r == Err("Target \"" + tc.name + "\" is defined multiple times")
    ensures r.Ok? <==> ActionFound(b.spec.actionsByFullName, tc) && tc.name !in b.spec.targetsByName
  {
    match LookupAction(b.spec, tc)
    case Err(e) => Err(e)
    case Ok(action) =>
      if tc.name in b.spec.targetsByName then Err("Target \"" + tc.name + "\" is defined multiple times")
      else
        var s := b.spec;
        var t := Target(tc.name, action, tc.args, []);
        Ok(Building(s.(targets := s.targets + [t], targetsByName := s.targetsByName[tc.name := |s.targets|]),
                    b.configs[tc.name := tc]))
  }

  /** An added target is appended with its configuration's name, action and
      arguments and no dependencies yet, and the indexes stay consistent. */
  lemma AddTargetSpec(b: Building, tc: TargetConfig)
    requires BuildingIndexed(b)
    requires AddTarget(b, tc).Ok?
    ensures var r := AddTarget(b, tc).value;
      && BuildingIndexed(r)
      && r.spec.targets == b.spec.targets + [Target(tc.name, ActionOf(b.spec.actionsByFullName, tc), tc.args, [])]
      && r.spec == b.spec.(targets := r.spec.targets, targetsByName := r.spec.targetsByName)
      && r.configs[tc.name] == tc
      && (forall n :: n in b.configs ==> n in r.configs && r.configs[n] == b.configs[n])
  {
  }

  function ConfigNames(tcs: seq<TargetConfig>): (r: seq<string>)
    ensures |r| == |tcs| && forall i :: 0 <= i < |tcs| ==> r[i] == tcs[i].name
  {
    seq(|tcs|, i requires 0 <= i < |tcs| => tcs[i].name)
  }

  /** The targets `addTargets` creates, reference definition. */
  function NewTargets(byFullName: map<string, Action>, tcs: seq<TargetConfig>): (r: seq<Target>)
    requires forall i :: 0 <= i < |tcs| ==> ActionFound(byFullName, tcs[i])
    ensures |r| == |tcs|
  {
    seq(|tcs|, i requires 0 <= i < |tcs| && ActionFound(byFullName, tcs[i]) =>
      Target(tcs[i].name, ActionOf(byFullName, tcs[i]), tcs[i].args, []))
  }

  /** `addTargets`: each configured target, in order; the first error stops. */
  function AddTargets(b: Building, tcs: seq<TargetConfig>): (r: Result<Building, string>)
    decreases |tcs|
  {
    if |tcs| == 0 then Ok(b)
    else
      match AddTarget(b, tcs[0])
      case Err(e) => Err(e)
      case Ok(b1) => AddTargets(b1, tcs[1..])
  }

  /** Adding targets succeeds exactly when every action reference resolves
      and no name repeats; the targets are then the configured ones in order,
      each recorded with its configuration. */
  lemma {:induction false} AddTargetsSpec(b: Building, tcs: seq<TargetConfig>)
    requires BuildingIndexed(b)
    ensures AddTargets(b, tcs).Ok? <==>
      && (forall i :: 0 <= i < |tcs| ==> ActionFound(b.spec.actionsByFullName, tcs[i]))
      && NoDups(TargetNames(b.spec.targets) + ConfigNames(tcs))
    ensures AddTargets(b, tcs).Ok? ==>
      && BuildingIndexed(AddTargets(b, tcs).value)
      && AddTargets(b, tcs).value.spec.targets == b.spec.targets + NewTargets(b.spec.actionsByFullName, tcs)
      && AddTargets(b, tcs).value.spec
         == b.spec.(targets := AddTargets(b, tcs).value.spec.targets, targetsByName := AddTargets(b, tcs).value.spec.targetsByName)
    decreases |tcs|, 2
  {
    var names := TargetNames(b.spec.targets);
    if |tcs| == 0 {
      assert names + ConfigNames(tcs) == names;
      assert b.spec.targets + NewTargets(b.spec.actionsByFullName, tcs) == b.spec.targets;
    } else if !ActionFound(b.spec.actionsByFullName, tcs[0]) {
    } else if tcs[0].name in b.spec.targetsByName {
      TargetIndexKeys(b.spec);
      RepeatAtJoin(names, ConfigNames(tcs));
    } else {
      AddTargetsStep(b, tcs);
    }
  }

  lemma {:induction false} AddTargetsStep(b: Building, tcs: seq<TargetConfig>)
    requires BuildingIndexed(b) && |tcs| > 0
    requires ActionFound(b.spec.actionsByFullName, tcs[0]) && tcs[0].name !in b.spec.targetsByName
    ensures AddTargets(b, tcs).Ok? <==>
      && (forall i :: 0 <= i < |tcs| ==> ActionFound(b.spec.actionsByFullName, tcs[i]))
      && NoDups(TargetNames(b.spec.targets) + ConfigNames(tcs))
    ensures AddTargets(b, tcs).Ok? ==>
      && BuildingIndexed(AddTargets(b, tcs).value)
      && AddTargets(b, tcs).value.spec.targets == b.spec.targets + NewTargets(b.spec.actionsByFullName, tcs)
      && AddTargets(b, tcs).value.spec
         == b.spec.(targets := AddTargets(b, tcs).value.spec.targets, targetsByName := AddTargets(b, tcs).value.spec.targetsByName)
    decreases |tcs|, 1
  {
    var b1 := AddTarget(b, tcs[0]).value;
    AddTargetSpec(b, tcs[0]);
    AddTargetsSpec(b1, tcs[1..]);
    AddTargetsUnfold(b, tcs);
    AddTargetsStepIff(b, tcs);
    if AddTargets(b, tcs).Ok? {
      AddTargetsStepValue(b, tcs);
    }
  }

  /** The targets after a successful step: the first one, then the rest's. */
  lemma {:induction false} AddTargetsStepValue(b: Building, tcs: seq<TargetConfig>)
    requires BuildingIndexed(b) && |tcs| > 0
    requires ActionFound(b.spec.actionsByFullName, tcs[0]) && tcs[0].name !in b.spec.targetsByName
    requires AddTargets(b, tcs).Ok?
    requires forall i :: 0 <= i < |tcs| ==> ActionFound(b.spec.actionsByFullName, tcs[i])
    ensures BuildingIndexed(AddTargets(b, tcs).value)
    ensures AddTargets(b, tcs).value.spec.targets == b.spec.targets + NewTargets(b.spec.actionsByFullName, tcs)
    ensures AddTargets(b, tcs).value.spec
         == b.spec.(targets := AddTargets(b, tcs).value.spec.targets, targetsByName := AddTargets(b, tcs).value.spec.targetsByName)
    decreases |tcs|, 0
  {
    var m := b.spec.actionsByFullName;
    var b1 := AddTarget(b, tcs[0]).value;
    AddTargetSpec(b, tcs[0]);
    AddTargetsUnfold(b, tcs);
    var r := AddTargets(b, tcs).value;
    assert AddTargets(b1, tcs[1..]).Ok? && r == AddTargets(b1, tcs[1..]).value;
    assert b1.spec.actionsByFullName == m;
    assert forall i :: 0 <= i < |tcs[1..]| ==> ActionFound(m, tcs[1..][i]);
    AddTargetsSpec(b1, tcs[1..]);
    NewTargetsCons(m, tcs);
    var first := [Target(tcs[0].name, ActionOf(m, tcs[0]), tcs[0].args, [])];
    var rest := NewTargets(m, tcs[1..]);
    assert r.spec.targets == b1.spec.targets + rest;
    assert b1.spec.targets == b.spec.targets + first;
    SeqAssoc(b.spec.targets, first, rest);
  }

  lemma SeqAssoc<T>(a: seq<T>, b: seq<T>, c: seq<T>)
    ensures (a + b) + c == a + (b + c)
  {
  }

  lemma AddTargetsUnfold(b: Building, tcs: seq<TargetConfig>)
    requires |tcs| > 0 && AddTarget(b, tcs[0]).Ok?
    ensures AddTargets(b, tcs) == AddTargets(AddTarget(b, tcs[0]).value, tcs[1..])
  {
  }

  /** The conditions for the rest of the list, after the first target, combine into those for the whole list. */
  lemma AddTargetsStepIff(b: Building, tcs: seq<TargetConfig>)
    requires BuildingIndexed(b) && |tcs| > 0
    requires ActionFound(b.spec.actionsByFullName, tcs[0]) && tcs[0].name !in b.spec.targetsByName
    ensures var b1 := AddTarget(b, tcs[0]).value;
      && ((forall i :: 0 <= i < |tcs| ==> ActionFound(b.spec.actionsByFullName, tcs[i]))
          <==> (forall i :: 0 <= i < |tcs[1..]| ==> ActionFound(b1.spec.actionsByFullName, tcs[1..][i])))
      && (NoDups(TargetNames(b.spec.targets) + ConfigNames(tcs))
          <==> NoDups(TargetNames(b1.spec.targets) + ConfigNames(tcs[1..])))
  {
    var b1 := AddTarget(b, tcs[0]).value;
    AddTargetNames(b, tcs[0]);
    assert forall i :: 1 <= i < |tcs| ==> tcs[i] == tcs[1..][i - 1];
    TargetIndexKeys(b.spec);
    NamesStep(TargetNames(b.spec.targets), tcs);
  }

  lemma AddTargetNames(b: Building, tc: TargetConfig)
    requires AddTarget(b, tc).Ok?
    ensures TargetNames(AddTarget(b, tc).value.spec.targets) == TargetNames(b.spec.targets) + [tc.name]
    ensures AddTarget(b, tc).value.spec.actionsByFullName == b.spec.actionsByFullName
  {
  }

  lemma NamesStep(names: seq<string>, tcs: seq<TargetConfig>)
    requires |tcs| > 0 && tcs[0].name !in Elems(names)
    ensures NoDups(names + ConfigNames(tcs)) <==> NoDups((names + [tcs[0].name]) + ConfigNames(tcs[1..]))
  {
    var n := tcs[0].name;
    assert names + ConfigNames(tcs) == (names + [n]) + ConfigNames(tcs[1..]);
    NoDupsSnoc(names, n);
    if NoDups((names + [n]) + ConfigNames(tcs[1..])) {
      NoDupsPrefix(names + [n], ConfigNames(tcs[1..]));
    }
  }

  lemma NewTargetsCons(byFullName: map<string, Action>, tcs: seq<TargetConfig>)
    requires |tcs| > 0 && forall i :: 0 <= i < |tcs| ==> ActionFound(byFullName, tcs[i])
    ensures NewTargets(byFullName, tcs)
      == [Target(tcs[0].name, ActionOf(byFullName, tcs[0]), tcs[0].args, [])] + NewTargets(byFullName, tcs[1..])
  {
    assert forall i :: 1 <= i < |tcs| ==> tcs[i] == tcs[1..][i - 1];
  }

  //----------------------------------------------------------------------
  // Resolving dependencies

  /** `targetConfig.deps ?? []` as the `for … of` loop sees it: an array
      yields its names, while a single string yields its characters. */
  function RawDeps(d: Nullish<Deps>): (r: seq<string>)
    ensures d.IsNullish() ==> r == []
    ensures d.Value? && d.v.DepsList? ==> r == d.v.names
  {
    match d
    case Value(DepsName(n)) => seq(|n|, i requires 0 <= i < |n| => [n[i]])
    case Value(DepsList(ns)) => ns
    case _ => []
  }

  /** A string `deps` names one dependency per character: joining them gives the string back. */
  lemma {:induction false} StringDepsAreCharacters(n: string)
    ensures var r := RawDeps(Value(DepsName(n)));
      && (forall i :: 0 <= i < |r| ==> |r[i]| == 1)
      && Join(r, "") == n
  {
    var r := RawDeps(Value(DepsName(n)));
    if |n| > 1 {
      StringDepsAreCharacters(n[1..]);
      assert r[1..] == RawDeps(Value(DepsName(n[1..])));
      assert n == [n[0]] + n[1..];
    } else if |n| == 1 {
      assert r[0] == [n[0]] && n == [n[0]];
    }
  }

  /** The dependency loop of `resolveTarget` for target `name`: the first
      name without a target stops it. */
  function ResolveDeps(name: string, ds: seq<string>, byName: map<string, nat>): (r: Result<seq<string>, string>)
    ensures r.Ok? <==> forall i :: 0 <= i < |ds| ==> ds[i] in byName
    ensures r.Ok? ==> r.value == ds
    ensures r.Err? ==> exists i :: (0 <= i < |ds| && ds[i] !in byName
      && (forall j :: 0 <= j < i ==> ds[j] in byName)
      && r.error == "Target \"" + name + "\" references non-existent dep target \"" + ds[i] + "\"")
  {
    if |ds| == 0 then Ok([])
    else if ds[0] !in byName then
      Err("Target \"" + name + "\" references non-existent dep target \"" + ds[0] + "\"")
    else
      match ResolveDeps(name, ds[1..], byName)
      case Err(e) =>
        assert forall i :: 1 <= i < |ds| ==> ds[i] == ds[1..][i - 1];
        Err(e)
      case Ok(rest) => Ok([ds[0]] + rest)
  }

  /** `resolveTargets` from position `i` on. */
  function ResolveFrom(s: MakeSpec, configs: map<string, TargetConfig>, i: nat): (r: Result<MakeSpec, string>)
    requires i <= |s.targets|
    decreases |s.targets| - i
  {
    if i == |s.targets| then Ok(s)
    else
      var t := s.targets[i];
      if t.name !in configs then Err("Assertion failed: targetConfig is null")
      else
        match ResolveDeps(t.name, RawDeps(configs[t.name].deps), s.targetsByName)
        case Err(e) => Err(e)
        case Ok(ds) => ResolveFrom(s.(targets := s.targets[i := t.(deps := t.deps + ds)]), configs, i + 1)
  }

  function ResolveTargets(b: Building): Result<MakeSpec, string> {
    ResolveFrom(b.spec, b.configs, 0)
  }

  /** Every raw dependency of target `t`'s configuration names a target. */
  ghost predicate DepsResolve(s: MakeSpec, configs: map<string, TargetConfig>, t: Target) {
    t.name in configs && forall d :: d in RawDeps(configs[t.name].deps) ==> d in s.targetsByName
  }

  /** The target at each position from `i` on, with its configured dependencies appended. */
  ghost predicate ResolvedFrom(s: MakeSpec, configs: map<string, TargetConfig>, i: nat, r: MakeSpec) {
    && r == s.(targets := r.targets)
    && |r.targets| == |s.targets|
    && (forall j :: 0 <= j < i && j < |s.targets| ==> r.targets[j] == s.targets[j])
    && (forall j :: i <= j < |s.targets| ==> (s.targets[j].name in configs
          && r.targets[j] == s.targets[j].(deps := s.targets[j].deps + RawDeps(configs[s.targets[j].name].deps))))
  }

  /** Resolution from `i` succeeds exactly when every later target's
      configured dependencies name targets, and then appends them. */
  lemma {:induction false} ResolveFromSpec(s: MakeSpec, configs: map<string, TargetConfig>, i: nat)
    requires i <= |s.targets|
    ensures ResolveFrom(s, configs, i).Ok? <==> forall j :: i <= j < |s.targets| ==> DepsResolve(s, configs, s.targets[j])
    ensures ResolveFrom(s, configs, i).Ok? ==> ResolvedFrom(s, configs, i, ResolveFrom(s, configs, i).value)
    decreases |s.targets| - i
  {
    if i < |s.targets| {
      var t := s.targets[i];
      if t.name in configs && ResolveDeps(t.name, RawDeps(configs[t.name].deps), s.targetsByName).Ok? {
        ResolveStep(s, configs, i);
      }
    }
  }

  lemma {:induction false} ResolveStep(s: MakeSpec, configs: map<string, TargetConfig>, i: nat)
    requires i < |s.targets|
    requires s.targets[i].name in configs
    requires ResolveDeps(s.targets[i].name, RawDeps(configs[s.targets[i].name].deps), s.targetsByName).Ok?
    ensures ResolveFrom(s, configs, i).Ok? <==> forall j :: i <= j < |s.targets| ==> DepsResolve(s, configs, s.targets[j])
    ensures ResolveFrom(s, configs, i).Ok? ==> ResolvedFrom(s, configs, i, ResolveFrom(s, configs, i).value)
    decreases |s.targets| - i, 0
  {
    var t := s.targets[i];
    var ds := RawDeps(configs[t.name].deps);
    var s1 := s.(targets := s.targets[i := t.(deps := t.deps + ds)]);
    ResolveFromSpec(s1, configs, i + 1);
    assert ResolveFrom(s, configs, i) == ResolveFrom(s1, configs, i + 1);
    assert forall j :: 0 <= j < |s.targets| && j != i ==> s1.targets[j] == s.targets[j];
    assert forall j :: i < j < |s.targets| ==> (DepsResolve(s1, configs, s1.targets[j]) <==> DepsResolve(s, configs, s.targets[j]));
  }

  /** After resolution every dependency of every target names a target: the graph is closed. */
  lemma ResolvedClosed(b: Building, r: MakeSpec)
    requires BuildingIndexed(b)
    requires forall j :: 0 <= j < |b.spec.targets| ==> b.spec.targets[j].deps == []
    requires ResolvedFrom(b.spec, b.configs, 0, r)
    requires forall j :: 0 <= j < |b.spec.targets| ==> DepsResolve(b.spec, b.configs, b.spec.targets[j])
    ensures TargetsIndexed(r)
    ensures Closed(DepGraph(r))
  {
    assert forall j :: 0 <= j < |r.targets| ==> r.targets[j].name == b.spec.targets[j].name;
    var g := DepGraph(r);
    forall n, d | n in g && d in g[n] ensures d in g {
      var j := r.targetsByName[n];
      assert g[n] == [] + RawDeps(b.configs[b.spec.targets[j].name].deps);
      assert d in RawDeps(b.configs[b.spec.targets[j].name].deps);
    }
  }

  //----------------------------------------------------------------------
  // Checking for cycles

  /** `checkTargetsForDepCycles`: the first cycle found, from the targets in order, is reported. */
  function CheckCycles(s: MakeSpec): (r: Result<MakeSpec, string>)
    requires TargetsIndexed(s) && Closed(DepGraph(s))
    ensures r.Ok? <==> Acyclic(DepGraph(s))
    ensures r.Ok? ==> r.value == s
    ensures r.Err? ==> exists c :: (IsCyclePath(DepGraph(s), c) && r.error == "Deps cycle detected: " + Join(c, " -> "))
  {
    var g := DepGraph(s);
    var ts := TargetNames(s.targets);
    TargetIndexKeys(s);
    CheckAllAcyclic(g, ts);
    match CheckAll(g, ts)
    case Some(c) => Err("Deps cycle detected: " + Join(c, " -> "))
    case None => Ok(s)
  }

  //----------------------------------------------------------------------
  // The whole pipeline

  function TargetList(targets: Nullish<seq<TargetConfig>>): seq<TargetConfig> {
    if targets.Value? then targets.v else []
  }

  /** A spec whose plugins are loaded and which holds no actions or targets yet. */
  ghost predicate FreshlyLoaded(s: MakeSpec) {
    && (forall i :: 0 <= i < |s.plugins| ==> s.plugins[i].plugin.Some?)
    && s.actions == [] && s.actionsByFullName == map[]
    && s.targets == [] && s.targetsByName == map[]
  }

  /** No target has dependencies yet: `resolveTargets` has not run. */
  ghost predicate NoDepsYet(s: MakeSpec) {
    forall j :: 0 <= j < |s.targets| ==> s.targets[j].deps == []
  }

  /** `resolveTargets` followed by `checkTargetsForDepCycles`. */
  function ResolveAndCheck(b: Building): (r: Result<MakeSpec, string>)
    requires BuildingIndexed(b) && NoDepsYet(b.spec)
  {
    match ResolveTargets(b)
    case Err(e) => Err(e)
    case Ok(s3) =>
      ResolveFromSpec(b.spec, b.configs, 0);
      ResolvedClosed(b, s3);
      CheckCycles(s3)
  }

  /** `addTargets` followed by resolution and the cycle check. */
  function BuildTargets(s2: MakeSpec, tcs: seq<TargetConfig>): (r: Result<MakeSpec, string>)
    requires s2.targets == [] && s2.targetsByName == map[]
  {
    var b0 := Building(s2, map[]);
    match AddTargets(b0, tcs)
    case Err(e) => Err(e)
    case Ok(b) =>
      AddTargetsSpec(b0, tcs);
      assert b.spec.targets == NewTargets(s2.actionsByFullName, tcs);
      ResolveAndCheck(b)
  }

  /** The phases after loading: initialise the plugins, add the targets,
      resolve their dependencies and check for cycles. */
  function BuildFromLoaded(config: Config, s1: MakeSpec, init: JsValue -> Result<seq<string>, string>)
    : (r: Result<MakeSpec, string>)
    requires FreshlyLoaded(s1)
  {
    match InitializePlugins(s1, init)
    case Err(e) => Err(e)
    case Ok(s2) => BuildTargets(s2, TargetList(config.targets))
  }

  /** `buildModel(config, ctx)`: `cache` is the context's plugin loader cache,
      returned with the loads this call added. Plugins are loaded with the
      corrected `PluginToInstance`, which tests the default export; with
      `PluginToInstanceAsWritten` every declared plugin fails to load
      (`AsWrittenLoadFails`). */
  function BuildModel(env: ModuleEnv, config: Config, baseDir: string, cache: Cache<JsValue>,
                      init: JsValue -> Result<seq<string>, string>): (r: (Result<MakeSpec, string>, Cache<JsValue>))
    ensures forall k :: k in cache ==> k in r.1 && r.1[k] == cache[k]
  {
    var s0 := AddPlugins(EmptySpec(), config.plugins);
    var (loaded, c) := LoadPlugins(env, s0, baseDir, PluginToInstance, cache);
    match loaded
    case Err(e) => (Err(e), c)
    case Ok(s1) =>
      LoadedIsFresh(env, config, baseDir, cache);
      (BuildFromLoaded(config, s1, init), c)
  }

  /** Loading the declared plugins attaches every one and adds nothing else. */
  lemma LoadedIsFresh(env: ModuleEnv, config: Config, baseDir: string, cache: Cache<JsValue>)
    ensures var r := LoadPlugins(env, AddPlugins(EmptySpec(), config.plugins), baseDir, PluginToInstance, cache).0;
      r.Ok? ==> FreshlyLoaded(r.value)
  {
  }

  /** An action reached through the full-name index carries that full name. */
  lemma IndexedActionName(s: MakeSpec, k: string)
    requires ActionsIndexed(s) && k in s.actionsByFullName
    ensures s.actionsByFullName[k].fullName == k
  {
    assert k in Elems(ActionNames(s.actions));
    var i :| 0 <= i < |s.actions| && ActionNames(s.actions)[i] == k;
  }

  /** Every target's action is one the full-name index holds. */
  ghost predicate ActionsResolved(s: MakeSpec) {
    forall i :: 0 <= i < |s.targets| && s.targets[i].action.Some? ==>
      s.targets[i].action.value.fullName in s.actionsByFullName
  }

  lemma ResolveAndCheckWellFormed(b: Building)
    requires BuildingIndexed(b) && NoDepsYet(b.spec)
    requires ActionsIndexed(b.spec) && ActionsResolved(b.spec)
    ensures var r := ResolveAndCheck(b);
      r.Ok? ==> (WellFormed(r.value) && TargetNames(r.value.targets) == TargetNames(b.spec.targets))
  {
    if ResolveTargets(b).Ok? {
      ResolveFromSpec(b.spec, b.configs, 0);
      var s3 := ResolveTargets(b).value;
      ResolvedClosed(b, s3);
      assert s3.actions == b.spec.actions && s3.actionsByFullName == b.spec.actionsByFullName;
      assert ActionsIndexed(s3);
      assert |s3.targets| == |b.spec.targets|;
      assert ActionsResolved(s3) by {
        assert forall j :: 0 <= j < |s3.targets| ==> s3.targets[j].action == b.spec.targets[j].action;
      }
      SameTargetNames(s3.targets, b.spec.targets);
    }
  }

  lemma SameTargetNames(a: seq<Target>, b: seq<Target>)
    requires |a| == |b| && forall j :: 0 <= j < |a| ==> a[j].name == b[j].name
    ensures TargetNames(a) == TargetNames(b)
  {
    assert forall j :: 0 <= j < |a| ==> TargetNames(a)[j] == TargetNames(b)[j];
  }

  lemma BuildTargetsWellFormed(s2: MakeSpec, tcs: seq<TargetConfig>)
    requires s2.targets == [] && s2.targetsByName == map[]
    requires ActionsIndexed(s2)
    ensures var r := BuildTargets(s2, tcs);
      r.Ok? ==> (WellFormed(r.value) && TargetNames(r.value.targets) == ConfigNames(tcs))
  {
    var b0 := Building(s2, map[]);
    if AddTargets(b0, tcs).Ok? {
      AddedTargetsReady(s2, tcs);
      ResolveAndCheckWellFormed(AddTargets(b0, tcs).value);
    }
  }

  /** The added targets meet what resolution and the cycle check need. */
  lemma AddedTargetsReady(s2: MakeSpec, tcs: seq<TargetConfig>)
    requires s2.targets == [] && s2.targetsByName == map[]
    requires ActionsIndexed(s2)
    requires AddTargets(Building(s2, map[]), tcs).Ok?
    ensures var b := AddTargets(Building(s2, map[]), tcs).value;
      && BuildingIndexed(b) && NoDepsYet(b.spec)
      && ActionsIndexed(b.spec) && ActionsResolved(b.spec)
      && TargetNames(b.spec.targets) == ConfigNames(tcs)
  {
    var b0 := Building(s2, map[]);
    AddTargetsSpec(b0, tcs);
    NewTargetsReady(s2, tcs, AddTargets(b0, tcs).value.spec);
  }

  lemma NewTargetsReady(s2: MakeSpec, tcs: seq<TargetConfig>, s: MakeSpec)
    requires ActionsIndexed(s2)
    requires forall i :: 0 <= i < |tcs| ==> ActionFound(s2.actionsByFullName, tcs[i])
    requires s.targets == NewTargets(s2.actionsByFullName, tcs)
    requires s.actions == s2.actions && s.actionsByFullName == s2.actionsByFullName
    ensures NoDepsYet(s) && ActionsIndexed(s) && ActionsResolved(s)
    ensures TargetNames(s.targets) == ConfigNames(tcs)
  {
    var ts := s.targets;
    forall i | 0 <= i < |ts| && ts[i].action.Some?
      ensures ts[i].action.value.fullName in s.actionsByFullName
    {
      IndexedActionName(s2, tcs[i].action.v);
    }
    assert forall j :: 0 <= j < |ts| ==> TargetNames(ts)[j] == ConfigNames(tcs)[j];
  }

  /** Initialising freshly loaded plugins yields indexed actions, the registered names in order, and no targets. */
  lemma InitializeFromFresh(s1: MakeSpec, init: JsValue -> Result<seq<string>, string>)
    requires FreshlyLoaded(s1)
    ensures var r := InitializePlugins(s1, init);
      r.Ok? ==> (&& ActionsIndexed(r.value)
                 && r.value.targets == [] && r.value.targetsByName == map[]
                 && RegisteredNames(s1.plugins, init).Ok?
                 && ActionNames(r.value.actions) == RegisteredNames(s1.plugins, init).value)
  {
    assert ActionNames(s1.actions) == [];
    InitializeEachSpec(s1, s1.plugins, init);
    if InitializePlugins(s1, init).Ok? {
      assert [] + RegisteredNames(s1.plugins, init).value == RegisteredNames(s1.plugins, init).value;
    }
  }

  /** What the phases after loading guarantee of a model they return. */
  lemma BuildFromLoadedWellFormed(config: Config, s1: MakeSpec, init: JsValue -> Result<seq<string>, string>)
    requires FreshlyLoaded(s1)
    ensures var r := BuildFromLoaded(config, s1, init);
      r.Ok? ==> (&& WellFormed(r.value)
                 && TargetNames(r.value.targets) == ConfigNames(TargetList(config.targets)))
  {
    InitializeFromFresh(s1, init);
    if InitializePlugins(s1, init).Ok? {
      BuildTargetsWellFormed(InitializePlugins(s1, init).value, TargetList(config.targets));
    }
  }

  /** What `buildModel` guarantees of a model it returns. */
  lemma BuildModelWellFormed(env: ModuleEnv, config: Config, baseDir: string, cache: Cache<JsValue>,
                             init: JsValue -> Result<seq<string>, string>)
    ensures var r := BuildModel(env, config, baseDir, cache, init).0;
      r.Ok? ==> (WellFormed(r.value) && TargetNames(r.value.targets) == ConfigNames(TargetList(config.targets)))
  {
    var s0 := AddPlugins(EmptySpec(), config.plugins);
    var loaded := LoadPlugins(env, s0, baseDir, PluginToInstance, cache).0;
    if loaded.Ok? {
      BuildFromLoadedWellFormed(config, loaded.value, init);
    }
  }
}
