/** The older configuration-to-model path (`configToModel`). Its input is a
    configuration shape of its own: targets given as an object from name to
    `{depends, build}`, and an optional `defaultTarget`. Target builders are
    held by name; names are the keys of that object, so they are distinct. */
module ConfigToModel {
  import opened Wrappers
  import opened Seqs
  import opened Text
  import opened Graph
  import opened CycleCheck
  import opened ConfigShape
  import ModelBuilder

  /** The `build` section: only the `esbuild` kind exists. */
  datatype LegacyBuild = EsBuild(source: string, destPrefix: string)

  datatype LegacyTarget = LegacyTarget(depends: Nullish<Deps>, build: Nullish<LegacyBuild>)

  /** `targets` as its `Object.entries`, in insertion order. */
  datatype LegacyConfig = LegacyConfig(targets: Nullish<seq<(string, LegacyTarget)>>, defaultTarget: Nullish<string>)

  /** `Utils.resolvePath(base, p)` and `Utils.isFile(p)`. */
  datatype LegacyEnv = LegacyEnv(resolvePath: (string, string) -> string, isFile: string -> bool)

  /** The default target: `null`, a found target, or — because an empty name
      is falsy but not nullish — the empty string itself. */
  datatype DefaultTarget = NoDefault | EmptyNameDefault | DefaultIs(name: string)

  datatype BuiltTarget = EsBuildTarget(depends: seq<string>, source: string, destPrefix: string)

  /** What `configToModel` computes (the source discards it). */
  datatype LegacyModel = LegacyModel(names: seq<string>, depends: Graph, defaultTarget: DefaultTarget, built: seq<Option<BuiltTarget>>)

  /** `toDepends`: a single name becomes a one-element list. */
  function ToDepends(d: Nullish<Deps>): (r: seq<string>)
    ensures d.IsNullish() ==> r == []
    ensures d.Value? && d.v.DepsName? ==> r == [d.v.name]
    ensures d.Value? && d.v.DepsList? ==> r == d.v.names
  {
    match d
    case Value(DepsName(n)) => [n]
    case Value(DepsList(ns)) => ns
    case _ => []
  }

  function Entries(targets: Nullish<seq<(string, LegacyTarget)>>): seq<(string, LegacyTarget)> {
    if targets.Value? then targets.v else []
  }

  function EntryNames(es: seq<(string, LegacyTarget)>): (r: seq<string>)
    ensures |r| == |es| && forall i :: 0 <= i < |es| ==> r[i] == es[i].0
  {
    seq(|es|, i requires 0 <= i < |es| => es[i].0)
  }

  /** The dependency graph the linking pass builds, by name. */
  function LegacyGraph(es: seq<(string, LegacyTarget)>): (g: Graph)
    requires NoDups(EntryNames(es))
    ensures g.Keys == Elems(EntryNames(es))
    ensures forall i :: 0 <= i < |es| ==> g[es[i].0] == ToDepends(es[i].1.depends)
  {
    if |es| == 0 then map[]
    else
      var n := |es| - 1;
      assert EntryNames(es[..n]) == EntryNames(es)[..n];
      assert EntryNames(es) == EntryNames(es[..n]) + [es[n].0];
      NoDupsPrefix(EntryNames(es[..n]), [es[n].0]);
      ElemsAppend(EntryNames(es[..n]), [es[n].0]);
      NoDupsSnoc(EntryNames(es[..n]), es[n].0);
      LegacyGraph(es[..n])[es[n].0 := ToDepends(es[n].1.depends)]
  }

  /** `findTarget(name)`. */
  function FindTarget(names: set<string>, name: string): (r: Result<string, string>)
    ensures r.Ok? <==> name in names
    ensures r.Ok? ==> r.value == name
    ensures r.Err? ==> r.error == "Target \"" + name + "\" not found"
  {
    if name in names then Ok(name) else Err("Target \"" + name + "\" not found")
  }

  /** The inner linking loop over one target's dependency names. */
  function LinkNames(ds: seq<string>, names: set<string>): (r: Result<(), string>)
    ensures r.Ok? <==> forall i :: 0 <= i < |ds| ==> ds[i] in names
    ensures r.Err? ==> exists i :: (0 <= i < |ds| && ds[i] !in names
      && (forall j :: 0 <= j < i ==> ds[j] in names)
      && r.error == FindTarget(names, ds[i]).error)
  {
    if |ds| == 0 then Ok(())
    else
      match FindTarget(names, ds[0])
      case Err(e) => Err(e)
      case Ok(_) =>
        var r := LinkNames(ds[1..], names);
        assert forall i :: 1 <= i < |ds| ==> ds[i] == ds[1..][i - 1];
        r
  }

  /** Every name a target depends on is a declared target. */
  ghost predicate AllDependsDeclared(es: seq<(string, LegacyTarget)>) {
    forall i, d :: 0 <= i < |es| && d in ToDepends(es[i].1.depends) ==> d in Elems(EntryNames(es))
  }

  /** The linking pass from entry `k` on; it runs only once every builder exists. */
  function LinkFrom(es: seq<(string, LegacyTarget)>, k: nat): (r: Result<(), string>)
    requires k <= |es|
    ensures r.Ok? <==> forall i, d :: k <= i < |es| && d in ToDepends(es[i].1.depends) ==> d in Elems(EntryNames(es))
    decreases |es| - k
  {
    if k == |es| then Ok(())
    else
      LinkFromSplit(es, k, Elems(EntryNames(es)));
      match LinkNames(ToDepends(es[k].1.depends), Elems(EntryNames(es)))
      case Err(e) => Err(e)
      case Ok(_) => LinkFrom(es, k + 1)
  }

  /** Every dependency from entry `k` on is declared exactly when entry `k`'s
      are and every one from `k + 1` on is. */
  lemma LinkFromSplit(es: seq<(string, LegacyTarget)>, k: nat, names: set<string>)
    requires k < |es|
    ensures (forall i, d :: k <= i < |es| && d in ToDepends(es[i].1.depends) ==> d in names)
      <==> (&& (forall j :: 0 <= j < |ToDepends(es[k].1.depends)| ==> ToDepends(es[k].1.depends)[j] in names)
            && (forall i, d :: k + 1 <= i < |es| && d in ToDepends(es[i].1.depends) ==> d in names))
  {
  }

  lemma LinkedClosed(es: seq<(string, LegacyTarget)>)
    requires NoDups(EntryNames(es)) && AllDependsDeclared(es)
    ensures Closed(LegacyGraph(es))
  {
    var g := LegacyGraph(es);
    forall n, d | n in g && d in g[n] ensures d in g {
      var i :| 0 <= i < |es| && EntryNames(es)[i] == n;
      assert d in ToDepends(es[i].1.depends);
    }
  }

  /** `(config.defaultTarget && findTarget(config.defaultTarget)) ?? null`. */
  function DefaultOf(d: Nullish<string>, names: set<string>): (r: Result<DefaultTarget, string>)
    ensures r.Ok? <==> d.IsNullish() || d.v == "" || d.v in names
    ensures r.Ok? && d.IsNullish() ==> r.value == NoDefault
    ensures r.Ok? && d.Value? && d.v != "" ==> r.value == DefaultIs(d.v)
    ensures r.Ok? && d.Value? && d.v == "" ==> r.value == EmptyNameDefault
    ensures r.Err? ==> r.error == FindTarget(names, d.v).error
  {
    match d
    case Value(n) =>
      if n == "" then Ok(EmptyNameDefault)
      else
        (match FindTarget(names, n)
         case Err(e) => Err(e)
         case Ok(t) => Ok(DefaultIs(t)))
    case _ => Ok(NoDefault)
  }

  function MissingSourceError(name: string, sourceAbs: string): string {
    "esbuild target \"" + name + "\" specifies non-existent source file \"" + sourceAbs + "\""
  }

  /** `buildTarget`: no `build` gives no target; an esbuild target needs its source file. */
  function BuildTarget(env: LegacyEnv, basedir: string, name: string, t: LegacyTarget, depends: seq<string>)
    : (r: Result<Option<BuiltTarget>, string>)
    ensures t.build.IsNullish() ==> r == Ok(None)
    ensures t.build.Value? ==>
      (r.Ok? <==> env.isFile(env.resolvePath(basedir, t.build.v.source)))
    ensures t.build.Value? && r.Ok? ==>
      r.value == Some(EsBuildTarget(depends, env.resolvePath(basedir, t.build.v.source),
                                    env.resolvePath(basedir, t.build.v.destPrefix)))
    ensures r.Err? ==> r.error == MissingSourceError(name, env.resolvePath(basedir, t.build.v.source))
  {
    match t.build
    case Value(EsBuild(source, destPrefix)) =>
      var sourceAbs := env.resolvePath(basedir, source);
      if !env.isFile(sourceAbs) then Err(MissingSourceError(name, sourceAbs))
      else Ok(Some(EsBuildTarget(depends, sourceAbs, env.resolvePath(basedir, destPrefix))))
    case _ => Ok(None)
  }

  /** An esbuild target's source file, resolved against the base directory, exists. */
  ghost predicate SourceExists(env: LegacyEnv, basedir: string, t: LegacyTarget) {
    t.build.Value? ==> env.isFile(env.resolvePath(basedir, t.build.v.source))
  }

  /** `buildTargets` over the entries from `k` on. */
  function BuildFrom(env: LegacyEnv, basedir: string, es: seq<(string, LegacyTarget)>, g: Graph, k: nat)
    : (r: Result<seq<Option<BuiltTarget>>, string>)
    requires k <= |es|
    requires forall i :: 0 <= i < |es| ==> es[i].0 in g
    ensures r.Ok? <==> forall i :: k <= i < |es| ==> SourceExists(env, basedir, es[i].1)
    ensures r.Ok? ==> (|r.value| == |es| - k
      && forall i :: k <= i < |es| ==> r.value[i - k] == BuildTarget(env, basedir, es[i].0, es[i].1, g[es[i].0]).value)
    decreases |es| - k
  {
    if k == |es| then Ok([])
    else
      match BuildTarget(env, basedir, es[k].0, es[k].1, g[es[k].0])
      case Err(e) => Err(e)
      case Ok(t) =>
        match BuildFrom(env, basedir, es, g, k + 1)
        case Err(e) => Err(e)
        case Ok(rest) => Ok([t] + rest)
  }

  /** `configToModel`: register every builder, link dependencies, pick the
      default target, check for cycles, then build each target. */
  function ConfigToModel(env: LegacyEnv, config: LegacyConfig, basedir: string): (r: Result<LegacyModel, string>)
    requires NoDups(EntryNames(Entries(config.targets)))
  {
    var es := Entries(config.targets);
    var names := EntryNames(es);
    match LinkFrom(es, 0)
    case Err(e) => Err(e)
    case Ok(_) =>
      match DefaultOf(config.defaultTarget, Elems(names))
      case Err(e) => Err(e)
      case Ok(dt) =>
        var g := LegacyGraph(es);
        LinkedClosed(es);
        match CheckAll(g, names)
        case Some(c) => Err("Depends cycle detected: " + Join(c, " -> "))
        case None =>
          match BuildFrom(env, basedir, es, g, 0)
          case Err(e) => Err(e)
          case Ok(built) => Ok(LegacyModel(names, g, dt, built))
  }

  /** `configToModel` succeeds exactly when every dependency names a target,
      the default target (if a non-empty name) exists, the dependency graph
      is acyclic, and every esbuild source file exists; the model then links
      each target to its normalised dependencies, in order. */
  lemma ConfigToModelSpec(env: LegacyEnv, config: LegacyConfig, basedir: string)
    requires NoDups(EntryNames(Entries(config.targets)))
    ensures var es := Entries(config.targets);
      var r := ConfigToModel(env, config, basedir);
      && (r.Ok? <==>
           && AllDependsDeclared(es)
           && (config.defaultTarget.IsNullish() || config.defaultTarget.v == ""
               || config.defaultTarget.v in Elems(EntryNames(es)))
           && Acyclic(LegacyGraph(es))
           && forall i :: 0 <= i < |es| ==> SourceExists(env, basedir, es[i].1))
      && (r.Ok? ==> (&& r.value.names == EntryNames(es)
                     && (forall i :: 0 <= i < |es| ==> r.value.depends[es[i].0] == ToDepends(es[i].1.depends))
                     && |r.value.built| == |es|
                     && (forall i :: 0 <= i < |es| ==> (r.value.built[i].None? <==> es[i].1.build.IsNullish()))))
  {
    var es := Entries(config.targets);
    ConfigToModelOk(env, config, basedir);
    if ConfigToModel(env, config, basedir).Ok? {
      ConfigToModelValue(env, config, basedir);
    }
  }

  lemma ConfigToModelOk(env: LegacyEnv, config: LegacyConfig, basedir: string)
    requires NoDups(EntryNames(Entries(config.targets)))
    ensures var es := Entries(config.targets);
      ConfigToModel(env, config, basedir).Ok? <==>
        && AllDependsDeclared(es)
        && (config.defaultTarget.IsNullish() || config.defaultTarget.v == ""
            || config.defaultTarget.v in Elems(EntryNames(es)))
        && Acyclic(LegacyGraph(es))
        && forall i :: 0 <= i < |es| ==> SourceExists(env, basedir, es[i].1)
  {
    var es := Entries(config.targets);
    if AllDependsDeclared(es) {
      LinkedClosed(es);
      CheckAllAcyclic(LegacyGraph(es), EntryNames(es));
    }
  }

  lemma ConfigToModelValue(env: LegacyEnv, config: LegacyConfig, basedir: string)
    requires NoDups(EntryNames(Entries(config.targets)))
    requires ConfigToModel(env, config, basedir).Ok?
    ensures var es := Entries(config.targets);
      var m := ConfigToModel(env, config, basedir).value;
      && m.names == EntryNames(es)
      && (forall i :: 0 <= i < |es| ==> m.depends[es[i].0] == ToDepends(es[i].1.depends))
      && |m.built| == |es|
      && (forall i :: 0 <= i < |es| ==> (m.built[i].None? <==> es[i].1.build.IsNullish()))
  {
  }

  /** The legacy path reads a single string as one dependency, while the
      model builder reads it character by character: they agree exactly on
      one-character names. */
  lemma StringDependsDiffer(n: string)
    ensures ToDepends(Value(DepsName(n))) == [n]
    ensures ModelBuilder.RawDeps(Value(DepsName(n))) == ToDepends(Value(DepsName(n))) <==> |n| == 1
  {
    var raw := ModelBuilder.RawDeps(Value(DepsName(n)));
    assert |raw| == |n|;
    if |n| == 1 {
      assert raw[0] == [n[0]];
      assert [n[0]] == n;
    }
  }
}
