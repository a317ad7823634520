/** The build driver: `make` builds the model, plans the requested target and
    runs, in plan order, the action of every target the plan builds. */
module Make {
  import opened Wrappers
  import opened Seqs
  import opened Js
  import opened Graph
  import opened Model
  import opened BuildPlan
  import opened ConfigShape
  import opened ModuleLoader
  import opened ModelBuilder

  /** One call `action.run(target.args, ctx)`: the target, the full name of
      its action and the arguments it passes. */
  datatype Invocation = Invocation(target: string, action: string, args: JsValue)

  /** What a build did: the invocations it started, in order, and the error
      of the one that failed, if one did. */
  datatype BuildOutcome = BuildOutcome(trace: seq<Invocation>, error: Option<string>)

  /** Every target the steps build is a target of the spec. */
  predicate BuildsKnown(s: MakeSpec, steps: seq<BuildStep>) {
    var b := BuildsOf(steps);
    forall i :: 0 <= i < |b| ==> b[i] in s.targetsByName
  }

  lemma BuildsKnownTail(s: MakeSpec, steps: seq<BuildStep>)
    requires |steps| > 0 && BuildsKnown(s, steps)
    ensures BuildsKnown(s, steps[1..])
    ensures steps[0].BuildTargetStep? ==> steps[0].target in s.targetsByName
  {
    var b := BuildsOf(steps);
    var b1 := BuildsOf(steps[1..]);
    assert b == (if steps[0].BuildTargetStep? then [steps[0].target] else []) + b1;
    if steps[0].BuildTargetStep? {
      assert b[0] == steps[0].target;
      forall i | 0 <= i < |b1| ensures b1[i] in s.targetsByName {
        assert b1[i] == b[i + 1];
      }
    } else {
      assert b1 == b;
    }
  }

  /** `buildTarget(target)`: the invocation its action makes, none when it has no action. */
  function InvocationOf(s: MakeSpec, name: string): (r: Option<Invocation>)
    requires TargetsIndexed(s) && name in s.targetsByName
    ensures r.Some? <==> TargetByName(s, name).action.Some?
    ensures r.Some? ==> r.value.target == name
  {
    var t := TargetByName(s, name);
    match t.action
    case None => None
    case Some(a) => Some(Invocation(name, a.fullName, t.args))
  }

  /** The invocations the targets `names` make, in that order: the reference
      the driver is measured against. */
  function Invocations(s: MakeSpec, names: seq<string>): (r: seq<Invocation>)
    requires TargetsIndexed(s) && forall i :: 0 <= i < |names| ==> names[i] in s.targetsByName
  {
    if |names| == 0 then []
    else
      var head := match InvocationOf(s, names[0])
        case None => []
        case Some(inv) => [inv];
      head + Invocations(s, names[1..])
  }

  /** `Make.build`'s loop: walk the steps, act only on `BuildTarget`, await
      each action before the next step, and stop at the first action that
      rejects. `run` stands for the actions' `run` methods. */
  function Drive(s: MakeSpec, steps: seq<BuildStep>, run: Invocation -> Result<(), string>): (r: BuildOutcome)
    requires TargetsIndexed(s) && BuildsKnown(s, steps)
    decreases |steps|
  {
    if |steps| == 0 then BuildOutcome([], None)
    else
      BuildsKnownTail(s, steps);
      var rest := if steps[0].BuildTargetStep? then InvocationOf(s, steps[0].target) else None;
      match rest
      case None => Drive(s, steps[1..], run)
      case Some(inv) =>
        match run(inv)
        case Err(e) => BuildOutcome([inv], Some(e))
        case Ok(_) =>
          var tail := Drive(s, steps[1..], run);
          BuildOutcome([inv] + tail.trace, tail.error)
  }

  /** One step of `Invocations`. */
  lemma InvocationsCons(s: MakeSpec, names: seq<string>)
    requires TargetsIndexed(s) && forall i :: 0 <= i < |names| ==> names[i] in s.targetsByName
    requires |names| > 0
    ensures Invocations(s, names) ==
      (if InvocationOf(s, names[0]).Some? then [InvocationOf(s, names[0]).value] else []) + Invocations(s, names[1..])
  {
  }

  /** `r` is how a driver that meets the invocations `expected` in order
      ends: with all of them when every one succeeds, and otherwise with
      those up to and including the first that fails, reporting its error. */
  ghost predicate Follows(run: Invocation -> Result<(), string>, r: BuildOutcome, expected: seq<Invocation>) {
    && (r.error.None? <==> forall i :: 0 <= i < |expected| ==> run(expected[i]).Ok?)
    && (r.error.None? ==> r.trace == expected)
    && (r.error.Some? ==>
          && 0 < |r.trace| <= |expected|
          && r.trace == expected[..|r.trace|]
          && run(r.trace[|r.trace| - 1]) == Err(r.error.value)
          && forall i :: 0 <= i < |r.trace| - 1 ==> run(r.trace[i]).Ok?)
  }

  /** The driver makes the invocations of the built targets, in build order,
      and stops at the first that fails. */
  lemma {:induction false} DriveFollowsBuilds(s: MakeSpec, steps: seq<BuildStep>, run: Invocation -> Result<(), string>)
    requires TargetsIndexed(s) && BuildsKnown(s, steps)
    ensures Follows(run, Drive(s, steps, run), Invocations(s, BuildsOf(steps)))
    decreases |steps|
  {
    if |steps| > 0 {
      BuildsKnownTail(s, steps);
      DriveFollowsBuilds(s, steps[1..], run);
      var b := BuildsOf(steps);
      var b1 := BuildsOf(steps[1..]);
      assert b == (if steps[0].BuildTargetStep? then [steps[0].target] else []) + b1;
      if steps[0].BuildTargetStep? && InvocationOf(s, steps[0].target).Some? {
        var inv := InvocationOf(s, steps[0].target).value;
        assert b[0] == steps[0].target && b[1..] == b1;
        InvocationsCons(s, b);
        DriveInvokes(s, steps, run, inv, Invocations(s, b1));
      } else {
        DriveSkips(s, steps, run);
      }
    }
  }

  /** A first step that invokes nothing leaves both the outcome and the
      reference invocations to the rest of the steps. */
  lemma DriveSkips(s: MakeSpec, steps: seq<BuildStep>, run: Invocation -> Result<(), string>)
    requires TargetsIndexed(s) && BuildsKnown(s, steps) && |steps| > 0 && BuildsKnown(s, steps[1..])
    requires steps[0].BuildTargetStep? ==>
      steps[0].target in s.targetsByName && InvocationOf(s, steps[0].target).None?
    ensures Drive(s, steps, run) == Drive(s, steps[1..], run)
    ensures Invocations(s, BuildsOf(steps)) == Invocations(s, BuildsOf(steps[1..]))
  {
    var b := BuildsOf(steps);
    var b1 := BuildsOf(steps[1..]);
    assert b == (if steps[0].BuildTargetStep? then [steps[0].target] else []) + b1;
    if steps[0].BuildTargetStep? {
      assert b[0] == steps[0].target && b[1..] == b1;
      InvocationsCons(s, b);
    } else {
      assert b == b1;
    }
  }

  /** A first step that makes `inv` puts it in front of the rest's outcome,
      unless it fails, which ends the build. */
  lemma DriveInvokes(s: MakeSpec, steps: seq<BuildStep>, run: Invocation -> Result<(), string>,
                     inv: Invocation, e1: seq<Invocation>)
    requires TargetsIndexed(s) && BuildsKnown(s, steps) && |steps| > 0 && BuildsKnown(s, steps[1..])
    requires steps[0].BuildTargetStep? && steps[0].target in s.targetsByName
    requires InvocationOf(s, steps[0].target) == Some(inv)
    requires Follows(run, Drive(s, steps[1..], run), e1)
    ensures Follows(run, Drive(s, steps, run), [inv] + e1)
  {
    var tail := Drive(s, steps[1..], run);
    assert Drive(s, steps, run) == Prepend(run, inv, tail);
    FollowsPrepend(run, inv, tail, e1);
  }

  /** The outcome of invoking `inv` before a build that ends with `tail`. */
  function Prepend(run: Invocation -> Result<(), string>, inv: Invocation, tail: BuildOutcome): BuildOutcome {
    match run(inv)
    case Err(e) => BuildOutcome([inv], Some(e))
    case Ok(_) => BuildOutcome([inv] + tail.trace, tail.error)
  }

  lemma FollowsPrepend(run: Invocation -> Result<(), string>, inv: Invocation, tail: BuildOutcome, e1: seq<Invocation>)
    requires Follows(run, tail, e1)
    ensures Follows(run, Prepend(run, inv, tail), [inv] + e1)
  {
    var expected := [inv] + e1;
    assert forall i :: 0 <= i < |e1| ==> expected[i + 1] == e1[i];
    if run(inv).Ok? {
      var r := Prepend(run, inv, tail);
      if tail.error.None? {
        forall i | 0 <= i < |expected| ensures run(expected[i]).Ok? {
          if i > 0 {
            assert expected[i] == e1[i - 1];
          }
        }
      } else {
        assert expected[..|r.trace|] == [inv] + e1[..|tail.trace|];
        forall i | 0 <= i < |r.trace| - 1 ensures run(r.trace[i]).Ok? {
          if i > 0 {
            assert r.trace[i] == tail.trace[i - 1];
          }
        }
      }
    } else {
      assert expected[0] == inv;
    }
  }

  /** The targets of a trace, in order. */
  function TargetsOf(trace: seq<Invocation>): (r: seq<string>)
    ensures |r| == |trace| && forall i :: 0 <= i < |trace| ==> r[i] == trace[i].target
  {
    seq(|trace|, i requires 0 <= i < |trace| => trace[i].target)
  }

  /** Every invocation of `t` is the one its target, a member of `allowed`, makes. */
  ghost predicate TraceWithin(s: MakeSpec, t: seq<Invocation>, allowed: set<string>) {
    TargetsIndexed(s) &&
    forall i :: 0 <= i < |t| ==>
      t[i].target in allowed && t[i].target in s.targetsByName && InvocationOf(s, t[i].target) == Some(t[i])
  }

  /** Each invocation comes after the invocations of the target's direct dependencies. */
  ghost predicate DepsFirst(g: Graph, t: seq<Invocation>) {
    forall i, j :: 0 <= i < |t| && 0 <= j < |t| && t[j].target in g && t[i].target in g[t[j].target] ==> i < j
  }

  /** Every target of `allowed` that has an action is invoked. */
  ghost predicate Covers(s: MakeSpec, t: seq<Invocation>, allowed: set<string>) {
    TargetsIndexed(s) &&
    forall n :: n in allowed && n in s.targetsByName && TargetByName(s, n).action.Some? ==> n in TargetsOf(t)
  }

  /** The reference invocations are exactly those the named targets with an
      action make, each carrying its target's action and arguments. */
  lemma {:induction false} InvocationsOfNames(s: MakeSpec, names: seq<string>)
    requires TargetsIndexed(s) && forall i :: 0 <= i < |names| ==> names[i] in s.targetsByName
    ensures TraceWithin(s, Invocations(s, names), Elems(names))
    ensures Covers(s, Invocations(s, names), Elems(names))
  {
    InvocationsWithin(s, names);
    InvocationsCover(s, names);
  }

  lemma {:induction false} InvocationsWithin(s: MakeSpec, names: seq<string>)
    requires TargetsIndexed(s) && forall i :: 0 <= i < |names| ==> names[i] in s.targetsByName
    ensures TraceWithin(s, Invocations(s, names), Elems(names))
    decreases |names|
  {
    if |names| > 0 {
      InvocationsWithin(s, names[1..]);
      InvocationsCons(s, names);
      var t := Invocations(s, names);
      var tr := Invocations(s, names[1..]);
      var all := Elems(names);
      assert Elems(names[1..]) <= all by {
        assert names == [names[0]] + names[1..];
        ElemsAppend([names[0]], names[1..]);
      }
      if InvocationOf(s, names[0]).Some? {
        forall i | 0 <= i < |t|
          ensures t[i].target in all && t[i].target in s.targetsByName && InvocationOf(s, t[i].target) == Some(t[i])
        {
          if i > 0 {
            assert t[i] == tr[i - 1];
          }
        }
      } else {
        assert t == tr;
      }
    }
  }

  lemma {:induction false} InvocationsCover(s: MakeSpec, names: seq<string>)
    requires TargetsIndexed(s) && forall i :: 0 <= i < |names| ==> names[i] in s.targetsByName
    ensures Covers(s, Invocations(s, names), Elems(names))
    decreases |names|
  {
    if |names| > 0 {
      InvocationsCover(s, names[1..]);
      InvocationsCons(s, names);
      var t := Invocations(s, names);
      var tr := Invocations(s, names[1..]);
      assert Elems(names) == {names[0]} + Elems(names[1..]) by {
        assert names == [names[0]] + names[1..];
        ElemsAppend([names[0]], names[1..]);
      }
      if InvocationOf(s, names[0]).Some? {
        var inv := InvocationOf(s, names[0]).value;
        TargetsOfAppend([inv], tr);
        assert TargetsOf([inv]) == [names[0]];
      } else {
        assert t == tr;
      }
    }
  }

  lemma TargetsOfAppend(a: seq<Invocation>, b: seq<Invocation>)
    ensures TargetsOf(a + b) == TargetsOf(a) + TargetsOf(b)
  {
    assert forall i :: 0 <= i < |a + b| ==> TargetsOf(a + b)[i] == (TargetsOf(a) + TargetsOf(b))[i];
  }

  /** Dependency order survives moving the first name into `done`. */
  lemma DepOrderedTail(g: Graph, done: set<string>, names: seq<string>)
    requires |names| > 0 && DepOrdered(g, done, names)
    ensures DepOrdered(g, done + {names[0]}, names[1..])
    ensures names[0] in g ==> forall d :: d in g[names[0]] ==> d in done
  {
    var n := names[0];
    var rest := names[1..];
    forall i, d | 0 <= i < |rest| && rest[i] in g && d in g[rest[i]]
      ensures d in done + {n} || d in rest[..i]
    {
      assert names[i + 1] == rest[i];
      assert names[..i + 1] == [n] + rest[..i];
    }
    assert names[..0] == [];
  }

  /** Prepending an invocation whose target is new and whose dependencies
      have no invocation keeps the trace duplicate-free and in dependency order. */
  lemma ConsInOrder(g: Graph, inv: Invocation, tr: seq<Invocation>)
    requires NoDups(TargetsOf(tr)) && DepsFirst(g, tr)
    requires forall k :: 0 <= k < |tr| ==> tr[k].target != inv.target
    requires inv.target in g ==> inv.target !in g[inv.target]
    requires inv.target in g ==> forall k :: 0 <= k < |tr| ==> tr[k].target !in g[inv.target]
    ensures NoDups(TargetsOf([inv] + tr)) && DepsFirst(g, [inv] + tr)
  {
    var t := [inv] + tr;
    assert TargetsOf(t) == [inv.target] + TargetsOf(tr);
    forall i, j | 0 <= i < |t| && 0 <= j < |t| && t[j].target in g && t[i].target in g[t[j].target]
      ensures i < j
    {
      if i > 0 && j > 0 {
        assert t[i] == tr[i - 1] && t[j] == tr[j - 1];
      }
    }
  }

  /** Names that repeat none give a trace that invokes each target at most
      once, and names in dependency order give invocations in dependency order. */
  lemma {:induction false} InvocationsInOrder(s: MakeSpec, names: seq<string>, done: set<string>)
    requires TargetsIndexed(s) && forall i :: 0 <= i < |names| ==> names[i] in s.targetsByName
    requires NoDups(names) && DepOrdered(DepGraph(s), done, names)
    requires forall i :: 0 <= i < |names| ==> names[i] !in done
    ensures NoDups(TargetsOf(Invocations(s, names)))
    ensures DepsFirst(DepGraph(s), Invocations(s, names))
    decreases |names|
  {
    if |names| > 0 {
      var g := DepGraph(s);
      var n := names[0];
      var rest := names[1..];
      assert NoDups(rest);
      assert forall i :: 0 <= i < |rest| ==> rest[i] != n;
      DepOrderedTail(g, done, names);
      InvocationsInOrder(s, rest, done + {n});
      InvocationsOfNames(s, rest);
      InvocationsCons(s, names);
      var tr := Invocations(s, rest);
      forall k | 0 <= k < |tr| ensures tr[k].target != n && tr[k].target !in done {
        assert tr[k].target in Elems(rest);
      }
      if InvocationOf(s, n).Some? {
        ConsInOrder(g, InvocationOf(s, n).value, tr);
      }
    }
  }

  /** What holds of a trace holds of each of its prefixes (coverage aside). */
  lemma TracePrefix(s: MakeSpec, g: Graph, e: seq<Invocation>, k: nat, allowed: set<string>)
    requires k <= |e|
    requires TraceWithin(s, e, allowed) && NoDups(TargetsOf(e)) && DepsFirst(g, e)
    ensures TraceWithin(s, e[..k], allowed) && NoDups(TargetsOf(e[..k])) && DepsFirst(g, e[..k])
  {
    assert TargetsOf(e) == TargetsOf(e[..k]) + TargetsOf(e)[k..];
    NoDupsPrefix(TargetsOf(e[..k]), TargetsOf(e)[k..]);
  }

  /** The plan for any target of a well-formed spec builds only targets of the spec. */
  lemma PlanBuildsKnown(s: MakeSpec, root: string)
    requires WellFormed(s) && root in s.targetsByName
    ensures BuildsKnown(s, PlanSteps(CreateBuildPlan(DepGraph(s), root)))
  {
    var g := DepGraph(s);
    PlanBuildsReachableOnce(g, root);
    var b := BuildsOf(PlanSteps(CreateBuildPlan(g, root)));
    forall i | 0 <= i < |b| ensures b[i] in s.targetsByName {
      assert b[i] in Elems(b);
    }
  }

  /** The plan `createBuildPlan` makes for a spec is the one for its
      dependency graph and chosen root, and builds only targets of the spec. */
  lemma PlanFromSpecBuildsKnown(s: MakeSpec, targetName: Option<string>,
                                getTargetOrDefault: (MakeSpec, Option<string>) -> Result<string, string>)
    requires WellFormed(s)
    requires forall n :: getTargetOrDefault(s, n).Ok? ==> getTargetOrDefault(s, n).value in s.targetsByName
    ensures var r := CreateBuildPlanFromSpec(s, targetName, getTargetOrDefault);
      r.Ok? ==> (r.value == CreateBuildPlan(DepGraph(s), getTargetOrDefault(s, targetName).value)
                 && BuildsKnown(s, PlanSteps(r.value)))
  {
    var r := CreateBuildPlanFromSpec(s, targetName, getTargetOrDefault);
    if r.Ok? {
      PlanBuildsKnown(s, getTargetOrDefault(s, targetName).value);
    }
  }

  /** `Make.build`: plan the build of `targetName` (or the default target)
      and drive its steps. */
  function MakeBuild(s: MakeSpec, targetName: Option<string>,
                     getTargetOrDefault: (MakeSpec, Option<string>) -> Result<string, string>,
                     run: Invocation -> Result<(), string>): (r: Result<BuildOutcome, string>)
    requires WellFormed(s)
    requires forall n :: getTargetOrDefault(s, n).Ok? ==> getTargetOrDefault(s, n).value in s.targetsByName
    ensures r.Ok? <==> getTargetOrDefault(s, targetName).Ok?
  {
    PlanFromSpecBuildsKnown(s, targetName, getTargetOrDefault);
    match CreateBuildPlanFromSpec(s, targetName, getTargetOrDefault)
    case Err(e) => Err(e)
    case Ok(plan) => Ok(Drive(s, PlanSteps(plan), run))
  }

  /** The steps of the plan for `root`, which build only targets of the spec. */
  function RootSteps(s: MakeSpec, root: string): (steps: seq<BuildStep>)
    requires WellFormed(s) && root in s.targetsByName
    ensures steps == PlanSteps(CreateBuildPlan(DepGraph(s), root))
    ensures BuildsKnown(s, steps)
  {
    PlanBuildsKnown(s, root);
    PlanSteps(CreateBuildPlan(DepGraph(s), root))
  }

  /** Driving the plan for `root` runs the action of every target reachable
      from it that has one, and of no other target, each once, with its own
      arguments, each after the actions of its direct dependencies; it stops
      at the first action that fails. */
  lemma DrivePlan(s: MakeSpec, root: string, run: Invocation -> Result<(), string>)
    requires WellFormed(s) && root in s.targetsByName
    ensures var g := DepGraph(s);
      var r := Drive(s, RootSteps(s, root), run);
      && TraceWithin(s, r.trace, ReachSet(g, root))
      && NoDups(TargetsOf(r.trace))
      && DepsFirst(g, r.trace)
      && (r.error.None? ==> Covers(s, r.trace, ReachSet(g, root)))
  {
    var g := DepGraph(s);
    var steps := PlanSteps(CreateBuildPlan(g, root));
    PlanBuildsKnown(s, root);
    PlanBuildsReachableOnce(g, root);
    var builds := BuildsOf(steps);
    DriveFollowsBuilds(s, steps, run);
    InvocationsOfNames(s, builds);
    InvocationsInOrder(s, builds, {});
    var expected := Invocations(s, builds);
    var t := Drive(s, steps, run).trace;
    TracePrefix(s, g, expected, |t|, ReachSet(g, root));
    assert t == expected[..|t|];
  }

  /** A build runs, for the root `getTargetOrDefault` chooses, what `DrivePlan` states. */
  lemma MakeBuildRunsReachableActions(s: MakeSpec, targetName: Option<string>,
                                      getTargetOrDefault: (MakeSpec, Option<string>) -> Result<string, string>,
                                      run: Invocation -> Result<(), string>)
    requires WellFormed(s)
    requires forall n :: getTargetOrDefault(s, n).Ok? ==> getTargetOrDefault(s, n).value in s.targetsByName
    ensures var r := MakeBuild(s, targetName, getTargetOrDefault, run);
      r.Ok? ==>
        var root := getTargetOrDefault(s, targetName).value;
        var g := DepGraph(s);
        && TraceWithin(s, r.value.trace, ReachSet(g, root))
        && NoDups(TargetsOf(r.value.trace))
        && DepsFirst(g, r.value.trace)
        && (r.value.error.None? ==> Covers(s, r.value.trace, ReachSet(g, root)))
  {
    PlanFromSpecBuildsKnown(s, targetName, getTargetOrDefault);
    var r := MakeBuild(s, targetName, getTargetOrDefault, run);
    if r.Ok? {
      DrivePlan(s, getTargetOrDefault(s, targetName).value, run);
    }
  }

  /** `make`: build the model from a configuration, then build `targetName`
      (or the default target). The configuration and its base directory are
      inputs; `getTargetOrDefault` must pick a target of the spec it is given. */
  function RunMake(env: ModuleEnv, config: Config, baseDir: string, cache: Cache<JsValue>,
                   init: JsValue -> Result<seq<string>, string>, targetName: Option<string>,
                   getTargetOrDefault: (MakeSpec, Option<string>) -> Result<string, string>,
                   run: Invocation -> Result<(), string>): (r: Result<BuildOutcome, string>)
    requires forall m, n :: getTargetOrDefault(m, n).Ok? ==> getTargetOrDefault(m, n).value in m.targetsByName
    ensures var built := BuildModel(env, config, baseDir, cache, init).0;
      && (built.Err? ==> r == Err(built.error))
      && (r.Ok? <==> built.Ok? && getTargetOrDefault(built.value, targetName).Ok?)
  {
    match BuildModel(env, config, baseDir, cache, init).0
    case Err(e) => Err(e)
    case Ok(s) =>
      BuildModelWellFormed(env, config, baseDir, cache, init);
      MakeBuild(s, targetName, getTargetOrDefault, run)
  }

  /** No action runs unless the whole model was built and checked, and every
      action that runs belongs to a target the configuration declares. */
  lemma RunMakeInvokesConfiguredTargets(env: ModuleEnv, config: Config, baseDir: string, cache: Cache<JsValue>,
                                        init: JsValue -> Result<seq<string>, string>, targetName: Option<string>,
                                        getTargetOrDefault: (MakeSpec, Option<string>) -> Result<string, string>,
                                        run: Invocation -> Result<(), string>)
    requires forall m, n :: getTargetOrDefault(m, n).Ok? ==> getTargetOrDefault(m, n).value in m.targetsByName
    ensures var r := RunMake(env, config, baseDir, cache, init, targetName, getTargetOrDefault, run);
      r.Ok? ==>
        && BuildModel(env, config, baseDir, cache, init).0.Ok?
        && forall i :: 0 <= i < |r.value.trace| ==> r.value.trace[i].target in ConfigNames(TargetList(config.targets))
  {
    var r := RunMake(env, config, baseDir, cache, init, targetName, getTargetOrDefault, run);
    if r.Ok? {
      var s := BuildModel(env, config, baseDir, cache, init).0.value;
      BuildModelWellFormed(env, config, baseDir, cache, init);
      MakeBuildRunsReachableActions(s, targetName, getTargetOrDefault, run);
      var names := ConfigNames(TargetList(config.targets));
      forall i | 0 <= i < |r.value.trace| ensures r.value.trace[i].target in names {
        var n := r.value.trace[i].target;
        var k := s.targetsByName[n];
        assert TargetNames(s.targets)[k] == n;
      }
    }
  }
}
