/** The build plan: a depth-first expansion of the dependency graph from one
    root target that threads a set of completed targets, and its
    linearisation into build-step events. */
module BuildPlan {
  import opened Wrappers
  import opened Seqs
  import opened Text
  import opened Graph
  import opened Model

  /** One node of the plan: a target and, per declared dependency, either a
      back-reference to an already completed target or its expansion. */
  datatype BuildTarget = BuildTarget(target: string, deps: seq<BuildTargetDep>)

  datatype BuildTargetDep =
    | CompletedBuildTargetDep(target: string)
    | IncompleteBuildTargetDep(buildTarget: BuildTarget)

  datatype BuildPlan = BuildPlan(target: BuildTarget)

  datatype BuildStep =
    | BeginTarget(target: string)
    | BeginBuildTargetDependencies(target: string, deps: seq<BuildTargetDep>)
    | EndBuildTargetDependencies(target: string, deps: seq<BuildTargetDep>)
    | BuildTargetDependency(target: string, dep: string)
    | SkipCompleteTargetDependency(target: string, dep: string)
    | BuildTargetStep(target: string)
    | EndTarget(target: string)

  function DepTarget(d: BuildTargetDep): string {
    match d
    case CompletedBuildTargetDep(t) => t
    case IncompleteBuildTargetDep(b) => b.target
  }

  //----------------------------------------------------------------------
  // Plan construction

  /** The preconditions of `createBuildTarget`: a resolved acyclic graph and a
      completed set that holds whatever its members reach. */
  ghost predicate PlanReady(g: Graph, completes: set<string>) {
    Closed(g) && Acyclic(g) && DownClosed(g, completes)
  }

  /** `createBuildTarget(target, completes)`: expand every dependency not yet
      completed, then mark the target completed. Returns the node and the
      completed set afterwards. */
  function CreateBuildTarget(g: Graph, t: string, completes: set<string>): (r: (BuildTarget, set<string>))
    requires PlanReady(g, completes) && t in g && t !in completes
    ensures r.0.target == t
    ensures |r.0.deps| == |g[t]|
    ensures forall i :: 0 <= i < |g[t]| ==> DepTarget(r.0.deps[i]) == g[t][i]
    ensures r.1 == completes + ReachSet(g, t)
    decreases ReachSet(g, t), 1
  {
    var (deps, c) := CreateDeps(g, t, g[t], completes);
    ReachUnfold(g, t);
    (BuildTarget(t, deps), c + {t})
  }

  /** The loop of `createBuildTarget` over the remaining dependencies `ds` of `t`. */
  function CreateDeps(g: Graph, t: string, ds: seq<string>, completes: set<string>)
    : (r: (seq<BuildTargetDep>, set<string>))
    requires PlanReady(g, completes) && t in g
    requires forall i :: 0 <= i < |ds| ==> ds[i] in g[t]
    ensures |r.0| == |ds|
    ensures forall i :: 0 <= i < |ds| ==> DepTarget(r.0[i]) == ds[i]
    ensures forall i :: 0 <= i < |ds| ==>
      (r.0[i].CompletedBuildTargetDep? <==> ds[i] in completes + ReachSeq(g, ds[..i]))
    ensures r.1 == completes + ReachSeq(g, ds)
    ensures DownClosed(g, r.1)
    decreases ReachSet(g, t), 0, |ds|
  {
    if |ds| == 0 then ([], completes)
    else
      var d := ds[0];
      if d in completes then
        var (rest, c) := CreateDeps(g, t, ds[1..], completes);
        CompletedStep(g, ds, completes, completes, rest, [CompletedBuildTargetDep(d)] + rest);
        ([CompletedBuildTargetDep(d)] + rest, c)
      else
        ReachShrinks(g, t, d);
        var (b, c1) := CreateBuildTarget(g, d, completes);
        DownClosedUnion(g, completes, d);
        var (rest, c2) := CreateDeps(g, t, ds[1..], c1);
        CompletedStep(g, ds, completes, c1, rest, [IncompleteBuildTargetDep(b)] + rest);
        ([IncompleteBuildTargetDep(b)] + rest, c2)
  }

  lemma DownClosedUnion(g: Graph, c: set<string>, d: string)
    requires DownClosed(g, c)
    ensures DownClosed(g, c + ReachSet(g, d))
  {
    ReachSetDownClosed(g, d);
  }

  /** Re-indexes the completed-dependency condition of the loop's tail onto the whole loop. */
  lemma CompletedStep(g: Graph, ds: seq<string>, c0: set<string>, c1: set<string>,
                      rest: seq<BuildTargetDep>, all: seq<BuildTargetDep>)
    requires |ds| >= 1 && |rest| == |ds| - 1 && |all| == |ds| && all[1..] == rest
    requires DownClosed(g, c0)
    requires c1 == c0 + ReachSet(g, ds[0])
    requires all[0].CompletedBuildTargetDep? <==> ds[0] in c0
    requires forall i :: 0 <= i < |ds| - 1 ==>
      (rest[i].CompletedBuildTargetDep? <==> ds[1..][i] in c1 + ReachSeq(g, ds[1..][..i]))
    ensures forall i :: 0 <= i < |ds| ==>
      (all[i].CompletedBuildTargetDep? <==> ds[i] in c0 + ReachSeq(g, ds[..i]))
  {
    forall i | 1 <= i < |ds|
      ensures all[i].CompletedBuildTargetDep? <==> ds[i] in c0 + ReachSeq(g, ds[..i])
    {
      assert ds[..i] == [ds[0]] + ds[1..][..i - 1];
      ReachSeqCons(g, ds[0], ds[1..][..i - 1]);
      assert all[i] == rest[i - 1] && ds[i] == ds[1..][i - 1];
    }
    assert ds[..0] == [];
  }

  /** `createBuildPlan` once the root target has been chosen. */
  function CreateBuildPlan(g: Graph, root: string): (p: BuildPlan)
    requires Closed(g) && Acyclic(g) && root in g
    ensures p.target.target == root
  {
    BuildPlan(CreateBuildTarget(g, root, {}).0)
  }

  /** `createBuildPlan(makeSpec, targetName)`: the root is whatever
      `getTargetOrDefault` (whose body is not part of this model) picks. */
  function CreateBuildPlanFromSpec(s: MakeSpec, targetName: Option<string>,
                                   getTargetOrDefault: (MakeSpec, Option<string>) -> Result<string, string>)
    : (r: Result<BuildPlan, string>)
    requires WellFormed(s)
    requires forall n :: getTargetOrDefault(s, n).Ok? ==> getTargetOrDefault(s, n).value in s.targetsByName
    ensures r.Ok? <==> getTargetOrDefault(s, targetName).Ok?
    ensures r.Ok? ==> r.value.target.target == getTargetOrDefault(s, targetName).value
  {
    var root :- getTargetOrDefault(s, targetName);
    Ok(CreateBuildPlan(DepGraph(s), root))
  }

  //----------------------------------------------------------------------
  // Linearisation

  /** `BuildTarget.getBuildSteps`. Note that the end-of-dependencies event
      precedes the per-dependency events. */
  function GetBuildSteps(bt: BuildTarget): seq<BuildStep>
    decreases bt, 1
  {
    var t := bt.target;
    [BeginTarget(t), BeginBuildTargetDependencies(t, bt.deps), EndBuildTargetDependencies(t, bt.deps)]
      + DepSteps(bt, t, bt.deps)
      + [BuildTargetStep(t), EndTarget(t)]
  }

  function DepSteps(ghost parent: BuildTarget, t: string, ds: seq<BuildTargetDep>): seq<BuildStep>
    requires forall i :: 0 <= i < |ds| ==> ds[i] in parent.deps
    decreases parent, 0, |ds|
  {
    if |ds| == 0 then []
    else
      assert ds[0] in parent.deps;
      assert ds[0] < parent;
      var head := match ds[0]
        case CompletedBuildTargetDep(d) => [SkipCompleteTargetDependency(t, d)]
        case IncompleteBuildTargetDep(b) => [BuildTargetDependency(t, b.target)] + GetBuildSteps(b);
      head + DepSteps(parent, t, ds[1..])
  }

  /** `BuildPlan.getBuildSteps`. */
  function PlanSteps(p: BuildPlan): seq<BuildStep> {
    GetBuildSteps(p.target)
  }

  /** The targets of the `BuildTarget` events, in order: what the driver builds. */
  function BuildsOf(steps: seq<BuildStep>): seq<string> {
    if |steps| == 0 then []
    else (if steps[0].BuildTargetStep? then [steps[0].target] else []) + BuildsOf(steps[1..])
  }

  lemma BuildsOfAppend(a: seq<BuildStep>, b: seq<BuildStep>)
    ensures BuildsOf(a + b) == BuildsOf(a) + BuildsOf(b)
  {
    if |a| == 0 {
      assert a + b == b;
    } else {
      assert (a + b)[1..] == a[1..] + b;
      BuildsOfAppend(a[1..], b);
    }
  }

  /** The expanded targets of a node in post-order: an independent reading of
      the tree, against which the step sequence is checked. */
  function Order(bt: BuildTarget): seq<string>
    decreases bt, 1
  {
    OrderDeps(bt, bt.deps) + [bt.target]
  }

  function OrderDeps(ghost parent: BuildTarget, ds: seq<BuildTargetDep>): seq<string>
    requires forall i :: 0 <= i < |ds| ==> ds[i] in parent.deps
    decreases parent, 0, |ds|
  {
    if |ds| == 0 then []
    else
      assert ds[0] in parent.deps;
      assert ds[0] < parent;
      var head := match ds[0]
        case CompletedBuildTargetDep(_) => []
        case IncompleteBuildTargetDep(b) => Order(b);
      head + OrderDeps(parent, ds[1..])
  }

  /** The `BuildTarget` events of a node's steps are exactly its post-order. */
  lemma {:induction false} StepsBuildOrder(bt: BuildTarget)
    ensures BuildsOf(GetBuildSteps(bt)) == Order(bt)
    decreases bt, 1
  {
    var t := bt.target;
    var pre := [BeginTarget(t), BeginBuildTargetDependencies(t, bt.deps), EndBuildTargetDependencies(t, bt.deps)];
    var post := [BuildTargetStep(t), EndTarget(t)];
    BuildsOfAppend(pre + DepSteps(bt, t, bt.deps), post);
    BuildsOfAppend(pre, DepSteps(bt, t, bt.deps));
    DepStepsBuildOrder(bt, bt.deps);
    assert BuildsOf(pre) == [] by {
      var p1 := [BeginBuildTargetDependencies(t, bt.deps), EndBuildTargetDependencies(t, bt.deps)];
      var p2 := [EndBuildTargetDependencies(t, bt.deps)];
      assert pre[1..] == p1 && p1[1..] == p2 && p2[1..] == [];
      assert BuildsOf(p2) == [];
      assert BuildsOf(p1) == [];
    }
    assert BuildsOf(post) == [t] by {
      assert post[1..] == [EndTarget(t)] && [EndTarget(t)][1..] == [];
      assert BuildsOf([EndTarget(t)]) == [];
    }
  }

  lemma {:induction false} DepStepsBuildOrder(parent: BuildTarget, ds: seq<BuildTargetDep>)
    requires forall i :: 0 <= i < |ds| ==> ds[i] in parent.deps
    ensures BuildsOf(DepSteps(parent, parent.target, ds)) == OrderDeps(parent, ds)
    decreases parent, 0, |ds|
  {
    if |ds| > 0 {
      assert ds[0] in parent.deps;
      assert ds[0] < parent;
      DepStepsBuildOrder(parent, ds[1..]);
      match ds[0]
      case CompletedBuildTargetDep(d) =>
        BuildsOfAppend([SkipCompleteTargetDependency(parent.target, d)], DepSteps(parent, parent.target, ds[1..]));
      case IncompleteBuildTargetDep(b) =>
        var head := [BuildTargetDependency(parent.target, b.target)] + GetBuildSteps(b);
        BuildsOfAppend(head, DepSteps(parent, parent.target, ds[1..]));
        BuildsOfAppend([BuildTargetDependency(parent.target, b.target)], GetBuildSteps(b));
        StepsBuildOrder(b);
    }
  }

  //----------------------------------------------------------------------
  // Build order

  /** Every dependency of a built target was completed beforehand: either it
      was already in `done` or it was built earlier in `order`. */
  ghost predicate DepOrdered(g: Graph, done: set<string>, order: seq<string>) {
    forall i, d :: 0 <= i < |order| && order[i] in g && d in g[order[i]] ==> d in done || d in order[..i]
  }

  /** Expanding `t` builds each target it reaches that was not completed
      before, exactly once, each after its dependencies, ending with `t`. */
  lemma {:induction false} CreateBuildTargetOrder(g: Graph, t: string, completes: set<string>)
    requires PlanReady(g, completes) && t in g && t !in completes
    ensures var o := Order(CreateBuildTarget(g, t, completes).0);
      && NoDups(o)
      && Elems(o) == ReachSet(g, t) - completes
      && DepOrdered(g, completes, o)
      && o[|o| - 1] == t
    decreases ReachSet(g, t), 1
  {
    var (deps, c) := CreateDeps(g, t, g[t], completes);
    var bt := BuildTarget(t, deps);
    assert CreateBuildTarget(g, t, completes).0 == bt;
    CreateDepsOrder(g, t, g[t], completes);
    var od := OrderDeps(bt, deps);
    assert Order(bt) == od + [t];
    ReachUnfold(g, t);
    NotReachedBack(g, t);
    DepsReached(g, t);
    OrderAppendRoot(g, completes, t, od, ReachSeq(g, g[t]));
  }

  lemma DepsReached(g: Graph, t: string)
    requires t in g && Closed(g)
    ensures forall d :: d in g[t] ==> d in ReachSeq(g, g[t])
  {
    forall d | d in g[t] ensures d in ReachSeq(g, g[t]) {
      var k :| 0 <= k < |g[t]| && g[t][k] == d;
      ReachSelf(g, d);
      ReachSeqMember(g, g[t], d);
    }
  }

  /** Appending the target itself after its dependencies' builds keeps the order facts. */
  lemma OrderAppendRoot(g: Graph, completes: set<string>, t: string, od: seq<string>, rs: set<string>)
    requires t in g && t !in completes && t !in rs
    requires NoDups(od) && Elems(od) == (completes + rs) - completes
    requires DepOrdered(g, completes, od)
    requires forall d :: d in g[t] ==> d in rs
    ensures var o := od + [t];
      && NoDups(o)
      && Elems(o) == ({t} + rs) - completes
      && DepOrdered(g, completes, o)
      && o[|o| - 1] == t
  {
    var o := od + [t];
    assert t !in od by { assert t !in Elems(od); }
    NoDupsAppend(od, [t]);
    ElemsAppend(od, [t]);
    assert Elems([t]) == {t};
    forall i, d | 0 <= i < |o| && o[i] in g && d in g[o[i]]
      ensures d in completes || d in o[..i]
    {
      if i < |od| {
        assert o[i] == od[i] && o[..i] == od[..i];
      } else {
        assert o[..i] == od;
        if d !in completes { assert d in Elems(od); }
      }
    }
  }

  /** In an acyclic graph no dependency leads back to its dependent. */
  lemma NotReachedBack(g: Graph, t: string)
    requires Acyclic(g) && t in g
    ensures t !in ReachSeq(g, g[t])
  {
    if t in ReachSeq(g, g[t]) {
      ReachSeqMember(g, g[t], t);
      var k :| 0 <= k < |g[t]| && t in ReachSet(g, g[t][k]);
      ReachShrinks(g, t, g[t][k]);
      ReachSelf(g, t);
      ReachDep(g, t, g[t][k]);
      ReachSetDownClosed(g, g[t][k]);
      assert false;
    }
  }

  lemma {:induction false} CreateDepsOrder(g: Graph, t: string, ds: seq<string>, completes: set<string>)
    requires PlanReady(g, completes) && t in g
    requires forall i :: 0 <= i < |ds| ==> ds[i] in g[t]
    ensures var (deps, c) := CreateDeps(g, t, ds, completes);
      var o := OrderDeps(BuildTarget(t, deps), deps);
      && NoDups(o)
      && Elems(o) == c - completes
      && DepOrdered(g, completes, o)
    decreases ReachSet(g, t), 0, |ds|
  {
    if |ds| > 0 {
      if ds[0] in completes {
        CreateDepsOrderSkip(g, t, ds, completes);
      } else {
        CreateDepsOrderExpand(g, t, ds, completes);
      }
    }
  }

  lemma {:induction false} CreateDepsOrderSkip(g: Graph, t: string, ds: seq<string>, completes: set<string>)
    requires PlanReady(g, completes) && t in g
    requires forall i :: 0 <= i < |ds| ==> ds[i] in g[t]
    requires |ds| > 0 && ds[0] in completes
    ensures var (deps, c) := CreateDeps(g, t, ds, completes);
      var o := OrderDeps(BuildTarget(t, deps), deps);
      && NoDups(o)
      && Elems(o) == c - completes
      && DepOrdered(g, completes, o)
    decreases ReachSet(g, t), 0, |ds|, 0
  {
    var (deps, c) := CreateDeps(g, t, ds, completes);
    var (rest, c') := CreateDeps(g, t, ds[1..], completes);
    assert deps == [CompletedBuildTargetDep(ds[0])] + rest && c == c';
    var parent := BuildTarget(t, deps);
    CreateDepsOrder(g, t, ds[1..], completes);
    OrderDepsReparent(parent, BuildTarget(t, rest), rest);
    assert deps[1..] == rest;
    assert OrderDeps(parent, deps) == OrderDeps(parent, rest);
  }

  lemma {:induction false} CreateDepsOrderExpand(g: Graph, t: string, ds: seq<string>, completes: set<string>)
    requires PlanReady(g, completes) && t in g
    requires forall i :: 0 <= i < |ds| ==> ds[i] in g[t]
    requires |ds| > 0 && ds[0] !in completes
    ensures var (deps, c) := CreateDeps(g, t, ds, completes);
      var o := OrderDeps(BuildTarget(t, deps), deps);
      && NoDups(o)
      && Elems(o) == c - completes
      && DepOrdered(g, completes, o)
    decreases ReachSet(g, t), 0, |ds|, 0
  {
    var d := ds[0];
    ReachShrinks(g, t, d);
    var (b, c1) := CreateBuildTarget(g, d, completes);
    DownClosedUnion(g, completes, d);
    var (rest, c2) := CreateDeps(g, t, ds[1..], c1);
    var deps := CreateDepsExpandShape(g, t, ds, completes);
    var parent := BuildTarget(t, deps);
    CreateBuildTargetOrder(g, d, completes);
    CreateDepsOrder(g, t, ds[1..], c1);
    OrderDepsReparent(parent, BuildTarget(t, rest), rest);
    assert deps[1..] == rest;
    assert OrderDeps(parent, deps) == Order(b) + OrderDeps(parent, rest);
    OrderConcat(g, completes, c1, c2, Order(b), OrderDeps(parent, rest));
  }

  /** One unfolding of the dependency loop when its first dependency is expanded. */
  lemma CreateDepsExpandShape(g: Graph, t: string, ds: seq<string>, completes: set<string>)
    returns (deps: seq<BuildTargetDep>)
    requires PlanReady(g, completes) && t in g
    requires forall i :: 0 <= i < |ds| ==> ds[i] in g[t]
    requires |ds| > 0 && ds[0] !in completes
    ensures ReachSet(g, ds[0]) < ReachSet(g, t)
    ensures var (b, c1) := CreateBuildTarget(g, ds[0], completes);
      DownClosed(g, c1) &&
      var (rest, c2) := CreateDeps(g, t, ds[1..], c1);
      && deps == [IncompleteBuildTargetDep(b)] + rest
      && CreateDeps(g, t, ds, completes) == (deps, c2)
  {
    ReachShrinks(g, t, ds[0]);
    var (b, c1) := CreateBuildTarget(g, ds[0], completes);
    DownClosedUnion(g, completes, ds[0]);
    var (rest, c2) := CreateDeps(g, t, ds[1..], c1);
    deps := [IncompleteBuildTargetDep(b)] + rest;
  }

  /** Joining the builds of one expanded dependency with those of the later ones keeps the order facts. */
  lemma OrderConcat(g: Graph, c0: set<string>, c1: set<string>, c2: set<string>, ob: seq<string>, or: seq<string>)
    requires c0 <= c1 <= c2
    requires NoDups(ob) && Elems(ob) == c1 - c0 && DepOrdered(g, c0, ob)
    requires NoDups(or) && Elems(or) == c2 - c1 && DepOrdered(g, c1, or)
    ensures NoDups(ob + or) && Elems(ob + or) == c2 - c0 && DepOrdered(g, c0, ob + or)
  {
    NoDupsAppend(ob, or);
    ElemsAppend(ob, or);
    var o := ob + or;
    forall i, x | 0 <= i < |o| && o[i] in g && x in g[o[i]]
      ensures x in c0 || x in o[..i]
    {
      if i < |ob| {
        assert o[i] == ob[i] && o[..i] == ob[..i];
      } else {
        assert o[i] == or[i - |ob|];
        assert o[..i] == ob + or[..i - |ob|];
        if x in c1 && x !in c0 {
          assert x in Elems(ob);
        }
      }
    }
  }

  /** The post-order of a dependency list does not depend on which node holds it. */
  lemma {:induction false} OrderDepsReparent(p: BuildTarget, q: BuildTarget, ds: seq<BuildTargetDep>)
    requires forall i :: 0 <= i < |ds| ==> ds[i] in p.deps && ds[i] in q.deps
    ensures OrderDeps(p, ds) == OrderDeps(q, ds)
    decreases |ds|
  {
    if |ds| > 0 {
      OrderDepsReparent(p, q, ds[1..]);
    }
  }

  /** The build events of a plan: every target reachable from the root is
      built exactly once, nothing else is built, each target after all of its
      dependencies, and the root last. */
  lemma PlanBuildsReachableOnce(g: Graph, root: string)
    requires Closed(g) && Acyclic(g) && root in g
    ensures var builds := BuildsOf(PlanSteps(CreateBuildPlan(g, root)));
      && NoDups(builds)
      && Elems(builds) == ReachSet(g, root)
      && DepOrdered(g, {}, builds)
      && builds[|builds| - 1] == root
  {
    CreateBuildTargetOrder(g, root, {});
    StepsBuildOrder(CreateBuildTarget(g, root, {}).0);
  }

  //----------------------------------------------------------------------
  // Rendering

  /** `buildStepToString`. */
  function BuildStepToString(step: BuildStep): (s: string)
    ensures StartsWith(s, step.target + " - ")
    ensures s[|step.target + " - "|..] == StepText(step)
  {
    var prefix := step.target + " - ";
    StartsWithAppend(prefix, StepText(step));
    assert (prefix + StepText(step))[|prefix|..] == StepText(step);
    prefix + StepText(step)
  }

  /** The part of a step's line after `<target> - `. */
  function StepText(step: BuildStep): string {
    match step
    case BeginTarget(_) => "begin"
    case BeginBuildTargetDependencies(_, deps) => "  build " + NatToString(|deps|) + " dependencies"
    case EndBuildTargetDependencies(_, deps) => "  end " + NatToString(|deps|) + " dependencies"
    case BuildTargetDependency(_, dep) => "    build depedency \"" + dep + "\""
    case SkipCompleteTargetDependency(_, dep) => "    skipping depedency \"" + dep + "\" built previously"
    case BuildTargetStep(_) => "  building"
    case EndTarget(_) => "end"
  }

  /** The kind of a step, numbered in declaration order. */
  function StepKind(step: BuildStep): nat {
    match step
    case BeginTarget(_) => 0
    case BeginBuildTargetDependencies(_, _) => 1
    case EndBuildTargetDependencies(_, _) => 2
    case BuildTargetDependency(_, _) => 3
    case SkipCompleteTargetDependency(_, _) => 4
    case BuildTargetStep(_) => 5
    case EndTarget(_) => 6
  }

  /** Reads a step's kind back from its text, by its first, third, fifth and
      eighth characters. */
  function KindOfText(r: string): nat {
    if |r| == 0 then 7
    else if r[0] == 'b' then 0
    else if r[0] == 'e' then 6
    else if |r| < 8 then 7
    else if r[2] == 'e' then 2
    else if r[2] == 'b' then (if r[7] == 'i' then 5 else 1)
    else if r[4] == 'b' then 3
    else 4
  }

  /** The text of every step determines its kind. */
  lemma StepTextShowsKind(step: BuildStep)
    ensures KindOfText(StepText(step)) == StepKind(step)
  {
    var r := StepText(step);
    match step
    case BeginBuildTargetDependencies(_, deps) =>
      var lit := "  build ";
      assert r == lit + (NatToString(|deps|) + " dependencies");
      assert r[0] == lit[0] && r[2] == lit[2] && r[7] == lit[7];
    case EndBuildTargetDependencies(_, deps) =>
      var lit := "  end ";
      assert r == lit + (NatToString(|deps|) + " dependencies");
      assert r[0] == lit[0] && r[2] == lit[2] && |r| >= 8;
    case BuildTargetDependency(_, dep) =>
      var lit := "    build depedency \"";
      assert r == lit + (dep + "\"");
      assert r[0] == lit[0] && r[2] == lit[2] && r[4] == lit[4];
    case SkipCompleteTargetDependency(_, dep) =>
      var lit := "    skipping depedency \"";
      assert r == lit + (dep + "\" built previously");
      assert r[0] == lit[0] && r[2] == lit[2] && r[4] == lit[4];
    case _ =>
  }

  /** Two steps of one target but of different kinds print different lines. */
  lemma StepLinesDistinguishKinds(a: BuildStep, b: BuildStep)
    requires a.target == b.target && StepKind(a) != StepKind(b)
    ensures BuildStepToString(a) != BuildStepToString(b)
  {
    StepTextShowsKind(a);
    StepTextShowsKind(b);
  }
}
