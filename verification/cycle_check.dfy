/** Dependency-cycle detection, shared by the model builder
    (`checkTargetForDepCycle`) and the legacy configuration converter
    (`checkTargetForDependsCycle`): a depth-first walk from every target that
    carries the current path and stops at the first dependency already on it. */
module CycleCheck {
  import opened Wrappers
  import opened Seqs
  import opened Graph

  /** Every walk from `t`, appended to `path`, stays free of repeats. */
  ghost predicate AllWalksFresh(g: Graph, path: seq<string>, t: string) {
    forall w :: IsWalk(g, w) && w[0] == t ==> NoDups(path + w)
  }

  /** A reported cycle: a walk whose last entry already occurs before it. */
  ghost predicate IsCyclePath(g: Graph, c: seq<string>) {
    && IsWalk(g, c)
    && |c| >= 2
    && NoDups(c[..|c| - 1])
    && c[|c| - 1] in c[..|c| - 1]
  }

  /** `checkTargetForDepCycle(target, path)`: `None` when no cycle is found
      below `t`, otherwise the path so far, then `t`, down to the repeated target. */
  function CheckTarget(g: Graph, t: string, path: seq<string>): (r: Option<seq<string>>)
    requires Closed(g) && t in g
    requires IsWalk(g, path + [t]) && NoDups(path + [t])
    ensures r.Some? ==> IsCyclePath(g, r.value)
    ensures r.Some? ==> |r.value| > |path| + 1 && r.value[..|path| + 1] == path + [t]
    decreases |g| - |path|, 1
  {
    CheckDeps(g, path + [t], g[t])
  }

  /** The loop over one target's dependencies, with `newDeps` the path ending at that target. */
  function CheckDeps(g: Graph, newDeps: seq<string>, ds: seq<string>): (r: Option<seq<string>>)
    requires Closed(g)
    requires IsWalk(g, newDeps) && NoDups(newDeps)
    requires forall i :: 0 <= i < |ds| ==> ds[i] in g[newDeps[|newDeps| - 1]]
    ensures r.Some? ==> IsCyclePath(g, r.value)
    ensures r.Some? ==> |r.value| > |newDeps| && r.value[..|newDeps|] == newDeps
    decreases |g| - |newDeps| + 1, 0, |ds|
  {
    if |ds| == 0 then None
    else
      var d := ds[0];
      if d in newDeps then
        CycleFound(g, newDeps, d);
        Some(newDeps + [d])
      else
        WalkExtend(g, newDeps, d);
        NoDupsBound(newDeps, g.Keys);
        match CheckTarget(g, d, newDeps)
        case Some(c) => Some(c)
        case None => CheckDeps(g, newDeps, ds[1..])
  }

  /** `checkTargetsForDepCycles`: every target in order, first cycle wins. */
  function CheckAll(g: Graph, ts: seq<string>): (r: Option<seq<string>>)
    requires Closed(g)
    requires forall i :: 0 <= i < |ts| ==> ts[i] in g
    ensures r.Some? ==> IsCyclePath(g, r.value)
  {
    if |ts| == 0 then None
    else
      assert IsWalk(g, [] + [ts[0]]);
      match CheckTarget(g, ts[0], [])
      case Some(c) => Some(c)
      case None => CheckAll(g, ts[1..])
  }

  lemma WalkExtend(g: Graph, p: seq<string>, d: string)
    requires IsWalk(g, p) && NoDups(p) && Closed(g)
    requires d in g[p[|p| - 1]] && d !in p
    ensures IsWalk(g, p + [d]) && NoDups(p + [d])
  {
    var q := p + [d];
    forall i | 0 <= i < |q| - 1 ensures q[i] in g && q[i + 1] in g[q[i]] {
      if i < |p| - 1 { assert q[i] == p[i] && q[i + 1] == p[i + 1]; }
    }
  }

  lemma CycleFound(g: Graph, p: seq<string>, d: string)
    requires IsWalk(g, p) && NoDups(p) && Closed(g)
    requires d in g[p[|p| - 1]] && d in p
    ensures IsCyclePath(g, p + [d])
    ensures (p + [d])[..|p|] == p
  {
    var q := p + [d];
    assert q[..|q| - 1] == p;
    forall i | 0 <= i < |q| - 1 ensures q[i] in g && q[i + 1] in g[q[i]] {
      if i < |p| - 1 { assert q[i] == p[i] && q[i + 1] == p[i + 1]; }
    }
  }

  /** The dependency loop finds nothing exactly when every walk from every
      listed dependency stays free of repeats. */
  lemma {:induction false} CheckDepsNoneIff(g: Graph, newDeps: seq<string>, ds: seq<string>)
    requires Closed(g)
    requires IsWalk(g, newDeps) && NoDups(newDeps)
    requires forall i :: 0 <= i < |ds| ==> ds[i] in g[newDeps[|newDeps| - 1]]
    ensures CheckDeps(g, newDeps, ds).None? <==>
      forall i :: 0 <= i < |ds| ==> AllWalksFresh(g, newDeps, ds[i])
    decreases |g| - |newDeps| + 1, 0, |ds|
  {
    if |ds| > 0 {
      var d := ds[0];
      assert IsWalk(g, [d]);
      if d in newDeps {
        assert !NoDups(newDeps + [d]) by {
          var k :| 0 <= k < |newDeps| && newDeps[k] == d;
          assert (newDeps + [d])[k] == (newDeps + [d])[|newDeps|];
        }
      } else {
        WalkExtend(g, newDeps, d);
        NoDupsBound(newDeps, g.Keys);
        CheckTargetNoneIff(g, d, newDeps);
        CheckDepsNoneIff(g, newDeps, ds[1..]);
        if CheckTarget(g, d, newDeps).None? {
          assert forall i :: 1 <= i < |ds| ==> ds[i] == ds[1..][i - 1];
        }
      }
    }
  }

  /** A target is accepted exactly when no walk from it repeats a target of the path. */
  lemma {:induction false} CheckTargetNoneIff(g: Graph, t: string, path: seq<string>)
    requires Closed(g) && t in g
    requires IsWalk(g, path + [t]) && NoDups(path + [t])
    ensures CheckTarget(g, t, path).None? <==> AllWalksFresh(g, path, t)
    decreases |g| - |path|, 1
  {
    var nd := path + [t];
    assert nd[|nd| - 1] == t;
    CheckDepsNoneIff(g, nd, g[t]);
    if CheckTarget(g, t, path).None? {
      FreshFromDeps(g, path, t);
    } else if AllWalksFresh(g, path, t) {
      DepsFreshFromTarget(g, path, t);
    }
  }

  lemma FreshFromDeps(g: Graph, path: seq<string>, t: string)
    requires Closed(g) && t in g
    requires NoDups(path + [t])
    requires forall k :: 0 <= k < |g[t]| ==> AllWalksFresh(g, path + [t], g[t][k])
    ensures AllWalksFresh(g, path, t)
  {
    var nd := path + [t];
    forall w | IsWalk(g, w) && w[0] == t ensures NoDups(path + w) {
      if |w| == 1 {
        assert path + w == nd;
      } else {
        var k :| 0 <= k < |g[t]| && g[t][k] == w[1];
        WalkTail(g, w);
        assert AllWalksFresh(g, nd, g[t][k]);
        assert path + w == nd + w[1..];
      }
    }
  }

  lemma DepsFreshFromTarget(g: Graph, path: seq<string>, t: string)
    requires Closed(g) && t in g
    requires AllWalksFresh(g, path, t)
    ensures forall k :: 0 <= k < |g[t]| ==> AllWalksFresh(g, path + [t], g[t][k])
  {
    forall k, w | 0 <= k < |g[t]| && IsWalk(g, w) && w[0] == g[t][k]
      ensures NoDups(path + [t] + w)
    {
      WalkCons(g, t, w);
      assert path + ([t] + w) == path + [t] + w;
    }
  }

  /** The whole check passes exactly when no walk from a listed target repeats. */
  lemma {:induction false} CheckAllNoneIff(g: Graph, ts: seq<string>)
    requires Closed(g)
    requires forall i :: 0 <= i < |ts| ==> ts[i] in g
    ensures CheckAll(g, ts).None? <==> forall i :: 0 <= i < |ts| ==> AllWalksFresh(g, [], ts[i])
  {
    if |ts| > 0 {
      assert IsWalk(g, [] + [ts[0]]);
      CheckTargetNoneIff(g, ts[0], []);
      CheckAllNoneIff(g, ts[1..]);
      assert forall i :: 1 <= i < |ts| ==> ts[i] == ts[1..][i - 1];
    }
  }

  /** Checking every target of the graph succeeds iff the graph is acyclic. */
  lemma CheckAllAcyclic(g: Graph, ts: seq<string>)
    requires Closed(g)
    requires Elems(ts) == g.Keys
    ensures CheckAll(g, ts).None? <==> Acyclic(g)
  {
    CheckAllNoneIff(g, ts);
    if CheckAll(g, ts).None? {
      forall w | IsWalk(g, w) ensures NoDups(w) {
        assert w[0] in Elems(ts);
        var i :| 0 <= i < |ts| && ts[i] == w[0];
        assert AllWalksFresh(g, [], ts[i]);
        assert [] + w == w;
      }
    } else {
      var i :| 0 <= i < |ts| && !AllWalksFresh(g, [], ts[i]);
      var w :| IsWalk(g, w) && w[0] == ts[i] && !NoDups([] + w);
      assert [] + w == w;
    }
  }
}
