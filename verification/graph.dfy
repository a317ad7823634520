/** The target dependency graph, keyed by target name. Target names are
    unique within a build model, so a name stands for the target object the
    source passes around. */
module Graph {
  import opened Seqs

  /** Each target's dependency names, in declared order. */
  type Graph = map<string, seq<string>>

  /** Every dependency edge ends at a target of the graph. */
  ghost predicate Closed(g: Graph) {
    forall n, d :: n in g && d in g[n] ==> d in g
  }

  /** `w` follows dependency edges: each entry is a dependency of the one before. */
  ghost predicate IsWalk(g: Graph, w: seq<string>) {
    && |w| >= 1
    && (forall i :: 0 <= i < |w| ==> w[i] in g)
    && (forall i :: 0 <= i < |w| - 1 ==> w[i] in g && w[i + 1] in g[w[i]])
  }

  /** No walk visits a target twice: the dependency relation has no cycle. */
  ghost predicate Acyclic(g: Graph) {
    forall w :: IsWalk(g, w) ==> NoDups(w)
  }

  ghost predicate Reaches(g: Graph, a: string, b: string) {
    exists w :: IsWalk(g, w) && w[0] == a && w[|w| - 1] == b
  }

  /** The targets reachable from `a`, including `a` itself. */
  ghost function ReachSet(g: Graph, a: string): set<string> {
    set n | n in g && Reaches(g, a, n)
  }

  /** The targets reachable from any of `ds`. */
  ghost function ReachSeq(g: Graph, ds: seq<string>): set<string> {
    if |ds| == 0 then {} else ReachSet(g, ds[0]) + ReachSeq(g, ds[1..])
  }

  /** A set that contains everything reachable from each of its members. */
  ghost predicate DownClosed(g: Graph, c: set<string>) {
    forall n :: n in c ==> ReachSet(g, n) <= c
  }

  lemma ReachSelf(g: Graph, a: string)
    requires a in g
    ensures a in ReachSet(g, a)
  {
    assert IsWalk(g, [a]);
  }

  lemma WalkTail(g: Graph, w: seq<string>)
    requires IsWalk(g, w) && |w| >= 2
    ensures IsWalk(g, w[1..])
  {
    var t := w[1..];
    forall i | 0 <= i < |t| - 1 ensures t[i] in g && t[i + 1] in g[t[i]] {
      assert t[i] == w[i + 1] && t[i + 1] == w[i + 2];
    }
  }

  lemma WalkCons(g: Graph, t: string, w: seq<string>)
    requires t in g && IsWalk(g, w) && w[0] in g[t]
    ensures IsWalk(g, [t] + w)
  {
    var v := [t] + w;
    forall i | 0 <= i < |v| - 1 ensures v[i] in g && v[i + 1] in g[v[i]] {
      if i > 0 {
        assert v[i] == w[i - 1] && v[i + 1] == w[i];
      }
    }
  }

  lemma WalkConcat(g: Graph, u: seq<string>, w: seq<string>)
    requires IsWalk(g, u) && IsWalk(g, w) && u[|u| - 1] == w[0]
    ensures IsWalk(g, u + w[1..])
  {
    var v := u + w[1..];
    forall i | 0 <= i < |v| ensures v[i] in g {
      if i >= |u| { assert v[i] == w[i - |u| + 1]; }
    }
    forall i | 0 <= i < |v| - 1 ensures v[i] in g && v[i + 1] in g[v[i]] {
      if i >= |u| {
        assert v[i] == w[i - |u| + 1] && v[i + 1] == w[i - |u| + 2];
      } else if i == |u| - 1 {
        assert v[i] == w[0] && v[i + 1] == w[1];
      }
    }
  }

  lemma ReachTrans(g: Graph, a: string, b: string, c: string)
    requires Reaches(g, a, b) && Reaches(g, b, c)
    ensures Reaches(g, a, c)
  {
    var u :| IsWalk(g, u) && u[0] == a && u[|u| - 1] == b;
    var w :| IsWalk(g, w) && w[0] == b && w[|w| - 1] == c;
    WalkConcat(g, u, w);
    var v := u + w[1..];
    assert v[0] == a;
    if |w| == 1 {
      assert v == u;
    } else {
      assert v[|v| - 1] == w[|w| - 1];
    }
  }

  /** Everything reachable from a dependency is reachable from its dependent. */
  lemma ReachDep(g: Graph, t: string, d: string)
    requires t in g && d in g[t]
    ensures ReachSet(g, d) <= ReachSet(g, t)
  {
    forall n | n in ReachSet(g, d) ensures n in ReachSet(g, t) {
      var w :| IsWalk(g, w) && w[0] == d && w[|w| - 1] == n;
      WalkCons(g, t, w);
      assert ([t] + w)[|[t] + w| - 1] == n;
    }
  }

  /** In an acyclic graph a dependency reaches strictly less than its dependent. */
  lemma ReachShrinks(g: Graph, t: string, d: string)
    requires Acyclic(g) && t in g && d in g[t]
    ensures ReachSet(g, d) < ReachSet(g, t)
  {
    ReachDep(g, t, d);
    ReachSelf(g, t);
    if t in ReachSet(g, d) {
      var w :| IsWalk(g, w) && w[0] == d && w[|w| - 1] == t;
      WalkCons(g, t, w);
      ClosedWalkRepeats(t, w);
      assert false;
    }
  }

  lemma ClosedWalkRepeats(t: string, w: seq<string>)
    requires |w| >= 1 && w[|w| - 1] == t
    ensures !NoDups([t] + w)
  {
    var v := [t] + w;
    assert v[0] == v[|v| - 1];
  }

  lemma ReachSeqMember(g: Graph, ds: seq<string>, n: string)
    ensures n in ReachSeq(g, ds) <==> exists i :: 0 <= i < |ds| && n in ReachSet(g, ds[i])
  {
    if |ds| > 0 {
      ReachSeqMember(g, ds[1..], n);
      if n in ReachSeq(g, ds[1..]) {
        var i :| 0 <= i < |ds[1..]| && n in ReachSet(g, ds[1..][i]);
        assert ds[i + 1] == ds[1..][i];
      }
      forall i | 1 <= i < |ds| && n in ReachSet(g, ds[i])
        ensures n in ReachSeq(g, ds[1..])
      {
        assert ds[1..][i - 1] == ds[i];
      }
    }
  }

  lemma ReachSeqCons(g: Graph, x: string, ds: seq<string>)
    ensures ReachSeq(g, [x] + ds) == ReachSet(g, x) + ReachSeq(g, ds)
  {
    assert ([x] + ds)[1..] == ds;
  }

  /** The reach of a prefix grows by one dependency at a time. */
  lemma {:induction false} ReachSeqAppend(g: Graph, a: seq<string>, b: seq<string>)
    ensures ReachSeq(g, a + b) == ReachSeq(g, a) + ReachSeq(g, b)
    decreases |a|
  {
    if |a| == 0 {
      assert a + b == b;
    } else {
      assert (a + b)[1..] == a[1..] + b;
      ReachSeqAppend(g, a[1..], b);
    }
  }

  lemma ReachSeqPrefix(g: Graph, ds: seq<string>, i: nat)
    requires i < |ds|
    ensures ReachSeq(g, ds[..i + 1]) == ReachSeq(g, ds[..i]) + ReachSet(g, ds[i])
  {
    assert ds[..i + 1] == ds[..i] + [ds[i]];
    ReachSeqAppend(g, ds[..i], [ds[i]]);
    assert ReachSeq(g, [ds[i]]) == ReachSet(g, ds[i]) + ReachSeq(g, []);
  }

  /** A target reaches itself and whatever its dependencies reach, and nothing else. */
  lemma ReachUnfold(g: Graph, t: string)
    requires t in g
    ensures ReachSet(g, t) == {t} + ReachSeq(g, g[t])
  {
    ReachSelf(g, t);
    forall n | n in ReachSet(g, t) ensures n in {t} + ReachSeq(g, g[t]) {
      var w :| IsWalk(g, w) && w[0] == t && w[|w| - 1] == n;
      if |w| > 1 {
        WalkTail(g, w);
        var k :| 0 <= k < |g[t]| && g[t][k] == w[1];
        assert w[1..][|w[1..]| - 1] == n;
        assert n in ReachSet(g, g[t][k]);
        ReachSeqMember(g, g[t], n);
      }
    }
    forall n | n in ReachSeq(g, g[t]) ensures n in ReachSet(g, t) {
      ReachSeqMember(g, g[t], n);
      var k :| 0 <= k < |g[t]| && n in ReachSet(g, g[t][k]);
      ReachDep(g, t, g[t][k]);
    }
  }

  lemma ReachSetDownClosed(g: Graph, a: string)
    ensures DownClosed(g, ReachSet(g, a))
  {
    forall n, m | n in ReachSet(g, a) && m in ReachSet(g, n)
      ensures m in ReachSet(g, a)
    {
      ReachTrans(g, a, n, m);
    }
  }

  /** A strictly decreasing rank along every edge rules out cycles. */
  lemma RankedAcyclic(g: Graph, rank: map<string, nat>)
    requires forall n :: n in g ==> n in rank
    requires forall n, d :: n in g && d in g[n] ==> d in rank && rank[d] < rank[n]
    ensures Acyclic(g)
  {
    forall w | IsWalk(g, w) ensures NoDups(w) {
      forall i, j | 0 <= i < j < |w| ensures w[i] != w[j] {
        RankDecreasesAlongWalk(g, rank, w, i, j);
      }
    }
  }

  lemma RankDecreasesAlongWalk(g: Graph, rank: map<string, nat>, w: seq<string>, i: nat, j: nat)
    requires forall n :: n in g ==> n in rank
    requires forall n, d :: n in g && d in g[n] ==> d in rank && rank[d] < rank[n]
    requires IsWalk(g, w) && i < j < |w|
    ensures rank[w[j]] < rank[w[i]]
    decreases j - i
  {
    assert w[j - 1] in g && w[j] in g[w[j - 1]];
    if i < j - 1 {
      RankDecreasesAlongWalk(g, rank, w, i, j - 1);
    }
  }
}
