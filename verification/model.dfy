/** The resolved build model (`MakeSpec`): plugins, registered actions and
    targets, each target's dependencies held by name. */
module Model {
  import opened Wrappers
  import opened Js
  import opened Seqs
  import opened Graph

  /** A declared plugin. `plugin` is the loaded initialiser, attached once loading succeeds. */
  datatype Plugin = Plugin(name: string, builtIn: bool, alias: Option<string>, plugin: Option<JsValue>)

  /** A registered action: the name its plugin gave it and its qualified name. */
  datatype Action = Action(name: string, fullName: string)

  datatype Target = Target(name: string, action: Option<Action>, args: JsValue, deps: seq<string>)

  datatype MakeSpec = MakeSpec(
    plugins: seq<Plugin>,
    actions: seq<Action>,
    actionsByFullName: map<string, Action>,
    targets: seq<Target>,
    targetsByName: map<string, nat>)

  function EmptySpec(): MakeSpec {
    MakeSpec([], [], map[], [], map[])
  }

  /** The qualified-name rule, which the shown `Plugin` class does not define:
      a built-in plugin's action keeps its bare name, any other plugin's is
      prefixed with the plugin's alias (or, lacking one, its name) and `:`. */
  function ToFullName(p: Plugin, name: string): string {
    if p.builtIn then name else p.alias.GetOr(p.name) + ":" + name
  }

  function ActionNames(actions: seq<Action>): (r: seq<string>)
    ensures |r| == |actions|
    ensures forall i :: 0 <= i < |actions| ==> r[i] == actions[i].fullName
  {
    if |actions| == 0 then [] else [actions[0].fullName] + ActionNames(actions[1..])
  }

  /** The action list and the full-name index describe the same actions. */
  ghost predicate ActionsIndexed(s: MakeSpec) {
    && NoDups(ActionNames(s.actions))
    && s.actionsByFullName.Keys == Elems(ActionNames(s.actions))
    && forall i :: 0 <= i < |s.actions| ==> s.actionsByFullName[s.actions[i].fullName] == s.actions[i]
  }

  /** The target list and the name index describe the same targets, in insertion order. */
  ghost predicate TargetsIndexed(s: MakeSpec) {
    && (forall i :: 0 <= i < |s.targets| ==>
          s.targets[i].name in s.targetsByName && s.targetsByName[s.targets[i].name] == i)
    && (forall n :: n in s.targetsByName ==>
          s.targetsByName[n] < |s.targets| && s.targets[s.targetsByName[n]].name == n)
  }

  /** The dependency graph of the targets, keyed by name. */
  function DepGraph(s: MakeSpec): (g: Graph)
    requires TargetsIndexed(s)
    ensures g.Keys == s.targetsByName.Keys
  {
    map n | n in s.targetsByName :: s.targets[s.targetsByName[n]].deps
  }

  function TargetNames(ts: seq<Target>): (r: seq<string>)
    ensures |r| == |ts|
    ensures forall i :: 0 <= i < |ts| ==> r[i] == ts[i].name
  {
    if |ts| == 0 then [] else [ts[0].name] + TargetNames(ts[1..])
  }

  /** What a successfully built model guarantees: consistent indexes, every
      dependency and action reference resolved, and no dependency cycle. */
  ghost predicate WellFormed(s: MakeSpec) {
    && ActionsIndexed(s)
    && TargetsIndexed(s)
    && Closed(DepGraph(s))
    && Acyclic(DepGraph(s))
    && forall i :: 0 <= i < |s.targets| && s.targets[i].action.Some? ==>
         s.targets[i].action.value.fullName in s.actionsByFullName
  }

  function TargetByName(s: MakeSpec, n: string): (t: Target)
    requires TargetsIndexed(s) && n in s.targetsByName
    ensures t.name == n
    ensures t.deps == DepGraph(s)[n]
  {
    s.targets[s.targetsByName[n]]
  }
}
