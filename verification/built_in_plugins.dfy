/** The plugin that ships with ts-make: `@ts-make`, whose only action is `print`. */
module BuiltInPlugins {
  import opened Wrappers
  import opened Seqs
  import opened Js
  import opened Model
  import opened ModelBuilder

  /** The name under which `registerBuiltInPlugins` registers the plugin. */
  const TsmakePluginName: string := "@ts-make"

  /** The name under which the plugin registers its one action. */
  const PrintActionName: string := "print"

  /** `registerBuiltInPlugins`: the plugin names handed to the host, in order. */
  function BuiltInPluginRegistrations(): (r: seq<string>)
    ensures |r| == 1 && r[0] == TsmakePluginName
  {
    [TsmakePluginName]
  }

  /** `tsmakePlugin`, as the list of `registerAction` names it makes. */
  function TsmakeRegistrations(): (r: seq<string>)
    ensures |r| == 1 && r[0] == PrintActionName
  {
    [PrintActionName]
  }

  /** The plugin record of a built-in plugin: no alias, and its instance already present. */
  function BuiltInPlugin(name: string, instance: JsValue): (p: Plugin)
    ensures p.builtIn && p.name == name && p.alias.None?
  {
    Plugin(name, true, None, Some(instance))
  }

  /** Initialising `@ts-make` adds exactly one action, named plain `print`
      because a built-in plugin's actions are not prefixed, and fails exactly
      when some action already has that name. */
  lemma TsmakeRegistersPrint(s: MakeSpec, instance: JsValue)
    ensures var r := RegisterAll(s, BuiltInPlugin(TsmakePluginName, instance), TsmakeRegistrations());
      && (r.Ok? <==> PrintActionName !in s.actionsByFullName)
      && (r.Ok? ==> r.value.actions == s.actions + [Action(PrintActionName, PrintActionName)])
      && (r.Ok? ==> r.value.actionsByFullName == s.actionsByFullName[PrintActionName := Action(PrintActionName, PrintActionName)])
  {
    var p := BuiltInPlugin(TsmakePluginName, instance);
    assert ToFullName(p, PrintActionName) == PrintActionName;
    var one := RegisterAction(s, p, PrintActionName);
    if one.Ok? {
      assert RegisterAll(one.value, p, TsmakeRegistrations()[1..]) == Ok(one.value);
    }
  }

  /** `PrintActionArgs`: the value `PrintActionArgsSchema` accepts, a string
      or an array of strings. */
  datatype PrintArgs = PrintText(text: string) | PrintLines(lines: seq<string>)

  predicate AllStrings(items: seq<JsValue>) {
    forall i :: 0 <= i < |items| ==> items[i].JsString?
  }

  function Strings(items: seq<JsValue>): (r: seq<string>)
    requires AllStrings(items)
    ensures |r| == |items| && forall i :: 0 <= i < |items| ==> items[i] == JsString(r[i])
  {
    seq(|items|, i requires 0 <= i < |items| => items[i].s)
  }

  /** `PrintActionArgsSchema.safeParse`: the string alternative is tried first. */
  function ParsePrintArgs(v: JsValue): (r: Option<PrintArgs>)
    ensures r.Some? <==> v.JsString? || (v.JsArray? && AllStrings(v.items))
  {
    match v
    case JsString(s) => Some(PrintText(s))
    case JsArray(items) => if AllStrings(items) then Some(PrintLines(Strings(items))) else None
    case _ => None
  }

  function EncodePrintArgs(a: PrintArgs): JsValue {
    match a
    case PrintText(s) => JsString(s)
    case PrintLines(ls) => StringArray(ls)
  }

  /** Parsing recovers exactly the arguments a value encodes, and nothing else parses. */
  lemma PrintArgsRoundTrip(a: PrintArgs, v: JsValue)
    ensures ParsePrintArgs(EncodePrintArgs(a)) == Some(a)
    ensures ParsePrintArgs(v) == Some(a) ==> EncodePrintArgs(a) == v
  {
    if a.PrintLines? {
      assert Strings(StringArray(a.lines).items) == a.lines;
    }
    if v.JsArray? && ParsePrintArgs(v) == Some(a) {
      assert StringArray(a.lines).items == v.items;
    }
  }

  /** `PrintAction.run`: the lines handed to `ctx.log`, in order. */
  method PrintRun(args: PrintArgs) returns (log: seq<string>)
    ensures args.PrintText? ==> log == [args.text]
    ensures args.PrintLines? ==> log == args.lines
    ensures EncodePrintArgs(args) == (if args.PrintText? then JsString(log[0]) else StringArray(log))
  {
    match args {
      case PrintText(s) =>
        log := [s];
      case PrintLines(ls) =>
        log := [];
        var i := 0;
        while i < |ls|
          invariant 0 <= i <= |ls|
          invariant log == ls[..i]
        {
          log := log + [ls[i]];
          i := i + 1;
        }
    }
  }
}
