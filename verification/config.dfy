/** The configuration shape (`TargetSchema`, `FullPluginSchema`,
    `PluginSchema`, `ConfigSchema`): typed records, a validity predicate per
    schema over raw JavaScript values, and the parser a schema implements. */
module ConfigShape {
  import opened Wrappers
  import opened Js

  /** A target's `deps`: one string or an array of strings. */
  datatype Deps = DepsName(name: string) | DepsList(names: seq<string>)

  datatype TargetConfig = TargetConfig(name: string, deps: Nullish<Deps>, action: Nullish<string>, args: JsValue)

  /** A plugin declaration: a bare module name or `{name, alias?}`. */
  datatype PluginDecl = PluginName(name: string) | FullPlugin(name: string, alias: Nullish<string>)

  datatype Config = Config(plugins: Nullish<seq<PluginDecl>>, targets: Nullish<seq<TargetConfig>>)

  //----------------------------------------------------------------------
  // Validity over raw values

  predicate IsStringArray(v: JsValue) {
    v.JsArray? && forall i :: 0 <= i < |v.items| ==> v.items[i].JsString?
  }

  /** An optional, nullable string field: absent, `undefined`, `null` or a string. */
  predicate OptNullString(o: map<string, JsValue>, k: string) {
    k in o ==> IsNullish(o[k]) || o[k].JsString?
  }

  /** `TargetSchema`: a strict object with a string `name`, `deps` a string
      or string array (optional, nullable), `action` a string (optional,
      nullable) and any `args`. */
  predicate ValidTarget(v: JsValue) {
    && v.JsObject?
    && (forall k :: k in v.props ==> k in {"name", "deps", "action", "args"})
    && "name" in v.props && v.props["name"].JsString?
    && ("deps" in v.props ==> IsNullish(v.props["deps"]) || v.props["deps"].JsString? || IsStringArray(v.props["deps"]))
    && OptNullString(v.props, "action")
  }

  /** `PluginSchema`: a string, or an object (not strict) with a string `name`
      and an optional, nullable string `alias`. */
  predicate ValidPlugin(v: JsValue) {
    || v.JsString?
    || (&& v.JsObject?
        && "name" in v.props && v.props["name"].JsString?
        && OptNullString(v.props, "alias"))
  }

  /** An optional, nullable array field of plugin declarations (`plugins`) or of targets. */
  predicate OptNullArrayOf(o: map<string, JsValue>, k: string, plugins: bool) {
    k in o ==>
      || IsNullish(o[k])
      || (&& o[k].JsArray?
          && forall i :: 0 <= i < |o[k].items| ==>
               if plugins then ValidPlugin(o[k].items[i]) else ValidTarget(o[k].items[i]))
  }

  /** `ConfigSchema`: a strict object with optional, nullable `plugins` and `targets` arrays. */
  predicate ValidConfig(v: JsValue) {
    && v.JsObject?
    && (forall k :: k in v.props ==> k in {"plugins", "targets"})
    && OptNullArrayOf(v.props, "plugins", true)
    && OptNullArrayOf(v.props, "targets", false)
  }

  //----------------------------------------------------------------------
  // Parsing

  /** A field read as `undefined | null | value`. */
  function Field(o: map<string, JsValue>, k: string): (r: JsValue)
    ensures k !in o ==> r == JsUndefined
  {
    if k in o then o[k] else JsUndefined
  }

  function ParseDeps(v: JsValue): (r: Option<Nullish<Deps>>)
    ensures r.Some? <==> IsNullish(v) || v.JsString? || IsStringArray(v)
    ensures r.Some? && IsNullish(v) ==> r.value == (if v.JsNull? then Null else Undefined)
  {
    match v
    case JsUndefined => Some(Undefined)
    case JsNull => Some(Null)
    case JsString(s) => Some(Value(DepsName(s)))
    case JsArray(items) =>
      var names := ParseStrings(items);
      if names.Some? then Some(Value(DepsList(names.value))) else None
    case _ => None
  }

  function ParseStrings(items: seq<JsValue>): (r: Option<seq<string>>)
    ensures r.Some? <==> forall i :: 0 <= i < |items| ==> items[i].JsString?
    ensures r.Some? ==> |r.value| == |items| && forall i :: 0 <= i < |items| ==> items[i] == JsString(r.value[i])
  {
    if |items| == 0 then Some([])
    else if !items[0].JsString? then None
    else
      match ParseStrings(items[1..])
      case None => None
      case Some(rest) => Some([items[0].s] + rest)
  }

  function ParseNullString(v: JsValue): (r: Option<Nullish<string>>)
    ensures r.Some? <==> IsNullish(v) || v.JsString?
  {
    match v
    case JsUndefined => Some(Undefined)
    case JsNull => Some(Null)
    case JsString(s) => Some(Value(s))
    case _ => None
  }

  /** `TargetSchema.safeParse`. */
  function ParseTarget(v: JsValue): (r: Option<TargetConfig>)
    ensures r.Some? <==> ValidTarget(v)
    ensures r.Some? ==> JsString(r.value.name) == v.props["name"]
  {
    if !v.JsObject? then None
    else if !(forall k :: k in v.props ==> k in {"name", "deps", "action", "args"}) then None
    else if !("name" in v.props && v.props["name"].JsString?) then None
    else
      var deps := ParseDeps(Field(v.props, "deps"));
      var action := ParseNullString(Field(v.props, "action"));
      if deps.None? || action.None? then None
      else Some(TargetConfig(v.props["name"].s, deps.value, action.value, Field(v.props, "args")))
  }

  /** `PluginSchema.safeParse`; keys other than `name` and `alias` are dropped. */
  function ParsePlugin(v: JsValue): (r: Option<PluginDecl>)
    ensures r.Some? <==> ValidPlugin(v)
  {
    match v
    case JsString(s) => Some(PluginName(s))
    case JsObject(o) =>
      if !("name" in o && o["name"].JsString?) then None
      else
        var alias := ParseNullString(Field(o, "alias"));
        if alias.None? then None else Some(FullPlugin(o["name"].s, alias.value))
    case _ => None
  }

  function ParsePlugins(items: seq<JsValue>): (r: Option<seq<PluginDecl>>)
    ensures r.Some? <==> forall i :: 0 <= i < |items| ==> ValidPlugin(items[i])
    ensures r.Some? ==> |r.value| == |items| && forall i :: 0 <= i < |items| ==> ParsePlugin(items[i]) == Some(r.value[i])
  {
    if |items| == 0 then Some([])
    else
      match (ParsePlugin(items[0]), ParsePlugins(items[1..]))
      case (Some(p), Some(rest)) => Some([p] + rest)
      case _ => None
  }

  function ParseTargets(items: seq<JsValue>): (r: Option<seq<TargetConfig>>)
    ensures r.Some? <==> forall i :: 0 <= i < |items| ==> ValidTarget(items[i])
    ensures r.Some? ==> |r.value| == |items| && forall i :: 0 <= i < |items| ==> ParseTarget(items[i]) == Some(r.value[i])
  {
    if |items| == 0 then Some([])
    else
      match (ParseTarget(items[0]), ParseTargets(items[1..]))
      case (Some(t), Some(rest)) => Some([t] + rest)
      case _ => None
  }

  /** `ConfigSchema.safeParse`. */
  function ParseConfig(v: JsValue): (r: Option<Config>)
    ensures r.Some? <==> ValidConfig(v)
  {
    if !v.JsObject? then None
    else if !(forall k :: k in v.props ==> k in {"plugins", "targets"}) then None
    else
      var plugins := ParsePluginsField(Field(v.props, "plugins"));
      var targets := ParseTargetsField(Field(v.props, "targets"));
      if plugins.None? || targets.None? then None
      else Some(Config(plugins.value, targets.value))
  }

  function ParsePluginsField(v: JsValue): (r: Option<Nullish<seq<PluginDecl>>>)
    ensures r.Some? <==> IsNullish(v) || (v.JsArray? && forall i :: 0 <= i < |v.items| ==> ValidPlugin(v.items[i]))
  {
    match v
    case JsUndefined => Some(Undefined)
    case JsNull => Some(Null)
    case JsArray(items) => (match ParsePlugins(items) case Some(ps) => Some(Value(ps)) case None => None)
    case _ => None
  }

  function ParseTargetsField(v: JsValue): (r: Option<Nullish<seq<TargetConfig>>>)
    ensures r.Some? <==> IsNullish(v) || (v.JsArray? && forall i :: 0 <= i < |v.items| ==> ValidTarget(v.items[i]))
  {
    match v
    case JsUndefined => Some(Undefined)
    case JsNull => Some(Null)
    case JsArray(items) => (match ParseTargets(items) case Some(ts) => Some(Value(ts)) case None => None)
    case _ => None
  }

  //----------------------------------------------------------------------
  // Encoding: the raw value a configuration file would export

  function EncodeNullish(n: Nullish<JsValue>, k: string): map<string, JsValue> {
    match n
    case Undefined => map[]
    case Null => map[k := JsNull]
    case Value(v) => map[k := v]
  }

  function EncodeDeps(d: Nullish<Deps>): Nullish<JsValue> {
    match d
    case Undefined => Undefined
    case Null => Null
    case Value(DepsName(s)) => Value(JsString(s))
    case Value(DepsList(xs)) => Value(StringArray(xs))
  }

  function EncodeString(a: Nullish<string>): Nullish<JsValue> {
    match a
    case Undefined => Undefined
    case Null => Null
    case Value(s) => Value(JsString(s))
  }

  function EncodeTarget(t: TargetConfig): JsValue {
    JsObject(map["name" := JsString(t.name)]
      + EncodeNullish(EncodeDeps(t.deps), "deps")
      + EncodeNullish(EncodeString(t.action), "action")
      + (if t.args.JsUndefined? then map[] else map["args" := t.args]))
  }

  function EncodePlugin(p: PluginDecl): JsValue {
    match p
    case PluginName(s) => JsString(s)
    case FullPlugin(n, a) => JsObject(map["name" := JsString(n)] + EncodeNullish(EncodeString(a), "alias"))
  }

  function EncodeAll(ps: seq<PluginDecl>): (r: seq<JsValue>)
    ensures |r| == |ps| && forall i :: 0 <= i < |ps| ==> r[i] == EncodePlugin(ps[i])
  {
    if |ps| == 0 then [] else [EncodePlugin(ps[0])] + EncodeAll(ps[1..])
  }

  function EncodeTargets(ts: seq<TargetConfig>): (r: seq<JsValue>)
    ensures |r| == |ts| && forall i :: 0 <= i < |ts| ==> r[i] == EncodeTarget(ts[i])
  {
    if |ts| == 0 then [] else [EncodeTarget(ts[0])] + EncodeTargets(ts[1..])
  }

  function EncodeConfig(c: Config): JsValue {
    JsObject(
      (match c.plugins
       case Undefined => map[]
       case Null => map["plugins" := JsNull]
       case Value(ps) => map["plugins" := JsArray(EncodeAll(ps))])
      + (match c.targets
         case Undefined => map[]
         case Null => map["targets" := JsNull]
         case Value(ts) => map["targets" := JsArray(EncodeTargets(ts))]))
  }

  //----------------------------------------------------------------------
  // Round trips and strictness

  lemma ParseStringsOfArray(xs: seq<string>)
    ensures ParseStrings(StringArray(xs).items) == Some(xs)
  {
    var r := ParseStrings(StringArray(xs).items);
    assert r.value == xs;
  }

  /** The value a field reads as when `EncodeNullish` wrote it. */
  function NullishJs(n: Nullish<JsValue>): JsValue {
    match n
    case Undefined => JsUndefined
    case Null => JsNull
    case Value(v) => v
  }

  lemma EncodedTargetFields(t: TargetConfig)
    ensures var o := EncodeTarget(t).props;
      && (forall k :: k in o ==> k in {"name", "deps", "action", "args"})
      && "name" in o && o["name"] == JsString(t.name)
      && Field(o, "deps") == NullishJs(EncodeDeps(t.deps))
      && Field(o, "action") == NullishJs(EncodeString(t.action))
      && Field(o, "args") == t.args
  {
  }

  lemma ParseEncodeDeps(d: Nullish<Deps>)
    ensures ParseDeps(NullishJs(EncodeDeps(d))) == Some(d)
  {
    if d.Value? && d.v.DepsList? {
      ParseStringsOfArray(d.v.names);
    }
  }

  lemma ParseEncodeString(a: Nullish<string>)
    ensures ParseNullString(NullishJs(EncodeString(a))) == Some(a)
  {
  }

  /** Parsing the encoding of a target gives the target back. */
  lemma ParseEncodeTarget(t: TargetConfig)
    ensures ParseTarget(EncodeTarget(t)) == Some(t)
  {
    EncodedTargetFields(t);
    ParseEncodeDeps(t.deps);
    ParseEncodeString(t.action);
  }

  lemma ParseEncodePlugin(p: PluginDecl)
    ensures ParsePlugin(EncodePlugin(p)) == Some(p)
  {
  }

  lemma {:induction false} ParseEncodePlugins(ps: seq<PluginDecl>)
    ensures ParsePlugins(EncodeAll(ps)) == Some(ps)
  {
    if |ps| > 0 {
      var e := EncodeAll(ps);
      ParseEncodePlugin(ps[0]);
      assert e[1..] == EncodeAll(ps[1..]);
      ParseEncodePlugins(ps[1..]);
      assert ParsePlugins(e) == Some([ps[0]] + ps[1..]);
      assert [ps[0]] + ps[1..] == ps;
    }
  }

  lemma {:induction false} ParseEncodeTargets(ts: seq<TargetConfig>)
    ensures ParseTargets(EncodeTargets(ts)) == Some(ts)
  {
    if |ts| > 0 {
      var e := EncodeTargets(ts);
      ParseEncodeTarget(ts[0]);
      assert e[1..] == EncodeTargets(ts[1..]);
      ParseEncodeTargets(ts[1..]);
      assert ParseTargets(e) == Some([ts[0]] + ts[1..]);
      assert [ts[0]] + ts[1..] == ts;
    }
  }

  /** Parsing the encoding of a configuration gives it back. */
  lemma ParseEncodeConfig(c: Config)
    ensures ParseConfig(EncodeConfig(c)) == Some(c)
  {
    ParseEncodePluginsField(c);
    ParseEncodeTargetsField(c);
  }

  lemma ParseEncodePluginsField(c: Config)
    ensures ParsePluginsField(Field(EncodeConfig(c).props, "plugins")) == Some(c.plugins)
  {
    var o := EncodeConfig(c).props;
    match c.plugins {
      case Value(ps) =>
        ParseEncodePlugins(ps);
        assert Field(o, "plugins") == JsArray(EncodeAll(ps));
      case Null => assert Field(o, "plugins") == JsNull;
      case Undefined => assert "plugins" !in o;
    }
  }

  lemma ParseEncodeTargetsField(c: Config)
    ensures ParseTargetsField(Field(EncodeConfig(c).props, "targets")) == Some(c.targets)
  {
    var o := EncodeConfig(c).props;
    match c.targets {
      case Value(ts) =>
        ParseEncodeTargets(ts);
        assert Field(o, "targets") == JsArray(EncodeTargets(ts));
      case Null => assert Field(o, "targets") == JsNull;
      case Undefined => assert "targets" !in o;
    }
  }

  //----------------------------------------------------------------------
  // The converse: a valid value in canonical form is the encoding of what it parses to.
  // Canonical form rules out what parsing cannot see: a key present with
  // the value `undefined` (it parses as absent) and a plugin object's keys
  // beyond `name` and `alias` (they are dropped).

  predicate NoUndefinedValues(o: map<string, JsValue>) {
    forall k :: k in o ==> !o[k].JsUndefined?
  }

  predicate CanonicalTarget(v: JsValue) {
    v.JsObject? && NoUndefinedValues(v.props)
  }

  predicate CanonicalPlugin(v: JsValue) {
    || v.JsString?
    || (&& v.JsObject?
        && (forall k :: k in v.props ==> k in {"name", "alias"})
        && NoUndefinedValues(v.props))
  }

  predicate CanonicalConfig(v: JsValue) {
    && v.JsObject?
    && NoUndefinedValues(v.props)
    && ("plugins" in v.props && v.props["plugins"].JsArray? ==>
          forall i :: 0 <= i < |v.props["plugins"].items| ==> CanonicalPlugin(v.props["plugins"].items[i]))
    && ("targets" in v.props && v.props["targets"].JsArray? ==>
          forall i :: 0 <= i < |v.props["targets"].items| ==> CanonicalTarget(v.props["targets"].items[i]))
  }

  /** What `EncodeNullish` writes: the key exactly when the field is not
      `undefined`, holding the field's value. */
  lemma EncodeNullishShape(n: Nullish<JsValue>, k: string)
    ensures k in EncodeNullish(n, k) <==> !n.Undefined?
    ensures forall j :: j in EncodeNullish(n, k) ==> j == k && EncodeNullish(n, k)[j] == NullishJs(n)
  {
  }

  lemma EncodeParseDeps(x: JsValue)
    requires ParseDeps(x).Some?
    ensures NullishJs(EncodeDeps(ParseDeps(x).value)) == x
    ensures EncodeDeps(ParseDeps(x).value).Undefined? <==> x.JsUndefined?
  {
    if x.JsArray? {
      var xs := ParseStrings(x.items).value;
      assert StringArray(xs).items == x.items;
    }
  }

  lemma EncodeParseString(x: JsValue)
    requires ParseNullString(x).Some?
    ensures NullishJs(EncodeString(ParseNullString(x).value)) == x
    ensures EncodeString(ParseNullString(x).value).Undefined? <==> x.JsUndefined?
  {
  }

  /** A canonical valid target is the encoding of its parse. */
  lemma EncodeParseTarget(v: JsValue)
    requires ParseTarget(v).Some? && CanonicalTarget(v)
    ensures EncodeTarget(ParseTarget(v).value) == v
  {
    var t := ParseTarget(v).value;
    var o := v.props;
    var d := EncodeNullish(EncodeDeps(t.deps), "deps");
    var a := EncodeNullish(EncodeString(t.action), "action");
    var g: map<string, JsValue> := if t.args.JsUndefined? then map[] else map["args" := t.args];
    var e := map["name" := JsString(t.name)] + d + a + g;
    EncodeParseDeps(Field(o, "deps"));
    EncodeParseString(Field(o, "action"));
    EncodeNullishShape(EncodeDeps(t.deps), "deps");
    EncodeNullishShape(EncodeString(t.action), "action");
    assert forall k :: k in e <==> k in o;
    assert forall k :: k in e ==> e[k] == o[k];
    assert e == o;
  }

  lemma EncodeParsePlugin(v: JsValue)
    requires ParsePlugin(v).Some? && CanonicalPlugin(v)
    ensures EncodePlugin(ParsePlugin(v).value) == v
  {
    if v.JsObject? {
      var o := v.props;
      var p := ParsePlugin(v).value;
      EncodeParseString(Field(o, "alias"));
      EncodeNullishShape(EncodeString(p.alias), "alias");
      var e := map["name" := JsString(p.name)] + EncodeNullish(EncodeString(p.alias), "alias");
      assert forall k :: k in e <==> k in o;
      assert forall k :: k in e ==> e[k] == o[k];
      assert e == o;
    }
  }

  lemma EncodeParsePlugins(items: seq<JsValue>)
    requires ParsePlugins(items).Some?
    requires forall i :: 0 <= i < |items| ==> CanonicalPlugin(items[i])
    ensures EncodeAll(ParsePlugins(items).value) == items
  {
    var ps := ParsePlugins(items).value;
    forall i | 0 <= i < |items|
      ensures EncodeAll(ps)[i] == items[i]
    {
      EncodeParsePlugin(items[i]);
    }
  }

  lemma EncodeParseTargets(items: seq<JsValue>)
    requires ParseTargets(items).Some?
    requires forall i :: 0 <= i < |items| ==> CanonicalTarget(items[i])
    ensures EncodeTargets(ParseTargets(items).value) == items
  {
    var ts := ParseTargets(items).value;
    forall i | 0 <= i < |items|
      ensures EncodeTargets(ts)[i] == items[i]
    {
      EncodeParseTarget(items[i]);
    }
  }

  /** The plugins entry `EncodeConfig` writes for a parsed `plugins` field. */
  function PluginsEntry(n: Nullish<seq<PluginDecl>>): map<string, JsValue> {
    match n
    case Undefined => map[]
    case Null => map["plugins" := JsNull]
    case Value(ps) => map["plugins" := JsArray(EncodeAll(ps))]
  }

  function TargetsEntry(n: Nullish<seq<TargetConfig>>): map<string, JsValue> {
    match n
    case Undefined => map[]
    case Null => map["targets" := JsNull]
    case Value(ts) => map["targets" := JsArray(EncodeTargets(ts))]
  }

  lemma PluginsEntryOfParsed(o: map<string, JsValue>)
    requires ParsePluginsField(Field(o, "plugins")).Some?
    requires "plugins" in o ==> !o["plugins"].JsUndefined?
    requires "plugins" in o && o["plugins"].JsArray? ==>
      forall i :: 0 <= i < |o["plugins"].items| ==> CanonicalPlugin(o["plugins"].items[i])
    ensures PluginsEntry(ParsePluginsField(Field(o, "plugins")).value)
      == if "plugins" in o then map["plugins" := o["plugins"]] else map[]
  {
    if "plugins" in o && o["plugins"].JsArray? {
      EncodeParsePlugins(o["plugins"].items);
    }
  }

  lemma TargetsEntryOfParsed(o: map<string, JsValue>)
    requires ParseTargetsField(Field(o, "targets")).Some?
    requires "targets" in o ==> !o["targets"].JsUndefined?
    requires "targets" in o && o["targets"].JsArray? ==>
      forall i :: 0 <= i < |o["targets"].items| ==> CanonicalTarget(o["targets"].items[i])
    ensures TargetsEntry(ParseTargetsField(Field(o, "targets")).value)
      == if "targets" in o then map["targets" := o["targets"]] else map[]
  {
    if "targets" in o && o["targets"].JsArray? {
      EncodeParseTargets(o["targets"].items);
    }
  }

  /** A canonical valid configuration value is the encoding of its parse,
      so on canonical values parsing and encoding are inverse both ways. */
  lemma EncodeParseConfig(v: JsValue)
    requires ParseConfig(v).Some? && CanonicalConfig(v)
    ensures EncodeConfig(ParseConfig(v).value) == v
  {
    var o := v.props;
    var c := ParseConfig(v).value;
    PluginsEntryOfParsed(o);
    TargetsEntryOfParsed(o);
    var e := PluginsEntry(c.plugins) + TargetsEntry(c.targets);
    assert EncodeConfig(c).props == e;
    assert forall k :: k in e <==> k in o;
    assert forall k :: k in e ==> e[k] == o[k];
    assert e == o;
  }

  lemma EncodePluginCanonical(p: PluginDecl)
    ensures CanonicalPlugin(EncodePlugin(p))
  {
    if p.FullPlugin? {
      EncodeNullishShape(EncodeString(p.alias), "alias");
    }
  }

  lemma EncodeTargetCanonical(t: TargetConfig)
    ensures CanonicalTarget(EncodeTarget(t))
  {
    EncodeNullishShape(EncodeDeps(t.deps), "deps");
    EncodeNullishShape(EncodeString(t.action), "action");
  }

  /** Every encoding is canonical, so `EncodeConfig` is onto the canonical valid values. */
  lemma EncodeConfigCanonical(c: Config)
    ensures CanonicalConfig(EncodeConfig(c))
  {
    var o := EncodeConfig(c).props;
    assert o == PluginsEntry(c.plugins) + TargetsEntry(c.targets);
    if c.plugins.Value? {
      var ps := EncodeAll(c.plugins.v);
      assert o["plugins"] == JsArray(ps);
      forall i | 0 <= i < |ps|
        ensures CanonicalPlugin(ps[i])
      {
        EncodePluginCanonical(c.plugins.v[i]);
      }
    }
    if c.targets.Value? {
      var ts := EncodeTargets(c.targets.v);
      assert o["targets"] == JsArray(ts);
      forall i | 0 <= i < |ts|
        ensures CanonicalTarget(ts[i])
      {
        EncodeTargetCanonical(c.targets.v[i]);
      }
    }
  }

  /** Target objects are strict: any key beyond the four known ones is rejected. */
  lemma TargetRejectsExtraKey(o: map<string, JsValue>, k: string, x: JsValue)
    requires k !in {"name", "deps", "action", "args"}
    ensures ParseTarget(JsObject(o[k := x])) == None
  {
    assert k in o[k := x];
  }

  /** Configuration objects are strict too. */
  lemma ConfigRejectsExtraKey(o: map<string, JsValue>, k: string, x: JsValue)
    requires k !in {"plugins", "targets"}
    ensures ParseConfig(JsObject(o[k := x])) == None
  {
    assert k in o[k := x];
  }

  /** Plugin objects are not strict: an unknown key changes nothing. */
  lemma PluginIgnoresExtraKey(o: map<string, JsValue>, k: string, x: JsValue)
    requires k !in {"name", "alias"}
    ensures ParsePlugin(JsObject(o[k := x])) == ParsePlugin(JsObject(o))
  {
    assert Field(o[k := x], "alias") == Field(o, "alias");
  }
}
