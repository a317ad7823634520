/** Export files: files whose export is a configuration value — a JSON
    file, a JavaScript module with a default export, or a TypeScript file
    bundled to a JavaScript module first. The file system, module import,
    bundling and schema checks are oracles carried by `FileEnv`. */
module ExportFiles {
  import opened Wrappers
  import opened Text
  import opened Js

  datatype ExportKind = JSExportFile | JSONExportFile | TSExportFile

  datatype ExportFile = ExportFile(kind: ExportKind, filename: string)

  const JsExtensions: seq<string> := [".js", ".mjs", ".cjs"]
  const TsExtensions: seq<string> := [".ts"]
  const JsonExtensions: seq<string> := [".json"]
  /** Every recognised extension, in search priority order. */
  const ExportFileExtensions: seq<string> := JsExtensions + TsExtensions + JsonExtensions

  /** What the loaders need from the outside world.
      `importFile` imports a file by path (its `file:` URL), yielding the
      module namespace or the thrown error's text; `readJson` reads and
      parses a JSON file; `bundle(entry, outfile)` is the bundler call;
      `packageDir` finds the nearest directory holding a `package.json`;
      `isFile` tests that a path names a file. */
  datatype FileEnv = FileEnv(
    importFile: string -> Result<JsValue, string>,
    readJson: string -> Result<JsValue, string>,
    bundle: (string, string) -> Result<(), string>,
    cwd: string,
    packageDir: string -> Option<string>,
    isFile: string -> bool)

  /** A schema's `safeParse`: the parsed value or the rendered issues. */
  type Schema<T> = JsValue -> Result<T, string>

  predicate EndsWithAny(f: string, exts: seq<string>) {
    exists e :: e in exts && EndsWith(f, e)
  }

  function RecognizedExtensionError(f: string): string {
    f + " does not end with a recognized extension (" + JsonStringArray(ExportFileExtensions) + ")"
  }

  /** `filenameToExportFile`: the first matching group decides, JavaScript, then TypeScript, then JSON. */
  function FilenameToExportFile(f: string): (r: Result<ExportFile, string>)
    ensures r.Ok? <==> EndsWithAny(f, ExportFileExtensions)
    ensures r.Ok? ==> r.value.filename == f
    ensures r.Err? ==> r.error == RecognizedExtensionError(f)
  {
    if EndsWithAny(f, JsExtensions) then Ok(ExportFile(JSExportFile, f))
    else if EndsWithAny(f, TsExtensions) then Ok(ExportFile(TSExportFile, f))
    else if EndsWithAny(f, JsonExtensions) then Ok(ExportFile(JSONExportFile, f))
    else Err(RecognizedExtensionError(f))
  }

  /** The kind each position of the extension list stands for. */
  function ExtensionKind(i: nat): ExportKind {
    if i < 3 then JSExportFile else if i == 3 then TSExportFile else JSONExportFile
  }

  /** For a suffix at least as long as the appended part, `a + b` ends with
      `c` only when `c` ends with `b`. */
  lemma EndsWithLonger(a: string, b: string, c: string)
    requires |b| <= |c| && EndsWith(a + b, c)
    ensures EndsWith(c, b)
  {
    assert c[|c| - |b|..] == (a + b)[|a + b| - |b|..];
  }

  /** For a suffix no longer than the appended part, only that part matters. */
  lemma EndsWithShorter(a: string, b: string, c: string)
    requires |c| <= |b|
    ensures EndsWith(a + b, c) <==> EndsWith(b, c)
  {
    assert (a + b)[|a + b| - |c|..] == b[|b| - |c|..];
  }

  /** Two strings that differ at the same distance from their ends: neither ends with the other. */
  lemma SuffixMismatch(b: string, c: string, k: nat)
    requires 1 <= k <= |b| && k <= |c| && b[|b| - k] != c[|c| - k]
    ensures !EndsWith(b, c) && !EndsWith(c, b)
  {
    if |c| <= |b| { assert b[|b| - |c|..][|c| - k] == b[|b| - k]; }
    if |b| <= |c| { assert c[|c| - |b|..][|b| - k] == c[|c| - k]; }
  }

  lemma NotEndsWith(a: string, b: string, c: string)
    requires !EndsWith(c, b) && !EndsWith(b, c)
    ensures !EndsWith(a + b, c)
  {
    if |b| <= |c| {
      if EndsWith(a + b, c) { EndsWithLonger(a, b, c); }
    } else {
      EndsWithShorter(a, b, c);
    }
  }

  /** No recognised extension ends with a different one: `.json` differs
      from the others in its last character, `.ts` from the JavaScript
      ones in its second-to-last, and those among themselves in the third. */
  lemma ExtensionsDistinct(a: string, i: nat, j: nat)
    requires i < |ExportFileExtensions| && j < |ExportFileExtensions| && i != j
    ensures !EndsWith(a + ExportFileExtensions[i], ExportFileExtensions[j])
  {
    assert ExportFileExtensions == [".js", ".mjs", ".cjs", ".ts", ".json"];
    var b := ExportFileExtensions[i];
    var c := ExportFileExtensions[j];
    var k := if i == 4 || j == 4 then 1 else if i == 3 || j == 3 then 2 else 3;
    SuffixMismatch(b, c, k);
    NotEndsWith(a, b, c);
  }

  /** A name built from any basename and a recognised extension is
      classified by that extension's group, with the name kept. */
  lemma ClassifiesByOwnExtension(base: string, i: nat)
    requires i < |ExportFileExtensions|
    ensures FilenameToExportFile(base + ExportFileExtensions[i])
      == Ok(ExportFile(ExtensionKind(i), base + ExportFileExtensions[i]))
  {
    var f := base + ExportFileExtensions[i];
    EndsWithAppend(base, ExportFileExtensions[i]);
    forall j: nat | j < |ExportFileExtensions| && j != i ensures !EndsWith(f, ExportFileExtensions[j]) {
      ExtensionsDistinct(base, i, j);
    }
    assert ExportFileExtensions[i] in ExportFileExtensions;
    if i < 3 {
      assert ExportFileExtensions[i] in JsExtensions;
    } else {
      assert !EndsWithAny(f, JsExtensions) by {
        forall e | e in JsExtensions ensures !EndsWith(f, e) {
          var j :| 0 <= j < 3 && JsExtensions[j] == e;
          assert ExportFileExtensions[j] == e;
        }
      }
      if i == 3 {
        assert ExportFileExtensions[i] in TsExtensions;
      } else {
        assert !EndsWithAny(f, TsExtensions) by {
          assert TsExtensions[0] == ExportFileExtensions[3];
        }
        assert ExportFileExtensions[i] in JsonExtensions;
      }
    }
  }

  /** The search loop of `findExportFile` over `exts`. */
  function FindAmong(basename: string, isFile: string -> bool, exts: seq<string>): (r: Result<Option<ExportFile>, string>)
  {
    if |exts| == 0 then Ok(None)
    else if isFile(basename + exts[0]) then
      match FilenameToExportFile(basename + exts[0])
      case Err(e) => Err(e)
      case Ok(x) => Ok(Some(x))
    else FindAmong(basename, isFile, exts[1..])
  }

  /** `findExportFile({basename})`. */
  function FindExportFile(basename: string, isFile: string -> bool): Result<Option<ExportFile>, string> {
    FindAmong(basename, isFile, ExportFileExtensions)
  }

  /** The search over the extensions from position `k` on. */
  lemma {:induction false} FindAmongSpec(basename: string, isFile: string -> bool, k: nat)
    requires k <= |ExportFileExtensions|
    ensures var r := FindAmong(basename, isFile, ExportFileExtensions[k..]);
      && r.Ok?
      && (r.value.None? <==> forall j :: k <= j < |ExportFileExtensions| ==> !isFile(basename + ExportFileExtensions[j]))
      && (r.value.Some? ==> exists i :: (k <= i < |ExportFileExtensions|
            && isFile(basename + ExportFileExtensions[i])
            && (forall j :: k <= j < i ==> !isFile(basename + ExportFileExtensions[j]))
            && r.value.value == ExportFile(ExtensionKind(i), basename + ExportFileExtensions[i])))
    decreases |ExportFileExtensions| - k
  {
    var exts := ExportFileExtensions[k..];
    if k < |ExportFileExtensions| {
      assert exts[0] == ExportFileExtensions[k];
      assert exts[1..] == ExportFileExtensions[k + 1..];
      if isFile(basename + ExportFileExtensions[k]) {
        ClassifiesByOwnExtension(basename, k);
      } else {
        FindAmongSpec(basename, isFile, k + 1);
      }
    }
  }

  /** `findExportFile` never fails: it yields the classification of the first
      candidate in priority order that is a file, or nothing when none is. */
  lemma FindExportFileSpec(basename: string, isFile: string -> bool)
    ensures var r := FindExportFile(basename, isFile);
      && r.Ok?
      && (r.value.None? <==> forall j :: 0 <= j < |ExportFileExtensions| ==> !isFile(basename + ExportFileExtensions[j]))
      && (r.value.Some? ==> exists i :: (0 <= i < |ExportFileExtensions|
            && isFile(basename + ExportFileExtensions[i])
            && (forall j :: 0 <= j < i ==> !isFile(basename + ExportFileExtensions[j]))
            && r.value.value == ExportFile(ExtensionKind(i), basename + ExportFileExtensions[i])))
  {
    FindAmongSpec(basename, isFile, 0);
    assert ExportFileExtensions[0..] == ExportFileExtensions;
  }

  //----------------------------------------------------------------------
  // Loading

  /** `mod.default ?? mod`, awaited when it is a promise; a rejected
      promise fails with its own reason. */
  function ExportedValue(mod: JsValue): (r: Result<JsValue, string>)
    ensures r.Ok? ==> !IsPromise(r.value)
  {
    var p := Coalesce(Prop(mod, "default"), mod);
    if IsPromise(p) then Await(p) else Ok(p)
  }

  function SchemaError(filename: string, issues: string): string {
    "Value from \"" + filename + "\" failed schema validation:\n" + issues
  }

  function Validate<T>(filename: string, v: JsValue, schema: Schema<T>): (r: Result<T, string>)
    ensures r.Ok? <==> schema(v).Ok?
    ensures r.Ok? ==> r.value == schema(v).value
    ensures r.Err? ==> r.error == SchemaError(filename, schema(v).error)
  {
    match schema(v)
    case Err(issues) => Err(SchemaError(filename, issues))
    case Ok(x) => Ok(x)
  }

  /** `validateExportFromJsFile`. */
  function ValidateFromJsFile<T>(env: FileEnv, filename: string, schema: Schema<T>): (r: Result<T, string>)
    ensures env.importFile(filename).Err? ==>
      r == Err("Error loading file \"" + filename + "\": " + env.importFile(filename).error)
    ensures env.importFile(filename).Ok? && ExportedValue(env.importFile(filename).value).Err? ==>
      r == Err(ExportedValue(env.importFile(filename).value).error)
    ensures env.importFile(filename).Ok? && ExportedValue(env.importFile(filename).value).Ok? ==>
      r == Validate(filename, ExportedValue(env.importFile(filename).value).value, schema)
  {
    match env.importFile(filename)
    case Err(e) => Err("Error loading file \"" + filename + "\": " + e)
    case Ok(mod) =>
      match ExportedValue(mod)
      case Err(e) => Err(e)
      case Ok(v) => Validate(filename, v, schema)
  }

  /** The value a module exports: its `default` unless that is `null` or
      absent, in which case the namespace itself; a promise is awaited, and
      a rejected one fails with its bare reason. */
  lemma UnwrapRule(ns: map<string, JsValue>)
    ensures "default" in ns && !IsNullish(ns["default"]) && !IsPromise(ns["default"]) ==>
      ExportedValue(JsObject(ns)) == Ok(ns["default"])
    ensures "default" in ns && IsPromise(ns["default"]) ==>
      ExportedValue(JsObject(ns)) == Await(ns["default"])
    ensures "default" in ns && ns["default"].JsRejected? ==>
      ExportedValue(JsObject(ns)) == Err(ns["default"].reason)
    ensures ("default" !in ns || IsNullish(ns["default"])) ==>
      ExportedValue(JsObject(ns)) == Ok(JsObject(ns))
  {
  }

  /** A module whose default export is a rejected promise fails to load with
      the rejection's reason, without the "Error loading file" prefix that an
      import failure gets. */
  lemma RejectedDefaultPropagates<T>(env: FileEnv, filename: string, schema: Schema<T>, ns: map<string, JsValue>)
    requires env.importFile(filename) == Ok(JsObject(ns))
    requires "default" in ns && RejectionOf(ns["default"]).Some?
    ensures ValidateFromJsFile(env, filename, schema) == Err(RejectionOf(ns["default"]).value)
  {
    AwaitFailsOnRejection(ns["default"]);
  }

  /** `path.join(projectRoot, "node_modules", ".esbuild-tmp", basename(filename) + ".mjs")`. */
  function TsOutfile(projectRoot: string, filename: string): string {
    projectRoot + "/node_modules/.esbuild-tmp/" + Basename(filename) + ".mjs"
  }

  /** The bundle sits in the project's temporary directory under the source's own name plus `.mjs`. */
  lemma TsOutfileShape(projectRoot: string, filename: string)
    ensures StartsWith(TsOutfile(projectRoot, filename), projectRoot + "/node_modules/.esbuild-tmp/")
    ensures Basename(TsOutfile(projectRoot, filename)) == Basename(filename) + ".mjs"
    ensures FilenameToExportFile(TsOutfile(projectRoot, filename)).Ok?
    ensures FilenameToExportFile(TsOutfile(projectRoot, filename)).value.kind == JSExportFile
  {
    var dir := projectRoot + "/node_modules/.esbuild-tmp/";
    var f := TsOutfile(projectRoot, filename);
    assert f == dir + (Basename(filename) + ".mjs");
    StartsWithAppend(dir, Basename(filename) + ".mjs");
    BasenameAfterSlash(projectRoot + "/node_modules/.esbuild-tmp", Basename(filename) + ".mjs");
    assert dir == (projectRoot + "/node_modules/.esbuild-tmp") + "/";
    assert f == (projectRoot + "/node_modules/.esbuild-tmp") + "/" + (Basename(filename) + ".mjs");
    assert f == (dir + Basename(filename)) + ExportFileExtensions[1];
    ClassifiesByOwnExtension(dir + Basename(filename), 1);
  }

  /** The basename of a path ending in `/` and a slash-free name is that name. */
  lemma {:induction false} BasenameAfterSlash(dir: string, name: string)
    requires '/' !in name
    ensures Basename(dir + "/" + name) == name
    decreases |name|
  {
    var p := dir + "/" + name;
    if |name| == 0 {
      assert p[|p| - 1] == '/';
    } else {
      var q := dir + "/" + name[..|name| - 1];
      assert p[..|p| - 1] == q;
      assert p[|p| - 1] == name[|name| - 1];
      assert name == name[..|name| - 1] + [name[|name| - 1]];
      assert '/' !in name[..|name| - 1];
      BasenameAfterSlash(dir, name[..|name| - 1]);
    }
  }

  /** `Utils.getProjectRoot(curdir)`: the nearest package directory from `curdir ?? cwd`. */
  function GetProjectRoot(env: FileEnv, curdir: Nullish<string>): (r: Result<string, string>)
    ensures r.Ok? <==> env.packageDir(curdir.OrElse(env.cwd)).Some?
  {
    match env.packageDir(curdir.OrElse(env.cwd))
    case None => Err("Current directory is not under a project (no package.json found in ancestors)")
    case Some(root) => Ok(root)
  }

  /** `validateExportFromTSFile`: bundle to the temporary `.mjs` file, then load that as JavaScript. */
  function ValidateFromTsFile<T>(env: FileEnv, filename: string, schema: Schema<T>): (r: Result<T, string>)
  {
    match GetProjectRoot(env, Undefined)
    case Err(e) => Err(e)
    case Ok(root) =>
      var outfile := TsOutfile(root, filename);
      match env.bundle(filename, outfile)
      case Err(e) => Err("Error building file " + filename + ": " + e)
      case Ok(_) => ValidateFromJsFile(env, outfile, schema)
  }

  /** `validateExportFromJSONFile`: read and parse errors propagate unchanged. */
  function ValidateFromJsonFile<T>(env: FileEnv, filename: string, schema: Schema<T>): (r: Result<T, string>)
    ensures env.readJson(filename).Err? ==> r == Err(env.readJson(filename).error)
    ensures env.readJson(filename).Ok? ==> r == Validate(filename, env.readJson(filename).value, schema)
  {
    match env.readJson(filename)
    case Err(e) => Err(e)
    case Ok(json) => Validate(filename, json, schema)
  }

  /** `validateExportFromExportFile`: dispatch on the kind. */
  function ValidateFromExportFile<T>(env: FileEnv, file: ExportFile, schema: Schema<T>): (r: Result<T, string>)
    ensures FileValue(env, file).Err? ==> r == Err(FileValue(env, file).error)
    ensures FileValue(env, file).Ok? ==> r == Validate(ValidatedName(env, file), FileValue(env, file).value, schema)
  {
    match file.kind
    case JSExportFile => ValidateFromJsFile(env, file.filename, schema)
    case JSONExportFile => ValidateFromJsonFile(env, file.filename, schema)
    case TSExportFile => ValidateFromTsFile(env, file.filename, schema)
  }

  /** The value a file of each kind yields before the schema sees it: a JS
      module's unwrapped export, a JSON file's parsed content, or the
      export of a TypeScript file's bundle. */
  function FileValue(env: FileEnv, file: ExportFile): Result<JsValue, string> {
    match file.kind
    case JSExportFile => ImportedValue(env, file.filename)
    case JSONExportFile => env.readJson(file.filename)
    case TSExportFile =>
      match GetProjectRoot(env, Undefined)
      case Err(e) => Err(e)
      case Ok(root) =>
        var outfile := TsOutfile(root, file.filename);
        match env.bundle(file.filename, outfile)
        case Err(e) => Err("Error building file " + file.filename + ": " + e)
        case Ok(_) => ImportedValue(env, outfile)
  }

  /** The export of a JS module: its import error prefixed, or its unwrapped value. */
  function ImportedValue(env: FileEnv, filename: string): Result<JsValue, string> {
    match env.importFile(filename)
    case Err(e) => Err("Error loading file \"" + filename + "\": " + e)
    case Ok(mod) => ExportedValue(mod)
  }

  /** Whatever its kind, a file loads exactly when its value is obtained and
      the schema accepts it: the result is the schema's verdict on that
      value, reported against the file that holds it, and a failure to
      obtain the value is reported unchanged. */
  lemma LoadedValuePassedSchema<T>(env: FileEnv, file: ExportFile, schema: Schema<T>)
    ensures var r := ValidateFromExportFile(env, file, schema);
      var fv := FileValue(env, file);
      && (fv.Err? ==> r == Err(fv.error))
      && (fv.Ok? ==> r == Validate(ValidatedName(env, file), fv.value, schema))
      && (r.Ok? <==> fv.Ok? && schema(fv.value).Ok?)
      && (r.Ok? ==> schema(fv.value) == Ok(r.value))
  {
  }

  /** The name a schema failure reports: the file itself, or for a
      TypeScript file the bundle that was loaded in its place. */
  function ValidatedName(env: FileEnv, file: ExportFile): string {
    if file.kind.TSExportFile? && GetProjectRoot(env, Undefined).Ok?
    then TsOutfile(GetProjectRoot(env, Undefined).value, file.filename)
    else file.filename
  }

  /** A TypeScript file, once bundled, loads exactly as its bundle would as a JavaScript file. */
  lemma TsLoadsBundleAsJs<T>(env: FileEnv, filename: string, schema: Schema<T>)
    requires GetProjectRoot(env, Undefined).Ok?
    requires env.bundle(filename, TsOutfile(GetProjectRoot(env, Undefined).value, filename)).Ok?
    ensures var outfile := TsOutfile(GetProjectRoot(env, Undefined).value, filename);
      && FilenameToExportFile(outfile) == Ok(ExportFile(JSExportFile, outfile))
      && ValidateFromExportFile(env, ExportFile(TSExportFile, filename), schema)
         == ValidateFromExportFile(env, ExportFile(JSExportFile, outfile), schema)
  {
    TsOutfileShape(GetProjectRoot(env, Undefined).value, filename);
  }
}
