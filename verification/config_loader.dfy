/** Locating and loading the `ts-make` configuration file. */
module ConfigLoader {
  import opened Wrappers
  import opened Text
  import opened Js
  import opened ConfigShape
  import opened ExportFiles

  function NotFoundError(basename: string): string {
    "No ts-make file found at \"" + basename + JsonStringArray(ExportFileExtensions) + "\""
  }

  /** `findConfig({configFile, curdir})`: an explicit file is classified as
      given; otherwise `<projectRoot>/ts-make` plus each extension is searched. */
  function FindConfig(env: FileEnv, configFile: Nullish<string>, curdir: Nullish<string>): (r: Result<ExportFile, string>)
  {
    if configFile.Value? then FilenameToExportFile(configFile.v)
    else
      match GetProjectRoot(env, curdir)
      case Err(e) => Err(e)
      case Ok(root) =>
        var basename := root + "/ts-make";
        match FindExportFile(basename, env.isFile)
        case Err(e) => Err(e)
        case Ok(None) => Err(NotFoundError(basename))
        case Ok(Some(file)) => Ok(file)
  }

  /** An explicit file is classified directly: no directory is searched and
      no file is tested, so the result does not depend on the file system. */
  lemma ExplicitConfigNotSearched(env: FileEnv, f: string, curdir: Nullish<string>,
                                  isFile: string -> bool, packageDir: string -> Option<string>)
    ensures FindConfig(env, Value(f), curdir) == FilenameToExportFile(f)
    ensures FindConfig(env.(isFile := isFile, packageDir := packageDir), Value(f), curdir) == FindConfig(env, Value(f), curdir)
  {
  }

  /** Without an explicit file, the search succeeds exactly when some
      `<projectRoot>/ts-make<ext>` is a file, takes the first in priority
      order, and otherwise names the basename and every extension. */
  lemma SearchedConfig(env: FileEnv, curdir: Nullish<string>)
    requires GetProjectRoot(env, curdir).Ok?
    ensures var basename := GetProjectRoot(env, curdir).value + "/ts-make";
      var r := FindConfig(env, Undefined, curdir);
      && (r.Ok? <==> exists i :: 0 <= i < |ExportFileExtensions| && env.isFile(basename + ExportFileExtensions[i]))
      && (r.Ok? ==> exists i :: (0 <= i < |ExportFileExtensions|
            && env.isFile(basename + ExportFileExtensions[i])
            && (forall j :: 0 <= j < i ==> !env.isFile(basename + ExportFileExtensions[j]))
            && r.value == ExportFile(ExtensionKind(i), basename + ExportFileExtensions[i])))
      && (r.Err? ==> r.error == NotFoundError(basename))
  {
    var basename := GetProjectRoot(env, curdir).value + "/ts-make";
    FindExportFileSpec(basename, env.isFile);
  }

  /** `ConfigSchema.safeParse`, with `issues` rendering the rejection of a value. */
  function ConfigSchema(issues: JsValue -> string): Schema<Config> {
    v => match ParseConfig(v)
         case Some(c) => Ok(c)
         case None => Err(issues(v))
  }

  /** `loadConfig({configFile, curdir})`: find the file, then load it against the configuration schema. */
  function LoadConfig(env: FileEnv, issues: JsValue -> string, configFile: Nullish<string>, curdir: Nullish<string>)
    : (r: Result<Config, string>)
    ensures FindConfig(env, configFile, curdir).Err? ==> r == Err(FindConfig(env, configFile, curdir).error)
    ensures FindConfig(env, configFile, curdir).Ok? ==>
      r == ValidateFromExportFile(env, FindConfig(env, configFile, curdir).value, ConfigSchema(issues))
  {
    match FindConfig(env, configFile, curdir)
    case Err(e) => Err(e)
    case Ok(file) => ValidateFromExportFile(env, file, ConfigSchema(issues))
  }

  /** A configuration loads exactly when the file is found, its value is
      obtained and that value has the configuration shape; the result is
      then the parse of that very value, which it re-encodes to when the
      value is canonical. A value of the wrong shape fails with the schema
      error naming the file and the rendered issues. */
  lemma LoadedConfigIsValid(env: FileEnv, issues: JsValue -> string, configFile: Nullish<string>, curdir: Nullish<string>)
    ensures var r := LoadConfig(env, issues, configFile, curdir);
      var found := FindConfig(env, configFile, curdir);
      && (r.Ok? <==> found.Ok? && FileValue(env, found.value).Ok? && ValidConfig(FileValue(env, found.value).value))
      && (r.Ok? ==> ParseConfig(FileValue(env, found.value).value) == Some(r.value))
      && (r.Ok? && CanonicalConfig(FileValue(env, found.value).value) ==>
            EncodeConfig(r.value) == FileValue(env, found.value).value)
      && (found.Ok? && FileValue(env, found.value).Ok? && !ValidConfig(FileValue(env, found.value).value) ==>
            r == Err(SchemaError(ValidatedName(env, found.value), issues(FileValue(env, found.value).value))))
  {
    var r := LoadConfig(env, issues, configFile, curdir);
    var found := FindConfig(env, configFile, curdir);
    if found.Ok? && FileValue(env, found.value).Ok? {
      var v := FileValue(env, found.value).value;
      if r.Ok? && CanonicalConfig(v) {
        EncodeParseConfig(v);
      }
    }
  }
}
