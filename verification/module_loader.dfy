/** The generic module loader: resolving a module specifier to a file URL
    by a fixed order of strategies, a load cache written once per key, the
    error policy of loading many specifiers, and the plugin normaliser.
    The module system itself (`require.resolve`, reading `package.json`,
    `import()`, path and URL helpers) is a set of oracles. */
module ModuleLoader {
  import opened Wrappers
  import opened Seqs
  import opened Text
  import opened Js

  //----------------------------------------------------------------------
  // Options and oracles

  const DefaultSubpathCandidates: seq<string> := ["/plugin", "/dist/plugin", "/ts-make", "/dist/ts-make"]

  /** `/plugin|ts-make|loader/i.test(k)`. */
  predicate DefaultExportKeyPattern(k: string) {
    ContainsIgnoringCase(k, "plugin") || ContainsIgnoringCase(k, "ts-make") || ContainsIgnoringCase(k, "loader")
  }

  /** `ResolveOptions`; `None` stands for an absent option. */
  datatype ResolveOptions = ResolveOptions(subpathCandidates: Option<seq<string>>, exportKeyPattern: Option<string -> bool>)

  /** The module system as seen from one base directory. */
  datatype ModuleEnv = ModuleEnv(
    /** `createRequire(baseDir/...).resolve(request)`: the entry file, or `None` when it throws. */
    requireResolve: (string, string) -> Option<string>,
    /** The keys of the package's `package.json` `exports` object, in
        `Object.keys` order; `None` when the file cannot be resolved, read or
        parsed, or `exports` is not an object. */
    exportKeys: (string, string) -> Option<seq<string>>,
    /** `path.resolve(baseDir, spec)`. */
    resolvePath: (string, string) -> string,
    /** `path.join(spec, key)`. */
    joinPath: (string, string) -> string,
    /** `pathToFileURL(p).href`. */
    fileUrl: string -> string,
    /** `import(url)`: the module namespace's exports, or the rejection's message. */
    importUrl: string -> Result<map<string, JsValue>, string>)

  function SubpathsOf(o: ResolveOptions): seq<string> {
    o.subpathCandidates.GetOr(DefaultSubpathCandidates)
  }

  function PatternOf(o: ResolveOptions): string -> bool {
    if o.exportKeyPattern.Some? then o.exportKeyPattern.value else DefaultExportKeyPattern
  }

  //----------------------------------------------------------------------
  // Ordering export keys: a stable sort by JavaScript string length

  predicate SortedByLength(s: seq<string>) {
    forall i, j :: 0 <= i < j < |s| ==> JsLength(s[i]) <= JsLength(s[j])
  }

  /** The entries of `s` of length `n`, in order. */
  function OfLength(s: seq<string>, n: nat): (r: seq<string>)
    ensures |r| <= |s|
  {
    if |s| == 0 then [] else (if JsLength(s[0]) == n then [s[0]] else []) + OfLength(s[1..], n)
  }

  lemma OfLengthAppend(a: seq<string>, b: seq<string>, n: nat)
    ensures OfLength(a + b, n) == OfLength(a, n) + OfLength(b, n)
  {
    if |a| == 0 {
      assert a + b == b;
    } else {
      assert (a + b)[1..] == a[1..] + b;
      OfLengthAppend(a[1..], b, n);
    }
  }

  /** Places `x` after every entry of `r` no longer than it. */
  function InsertByLength(r: seq<string>, x: string): (q: seq<string>)
    ensures |q| == |r| + 1
    decreases |r|
  {
    if |r| == 0 then [x]
    else if JsLength(r[|r| - 1]) <= JsLength(x) then r + [x]
    else InsertByLength(r[..|r| - 1], x) + [r[|r| - 1]]
  }

  /** `keys.sort((a, b) => a.length - b.length)`; `Array.prototype.sort` is stable. */
  function SortByLength(s: seq<string>): (r: seq<string>)
    ensures |r| == |s|
  {
    if |s| == 0 then [] else InsertByLength(SortByLength(s[..|s| - 1]), s[|s| - 1])
  }

  lemma {:induction false} InsertSorted(r: seq<string>, x: string)
    requires SortedByLength(r)
    ensures SortedByLength(InsertByLength(r, x))
    ensures multiset(InsertByLength(r, x)) == multiset(r) + multiset{x}
    ensures forall n: nat :: OfLength(InsertByLength(r, x), n) == OfLength(r, n) + OfLength([x], n)
  {
    InsertKeepsSorted(r, x);
    InsertPermutes(r, x);
    InsertStable(r, x);
  }

  lemma {:induction false} InsertKeepsSorted(r: seq<string>, x: string)
    requires SortedByLength(r)
    ensures SortedByLength(InsertByLength(r, x))
    decreases |r|
  {
    if |r| > 0 && JsLength(r[|r| - 1]) > JsLength(x) {
      var p := r[..|r| - 1];
      var y := r[|r| - 1];
      assert r == p + [y];
      assert SortedByLength(p);
      assert InsertByLength(r, x) == InsertByLength(p, x) + [y];
      InsertKeepsSorted(p, x);
      InsertPermutes(p, x);
      InsertSortedLast(p, y, x);
    }
  }

  lemma {:induction false} InsertPermutes(r: seq<string>, x: string)
    ensures multiset(InsertByLength(r, x)) == multiset(r) + multiset{x}
    decreases |r|
  {
    if |r| > 0 && JsLength(r[|r| - 1]) > JsLength(x) {
      var p := r[..|r| - 1];
      assert r == p + [r[|r| - 1]];
      InsertPermutes(p, x);
    }
  }

  /** Appending the displaced last entry keeps the insertion sorted. */
  lemma InsertSortedLast(p: seq<string>, y: string, x: string)
    requires SortedByLength(p + [y]) && JsLength(y) > JsLength(x)
    requires SortedByLength(InsertByLength(p, x))
    requires multiset(InsertByLength(p, x)) == multiset(p) + multiset{x}
    ensures SortedByLength(InsertByLength(p, x) + [y])
  {
    var q := InsertByLength(p, x);
    var r := p + [y];
    forall i, j | 0 <= i < j < |q + [y]| ensures JsLength((q + [y])[i]) <= JsLength((q + [y])[j]) {
      if j == |q| {
        assert (q + [y])[i] == q[i];
        assert q[i] in multiset(q);
        if q[i] != x {
          assert q[i] in multiset(p);
          var k :| 0 <= k < |p| && p[k] == q[i];
          assert r[k] == p[k] && r[|p|] == y;
        }
      } else {
        assert (q + [y])[i] == q[i] && (q + [y])[j] == q[j];
      }
    }
  }

  lemma {:induction false} InsertStable(r: seq<string>, x: string)
    requires SortedByLength(r)
    ensures forall n: nat :: OfLength(InsertByLength(r, x), n) == OfLength(r, n) + OfLength([x], n)
    decreases |r|
  {
    if |r| == 0 {
    } else if JsLength(r[|r| - 1]) <= JsLength(x) {
      forall n: nat ensures OfLength(r + [x], n) == OfLength(r, n) + OfLength([x], n) {
        OfLengthAppend(r, [x], n);
      }
    } else {
      var p := r[..|r| - 1];
      var y := r[|r| - 1];
      assert r == p + [y];
      assert SortedByLength(p);
      InsertStable(p, x);
      var q := InsertByLength(p, x);
      forall n: nat ensures OfLength(q + [y], n) == OfLength(r, n) + OfLength([x], n) {
        OfLengthAppend(q, [y], n);
        OfLengthAppend(p, [y], n);
      }
    }
  }

  /** The sort orders by length, keeps every key, and keeps keys of equal length in their original order. */
  lemma {:induction false} SortByLengthSpec(s: seq<string>)
    ensures SortedByLength(SortByLength(s))
    ensures multiset(SortByLength(s)) == multiset(s)
    ensures forall n: nat :: OfLength(SortByLength(s), n) == OfLength(s, n)
  {
    if |s| > 0 {
      var p := s[..|s| - 1];
      var x := s[|s| - 1];
      assert s == p + [x];
      SortByLengthSpec(p);
      InsertSorted(SortByLength(p), x);
      forall n: nat ensures OfLength(s, n) == OfLength(p, n) + OfLength([x], n) {
        OfLengthAppend(p, [x], n);
      }
    }
  }

  //----------------------------------------------------------------------
  // Resolution

  /** The first request the module system resolves, in list order. */
  function FirstResolved(env: ModuleEnv, baseDir: string, reqs: seq<string>): (r: Option<string>)
    ensures r.None? <==> forall i :: 0 <= i < |reqs| ==> env.requireResolve(baseDir, reqs[i]).None?
    ensures r.Some? ==> exists i :: (0 <= i < |reqs| && env.requireResolve(baseDir, reqs[i]) == r
      && forall j :: 0 <= j < i ==> env.requireResolve(baseDir, reqs[j]).None?)
  {
    if |reqs| == 0 then None
    else
      match env.requireResolve(baseDir, reqs[0])
      case Some(e) => Some(e)
      case None =>
        var r := FirstResolved(env, baseDir, reqs[1..]);
        if r.Some? then
          var i :| 0 <= i < |reqs[1..]| && env.requireResolve(baseDir, reqs[1..][i]) == r
            && forall j :: 0 <= j < i ==> env.requireResolve(baseDir, reqs[1..][j]).None?;
          assert env.requireResolve(baseDir, reqs[i + 1]) == r;
          r
        else r
  }

  lemma FirstResolvedAppend(env: ModuleEnv, baseDir: string, a: seq<string>, b: seq<string>)
    ensures FirstResolved(env, baseDir, a + b) ==
      if FirstResolved(env, baseDir, a).Some? then FirstResolved(env, baseDir, a) else FirstResolved(env, baseDir, b)
  {
    if |a| == 0 {
      assert a + b == b;
    } else {
      assert (a + b)[1..] == a[1..] + b;
      FirstResolvedAppend(env, baseDir, a[1..], b);
    }
  }

  function SubpathRequests(spec: string, subs: seq<string>): (r: seq<string>)
    ensures |r| == |subs| && forall i :: 0 <= i < |subs| ==> r[i] == spec + subs[i]
  {
    seq(|subs|, i requires 0 <= i < |subs| => spec + subs[i])
  }

  /** The export keys tried, shortest first, each joined onto the package name. */
  function ExportRequests(env: ModuleEnv, baseDir: string, spec: string, pattern: string -> bool): (r: seq<string>)
  {
    match env.exportKeys(baseDir, spec)
    case None => []
    case Some(keys) =>
      var candidates := SortByLength(Filter(keys, pattern));
      seq(|candidates|, i requires 0 <= i < |candidates| => env.joinPath(spec, candidates[i]))
  }

  function ResolveErrorMessage(spec: string, baseDir: string, subs: seq<string>): string {
    "Cannot resolve \"" + spec + "\" from " + baseDir + ". "
      + "Check it's installed and exports a loadable entry (try adding one of: " + Join(subs, ", ") + ")."
  }

  /** A specifier naming a path rather than a package: relative, or absolute on POSIX. */
  predicate IsPathSpec(spec: string) {
    StartsWith(spec, ".") || StartsWith(spec, "/")
  }

  /** `resolveFrom(spec, baseDir, opts)`. */
  function ResolveFrom(env: ModuleEnv, spec: string, baseDir: string, opts: ResolveOptions): (r: Result<string, string>)
    ensures StartsWith(spec, "file:") ==> r == Ok(spec)
    ensures !StartsWith(spec, "file:") && IsPathSpec(spec) ==> r == Ok(env.fileUrl(env.resolvePath(baseDir, spec)))
  {
    if StartsWith(spec, "file:") then Ok(spec)
    else if IsPathSpec(spec) then Ok(env.fileUrl(env.resolvePath(baseDir, spec)))
    else
      // 1) the package entry
      match env.requireResolve(baseDir, spec)
      case Some(entry) => Ok(env.fileUrl(entry))
      case None =>
        // 2) the subpath candidates, in order
        match FirstResolved(env, baseDir, SubpathRequests(spec, SubpathsOf(opts)))
        case Some(entry) => Ok(env.fileUrl(entry))
        case None =>
          // 3) the matching export keys, shortest first
          match FirstResolved(env, baseDir, ExportRequests(env, baseDir, spec, PatternOf(opts)))
          case Some(entry) => Ok(env.fileUrl(entry))
          case None => Err(ResolveErrorMessage(spec, baseDir, SubpathsOf(opts)))
  }

  /** Every request a package specifier may be resolved through, in the order tried. */
  function PackageRequests(env: ModuleEnv, spec: string, baseDir: string, opts: ResolveOptions): seq<string> {
    [spec] + SubpathRequests(spec, SubpathsOf(opts)) + ExportRequests(env, baseDir, spec, PatternOf(opts))
  }

  /** For a package specifier the first request that resolves wins; when none
      does, the error names the specifier, the base directory and the subpath
      candidates. */
  lemma ResolvePackageFirstWins(env: ModuleEnv, spec: string, baseDir: string, opts: ResolveOptions)
    requires !StartsWith(spec, "file:") && !IsPathSpec(spec)
    ensures var reqs := PackageRequests(env, spec, baseDir, opts);
      match FirstResolved(env, baseDir, reqs)
      case Some(entry) => ResolveFrom(env, spec, baseDir, opts) == Ok(env.fileUrl(entry))
      case None => ResolveFrom(env, spec, baseDir, opts) == Err(ResolveErrorMessage(spec, baseDir, SubpathsOf(opts)))
  {
    var subs := SubpathRequests(spec, SubpathsOf(opts));
    var exps := ExportRequests(env, baseDir, spec, PatternOf(opts));
    assert PackageRequests(env, spec, baseDir, opts) == [spec] + (subs + exps);
    FirstResolvedAppend(env, baseDir, [spec], subs + exps);
    FirstResolvedAppend(env, baseDir, subs, exps);
    assert [spec][1..] == [];
  }

  /** The export keys tried are exactly the keys matching the pattern, shortest
      first, keys of equal length in `Object.keys` order. */
  lemma ExportKeyOrder(keys: seq<string>, pattern: string -> bool)
    ensures var c := SortByLength(Filter(keys, pattern));
      && SortedByLength(c)
      && multiset(c) == multiset(Filter(keys, pattern))
      && (forall n: nat :: OfLength(c, n) == OfLength(Filter(keys, pattern), n))
      && (forall i :: 0 <= i < |c| ==> pattern(c[i]) && c[i] in keys)
  {
    var f := Filter(keys, pattern);
    SortByLengthSpec(f);
    forall i | 0 <= i < |SortByLength(f)| ensures pattern(SortByLength(f)[i]) && SortByLength(f)[i] in keys {
      var c := SortByLength(f);
      assert c[i] in multiset(f);
    }
  }

  //----------------------------------------------------------------------
  // Loading through the cache

  /** The cache, keyed `baseDir::spec`, holding each load's settled outcome. */
  type Cache<T> = map<string, Result<T, string>>

  function CacheKey(baseDir: string, spec: string): string {
    baseDir + "::" + spec
  }

  /** The work behind a cache entry: resolve, import, normalise. */
  function Load<T>(env: ModuleEnv, spec: string, baseDir: string,
                   toInstance: (JsValue, string, string) -> Result<T, string>, opts: ResolveOptions): Result<T, string>
  {
    var url :- ResolveFrom(env, spec, baseDir, opts);
    var ns :- env.importUrl(url);
    toInstance(JsObject(ns), spec, url)
  }

  /** `loadOne`: the cached outcome, or a fresh load recorded in the cache.
      The flag tells whether the work ran. */
  function LoadOne<T>(env: ModuleEnv, spec: string, baseDir: string,
                      toInstance: (JsValue, string, string) -> Result<T, string>, opts: ResolveOptions,
                      cache: Cache<T>): (r: (Result<T, string>, Cache<T>, bool))
    ensures CacheKey(baseDir, spec) in r.1 && r.1[CacheKey(baseDir, spec)] == r.0
    ensures r.2 <==> CacheKey(baseDir, spec) !in cache
    ensures forall k :: k in cache ==> k in r.1 && r.1[k] == cache[k]
    ensures r.1.Keys == cache.Keys + {CacheKey(baseDir, spec)}
    ensures !r.2 ==> r.1 == cache
  {
    var key := CacheKey(baseDir, spec);
    if key in cache then (cache[key], cache, false)
    else
      var outcome := Load(env, spec, baseDir, toInstance, opts);
      (outcome, cache[key := outcome], true)
  }

  /** A second load of the same specifier runs nothing and returns the first outcome. */
  lemma LoadOneOnce<T>(env: ModuleEnv, spec: string, baseDir: string,
                       toInstance: (JsValue, string, string) -> Result<T, string>, opts: ResolveOptions,
                       cache: Cache<T>)
    ensures var (r1, c1, _) := LoadOne(env, spec, baseDir, toInstance, opts, cache);
      var (r2, c2, ran) := LoadOne(env, spec, baseDir, toInstance, opts, c1);
      r2 == r1 && c2 == c1 && !ran
  {
  }

  /** Loads every specifier in order, threading the cache. Returns each
      outcome, the cache afterwards and the keys whose work ran. */
  function LoadAll<T>(env: ModuleEnv, specs: seq<string>, baseDir: string,
                      toInstance: (JsValue, string, string) -> Result<T, string>, opts: ResolveOptions,
                      cache: Cache<T>): (r: (seq<Result<T, string>>, Cache<T>, seq<string>))
    ensures |r.0| == |specs|
    ensures forall i :: 0 <= i < |specs| ==> CacheKey(baseDir, specs[i]) in r.1 && r.1[CacheKey(baseDir, specs[i])] == r.0[i]
    ensures forall k :: k in cache ==> k in r.1 && r.1[k] == cache[k]
    ensures NoDups(r.2)
    ensures forall i :: 0 <= i < |r.2| ==> r.2[i] !in cache && r.2[i] in r.1
    decreases |specs|
  {
    if |specs| == 0 then ([], cache, [])
    else
      var n := |specs| - 1;
      var (rs, c, ran) := LoadAll(env, specs[..n], baseDir, toInstance, opts, cache);
      var (x, c', did) := LoadOne(env, specs[n], baseDir, toInstance, opts, c);
      var ran' := if did then ran + [CacheKey(baseDir, specs[n])] else ran;
      assert forall i :: 0 <= i < n ==> specs[..n][i] == specs[i];
      LoadAllExtend(specs, baseDir, cache, rs, c, ran, x, c', did);
      (rs + [x], c', ran')
  }

  /** One more load keeps what `LoadAll` promises about the specifiers so far. */
  lemma LoadAllExtend<T>(specs: seq<string>, baseDir: string, cache: Cache<T>,
                         rs: seq<Result<T, string>>, c: Cache<T>, ran: seq<string>,
                         x: Result<T, string>, c': Cache<T>, did: bool)
    requires |specs| > 0 && |rs| == |specs| - 1
    requires forall i :: 0 <= i < |rs| ==> CacheKey(baseDir, specs[i]) in c && c[CacheKey(baseDir, specs[i])] == rs[i]
    requires forall k :: k in cache ==> k in c && c[k] == cache[k]
    requires NoDups(ran) && forall i :: 0 <= i < |ran| ==> ran[i] !in cache && ran[i] in c
    requires var key := CacheKey(baseDir, specs[|rs|]);
      && key in c' && c'[key] == x
      && (did <==> key !in c)
      && (forall k :: k in c ==> k in c' && c'[k] == c[k])
    ensures var r0 := rs + [x];
      forall i :: 0 <= i < |specs| ==> CacheKey(baseDir, specs[i]) in c' && c'[CacheKey(baseDir, specs[i])] == r0[i]
    ensures forall k :: k in cache ==> k in c' && c'[k] == cache[k]
    ensures var ran' := if did then ran + [CacheKey(baseDir, specs[|rs|])] else ran;
      && NoDups(ran')
      && forall i :: 0 <= i < |ran'| ==> ran'[i] !in cache && ran'[i] in c'
  {
    if did {
      AppendAbsent(ran, CacheKey(baseDir, specs[|rs|]), c);
    }
  }

  /** A key absent from a map that holds every entry of `ran` is new to `ran`. */
  lemma AppendAbsent<T>(ran: seq<string>, key: string, c: map<string, T>)
    requires NoDups(ran) && key !in c
    requires forall i :: 0 <= i < |ran| ==> ran[i] in c
    ensures NoDups(ran + [key])
  {
    NoDupsAppend(ran, [key]);
  }

  datatype LoadManyOptions = LoadManyOptions(resolve: ResolveOptions, continueOnError: bool, swallowErrors: bool)

  /** What `loadMany` throws: one wrapped error, or the aggregate of all of them. */
  datatype LoadError =
    | LoadFailure(message: string)
    | AggregateFailure(errors: seq<string>, message: string)

  /** `wrapErr(err, spec)`: the message prefixed with the specifier in brackets. */
  function WrapErr(spec: string, message: string): (m: string)
    ensures StartsWith(m, "[" + spec + "] ") && EndsWith(m, message)
  {
    StartsWithAppend("[" + spec + "] ", message);
    EndsWithAppend("[" + spec + "] ", message);
    "[" + spec + "] " + message
  }

  /** The index of the first failed outcome. */
  function FirstFailure<T>(results: seq<Result<T, string>>): (r: Option<nat>)
    ensures r.None? <==> forall i :: 0 <= i < |results| ==> results[i].Ok?
    ensures r.Some? ==> (r.value < |results| && results[r.value].Err?
      && forall j :: 0 <= j < r.value ==> results[j].Ok?)
  {
    if |results| == 0 then None
    else if results[0].Err? then Some(0)
    else
      match FirstFailure(results[1..])
      case None => None
      case Some(i) => Some(i + 1)
  }

  /** Every failure, wrapped, in specifier order. */
  function WrappedFailures<T>(specs: seq<string>, results: seq<Result<T, string>>): (r: seq<string>)
    requires |specs| == |results|
    ensures |r| == 0 <==> forall i :: 0 <= i < |results| ==> results[i].Ok?
    ensures |r| <= |results|
  {
    if |specs| == 0 then []
    else
      (if results[0].Err? then [WrapErr(specs[0], results[0].error)] else [])
        + WrappedFailures(specs[1..], results[1..])
  }

  /** The result map: each success set in turn, a later pair overwriting an earlier one. */
  function SuccessMap<T>(specs: seq<string>, results: seq<Result<T, string>>): (m: map<string, T>)
    requires |specs| == |results|
    ensures forall k :: k in m <==> exists i :: 0 <= i < |specs| && specs[i] == k && results[i].Ok?
    decreases |specs|
  {
    if |specs| == 0 then map[]
    else
      var n := |specs| - 1;
      var m := SuccessMap(specs[..n], results[..n]);
      assert forall i :: 0 <= i < n ==> specs[..n][i] == specs[i] && results[..n][i] == results[i];
      if results[n].Ok? then m[specs[n] := results[n].value] else m
  }

  /** When equal specifiers carry equal outcomes, the map holds each success's value. */
  lemma {:induction false} SuccessMapValues<T>(specs: seq<string>, results: seq<Result<T, string>>)
    requires |specs| == |results|
    requires forall i, j :: 0 <= i < |specs| && 0 <= j < |specs| && specs[i] == specs[j] ==> results[i] == results[j]
    ensures forall i :: 0 <= i < |specs| && results[i].Ok? ==> SuccessMap(specs, results)[specs[i]] == results[i].value
    decreases |specs|
  {
    if |specs| > 0 {
      var n := |specs| - 1;
      assert forall i :: 0 <= i < n ==> specs[..n][i] == specs[i] && results[..n][i] == results[i];
      SuccessMapValues(specs[..n], results[..n]);
    }
  }

  /** The error policy of `loadMany` over the settled outcome of each specifier. */
  function ApplyPolicy<T>(specs: seq<string>, results: seq<Result<T, string>>, opts: LoadManyOptions)
    : Result<map<string, T>, LoadError>
    requires |specs| == |results|
  {
    if !opts.continueOnError then
      match FirstFailure(results)
      case Some(i) => Err(LoadFailure(WrapErr(specs[i], results[i].error)))
      case None => Ok(SuccessMap(specs, results))
    else
      var errors := WrappedFailures(specs, results);
      if |errors| > 0 && !opts.swallowErrors then
        Err(AggregateFailure(errors, "Failed to load " + NatToString(|errors|) + " module(s)."))
      else Ok(SuccessMap(specs, results))
  }

  /** `loadMany(specs, baseDir, toInstance, opts)`, every load settled in list order. */
  function LoadMany<T>(env: ModuleEnv, specs: seq<string>, baseDir: string,
                       toInstance: (JsValue, string, string) -> Result<T, string>, opts: LoadManyOptions,
                       cache: Cache<T>): (r: (Result<map<string, T>, LoadError>, Cache<T>))
    ensures forall k :: k in cache ==> k in r.1 && r.1[k] == cache[k]
    ensures forall i :: 0 <= i < |specs| ==> CacheKey(baseDir, specs[i]) in r.1
  {
    var (results, cache', _) := LoadAll(env, specs, baseDir, toInstance, opts.resolve, cache);
    (ApplyPolicy(specs, results, opts), cache')
  }

  /** The outcome recorded in the cache for a specifier after loading. */
  function Outcome<T>(c: Cache<T>, baseDir: string, spec: string): Result<T, string>
    requires CacheKey(baseDir, spec) in c
  {
    c[CacheKey(baseDir, spec)]
  }

  /** `loadMany` applies its policy to the outcomes the cache records for the specifiers. */
  lemma LoadManyOutcomes<T>(env: ModuleEnv, specs: seq<string>, baseDir: string,
                            toInstance: (JsValue, string, string) -> Result<T, string>, opts: LoadManyOptions,
                            cache: Cache<T>)
    ensures var (results, c, _) := LoadAll(env, specs, baseDir, toInstance, opts.resolve, cache);
      && LoadMany(env, specs, baseDir, toInstance, opts, cache) == (ApplyPolicy(specs, results, opts), c)
      && (forall i :: 0 <= i < |specs| ==> results[i] == Outcome(c, baseDir, specs[i]))
      && (forall i, j :: 0 <= i < |specs| && 0 <= j < |specs| && specs[i] == specs[j] ==> results[i] == results[j])
  {
  }

  /** The result map holds exactly the specifiers that loaded, each with its value. */
  lemma PolicySuccessMap<T>(specs: seq<string>, results: seq<Result<T, string>>, opts: LoadManyOptions)
    requires |specs| == |results|
    requires forall i, j :: 0 <= i < |specs| && 0 <= j < |specs| && specs[i] == specs[j] ==> results[i] == results[j]
    ensures var r := ApplyPolicy(specs, results, opts);
      && (r.Ok? ==> forall k :: k in r.value <==> exists i :: 0 <= i < |specs| && specs[i] == k && results[i].Ok?)
      && (r.Ok? ==> forall i :: 0 <= i < |specs| && results[i].Ok? ==> r.value[specs[i]] == results[i].value)
  {
    SuccessMapValues(specs, results);
  }

  /** Without `continueOnError`, loading succeeds exactly when every specifier
      loads, and otherwise raises the first failure prefixed with its specifier. */
  lemma PolicyStopsAtFirst<T>(specs: seq<string>, results: seq<Result<T, string>>, opts: LoadManyOptions)
    requires |specs| == |results| && !opts.continueOnError
    ensures var r := ApplyPolicy(specs, results, opts);
      && (r.Ok? <==> forall i :: 0 <= i < |specs| ==> results[i].Ok?)
      && (r.Err? ==> exists i :: (0 <= i < |specs| && results[i].Err?
            && (forall j :: 0 <= j < i ==> results[j].Ok?)
            && r.error == LoadFailure(WrapErr(specs[i], results[i].error))))
  {
  }

  /** With `continueOnError`, every failure is collected, wrapped, and raised
      together with its count unless `swallowErrors` is set. */
  lemma PolicyCollects<T>(specs: seq<string>, results: seq<Result<T, string>>, opts: LoadManyOptions)
    requires |specs| == |results| && opts.continueOnError
    ensures var r := ApplyPolicy(specs, results, opts);
      && (r.Err? <==> !opts.swallowErrors && exists i :: 0 <= i < |specs| && results[i].Err?)
      && (r.Err? ==> r.error == AggregateFailure(WrappedFailures(specs, results),
            "Failed to load " + NatToString(|WrappedFailures(specs, results)|) + " module(s)."))
  {
  }

  /** Each key's work runs at most once, and only for keys not already cached. */
  lemma LoadManyRunsOnce<T>(env: ModuleEnv, specs: seq<string>, baseDir: string,
                            toInstance: (JsValue, string, string) -> Result<T, string>, opts: ResolveOptions,
                            cache: Cache<T>)
    ensures var (_, c, ran) := LoadAll(env, specs, baseDir, toInstance, opts, cache);
      NoDups(ran) && forall i :: 0 <= i < |ran| ==> ran[i] !in cache && ran[i] in c
  {
  }

  /** A property every cached outcome has, and every fresh load's outcome
      has, is a property of every outcome after loading. */
  lemma {:induction false} LoadAllKeeps<T>(env: ModuleEnv, specs: seq<string>, baseDir: string,
                                          toInstance: (JsValue, string, string) -> Result<T, string>, opts: ResolveOptions,
                                          cache: Cache<T>, q: Result<T, string> -> bool)
    requires forall k :: k in cache ==> q(cache[k])
    requires forall e :: q(Err(e))
    requires forall ns, sp, u :: q(toInstance(JsObject(ns), sp, u))
    ensures forall k :: k in LoadAll(env, specs, baseDir, toInstance, opts, cache).1 ==>
      q(LoadAll(env, specs, baseDir, toInstance, opts, cache).1[k])
    decreases |specs|
  {
    if |specs| > 0 {
      var n := |specs| - 1;
      LoadAllKeeps(env, specs[..n], baseDir, toInstance, opts, cache, q);
      var c := LoadAll(env, specs[..n], baseDir, toInstance, opts, cache).1;
      LoadKeeps(env, specs[n], baseDir, toInstance, opts, q);
      assert LoadAll(env, specs, baseDir, toInstance, opts, cache).1
        == LoadOne(env, specs[n], baseDir, toInstance, opts, c).1;
    }
  }

  lemma LoadKeeps<T>(env: ModuleEnv, spec: string, baseDir: string,
                     toInstance: (JsValue, string, string) -> Result<T, string>, opts: ResolveOptions,
                     q: Result<T, string> -> bool)
    requires forall e :: q(Err(e))
    requires forall ns, sp, u :: q(toInstance(JsObject(ns), sp, u))
    ensures q(Load(env, spec, baseDir, toInstance, opts))
  {
    var url := ResolveFrom(env, spec, baseDir, opts);
    if url.Ok? && env.importUrl(url.value).Ok? {
      assert Load(env, spec, baseDir, toInstance, opts)
        == toInstance(JsObject(env.importUrl(url.value).value), spec, url.value);
    }
  }

  //----------------------------------------------------------------------
  // The plugin normaliser

  /** `PluginExportHints`; `None` stands for an absent hint. */
  datatype PluginExportHints = PluginExportHints(
    factoryExportNames: Option<seq<string>>,
    instanceExportNames: Option<seq<string>>,
    allowModuleNamespaceAsInstance: Option<bool>)

  function FactoryNames(h: PluginExportHints): seq<string> { h.factoryExportNames.GetOr(["createPlugin"]) }
  function InstanceNames(h: PluginExportHints): seq<string> { h.instanceExportNames.GetOr(["plugin"]) }
  function AllowNamespace(h: PluginExportHints): bool { h.allowModuleNamespaceAsInstance.GetOr(false) }

  function NormalizerErrorMessage(h: PluginExportHints, spec: string, url: string): string {
    "Module \"" + spec + "\" (" + url + ") did not expose a valid instance "
      + "(checked default, " + Join(InstanceNames(h), ", ") + ", " + Join(FactoryNames(h), ", ") + ")."
  }

  /** Step 2: the first instance property that validates. */
  function ProbeInstances(validate: JsValue -> bool, mod: JsValue, names: seq<string>): (r: Option<JsValue>)
    ensures r.Some? ==> validate(r.value)
  {
    if |names| == 0 then None
    else if validate(Prop(mod, names[0])) then Some(Prop(mod, names[0]))
    else ProbeInstances(validate, mod, names[1..])
  }

  /** Step 3: the first factory function whose result validates. Calling a
      factory may throw, which ends the search with that error. */
  function ProbeFactories(validate: JsValue -> bool, call: JsValue -> Result<JsValue, string>,
                          mod: JsValue, names: seq<string>): (r: Result<Option<JsValue>, string>)
    ensures r.Ok? && r.value.Some? ==> validate(r.value.value)
  {
    if |names| == 0 then Ok(None)
    else
      var maybe := Prop(mod, names[0]);
      if TypeOf(maybe) == "function" then
        match call(maybe)
        case Err(e) => Err(e)
        case Ok(produced) =>
          if validate(produced) then Ok(Some(produced))
          else ProbeFactories(validate, call, mod, names[1..])
      else ProbeFactories(validate, call, mod, names[1..])
  }

  /** The search of `makePluginNormalizer`'s normaliser: the first valid
      candidate, `None` when there is none. */
  function NormalizeSearch(validate: JsValue -> bool, h: PluginExportHints, call: JsValue -> Result<JsValue, string>,
                           mod: JsValue): (r: Result<Option<JsValue>, string>)
    ensures r.Ok? && r.value.Some? ==> validate(r.value.value)
  {
    // 1) the default export
    if validate(Prop(mod, "default")) then Ok(Some(Prop(mod, "default")))
    else SearchInstances(validate, h, call, mod)
  }

  /** 2) the instance properties, then the rest of the search. */
  function SearchInstances(validate: JsValue -> bool, h: PluginExportHints, call: JsValue -> Result<JsValue, string>,
                           mod: JsValue): (r: Result<Option<JsValue>, string>)
    ensures r.Ok? && r.value.Some? ==> validate(r.value.value)
  {
    match ProbeInstances(validate, mod, InstanceNames(h))
    case Some(v) => Ok(Some(v))
    case None => SearchFactories(validate, h, call, mod)
  }

  /** 3) the factory functions, then 4) the whole module when allowed. */
  function SearchFactories(validate: JsValue -> bool, h: PluginExportHints, call: JsValue -> Result<JsValue, string>,
                           mod: JsValue): (r: Result<Option<JsValue>, string>)
    ensures r.Ok? && r.value.Some? ==> validate(r.value.value)
  {
    match ProbeFactories(validate, call, mod, FactoryNames(h))
    case Err(e) => Err(e)
    case Ok(Some(v)) => Ok(Some(v))
    case Ok(None) => if AllowNamespace(h) && validate(mod) then Ok(Some(mod)) else Ok(None)
  }

  /** The normaliser `makePluginNormalizer(validate, hints)` returns, applied to one module. */
  function Normalize(validate: JsValue -> bool, h: PluginExportHints, call: JsValue -> Result<JsValue, string>,
                     mod: JsValue, spec: string, url: string): (r: Result<JsValue, string>)
    ensures r.Ok? ==> validate(r.value)
  {
    match NormalizeSearch(validate, h, call, mod)
    case Err(e) => Err(e)
    case Ok(Some(v)) => Ok(v)
    case Ok(None) => Err(NormalizerErrorMessage(h, spec, url))
  }

  //----------------------------------------------------------------------
  // The probe order as one list

  /** Every probe in order: the default export, each instance property, each
      function-valued factory's result, then the whole module when allowed. */
  function Probes(h: PluginExportHints, call: JsValue -> Result<JsValue, string>, mod: JsValue): seq<Result<JsValue, string>> {
    [Ok(Prop(mod, "default"))]
      + (InstanceProbes(mod, InstanceNames(h)) + (FactoryProbes(call, mod, FactoryNames(h)) + WholeProbe(h, mod)))
  }

  function InstanceProbes(mod: JsValue, names: seq<string>): (r: seq<Result<JsValue, string>>)
    ensures |r| == |names| && forall i :: 0 <= i < |names| ==> r[i] == Ok(Prop(mod, names[i]))
  {
    seq(|names|, i requires 0 <= i < |names| => Ok(Prop(mod, names[i])))
  }

  function FactoryProbes(call: JsValue -> Result<JsValue, string>, mod: JsValue, names: seq<string>)
    : seq<Result<JsValue, string>>
  {
    if |names| == 0 then []
    else
      (if TypeOf(Prop(mod, names[0])) == "function" then [call(Prop(mod, names[0]))] else [])
        + FactoryProbes(call, mod, names[1..])
  }

  /** Scans the probes in order: an error stops the scan, the first valid value wins. */
  function FirstValid(validate: JsValue -> bool, probes: seq<Result<JsValue, string>>): Result<Option<JsValue>, string> {
    if |probes| == 0 then Ok(None)
    else
      match probes[0]
      case Err(e) => Err(e)
      case Ok(v) => if validate(v) then Ok(Some(v)) else FirstValid(validate, probes[1..])
  }

  lemma FirstValidAppend(validate: JsValue -> bool, a: seq<Result<JsValue, string>>, b: seq<Result<JsValue, string>>)
    ensures FirstValid(validate, a + b) ==
      if FirstValid(validate, a) == Ok(None) then FirstValid(validate, b) else FirstValid(validate, a)
  {
    if |a| == 0 {
      assert a + b == b;
    } else {
      assert (a + b)[1..] == a[1..] + b;
      FirstValidAppend(validate, a[1..], b);
    }
  }

  lemma {:induction false} InstancesFirstValid(validate: JsValue -> bool, mod: JsValue, names: seq<string>)
    ensures FirstValid(validate, InstanceProbes(mod, names)) ==
      match ProbeInstances(validate, mod, names) case Some(v) => Ok(Some(v)) case None => Ok(None)
  {
    if |names| > 0 {
      assert InstanceProbes(mod, names)[1..] == InstanceProbes(mod, names[1..]);
      InstancesFirstValid(validate, mod, names[1..]);
    }
  }

  lemma {:induction false} FactoriesFirstValid(validate: JsValue -> bool, call: JsValue -> Result<JsValue, string>,
                                               mod: JsValue, names: seq<string>)
    ensures FirstValid(validate, FactoryProbes(call, mod, names)) == ProbeFactories(validate, call, mod, names)
  {
    if |names| > 0 {
      var head: seq<Result<JsValue, string>> :=
        if TypeOf(Prop(mod, names[0])) == "function" then [call(Prop(mod, names[0]))] else [];
      FirstValidAppend(validate, head, FactoryProbes(call, mod, names[1..]));
      FactoriesFirstValid(validate, call, mod, names[1..]);
      if |head| == 1 {
        assert head[1..] == [];
      }
    }
  }

  /** The normaliser returns the first probe that validates, stops at the
      first factory that throws, and fails only when no probe validates. */
  lemma NormalizeProbeOrder(validate: JsValue -> bool, h: PluginExportHints, call: JsValue -> Result<JsValue, string>,
                            mod: JsValue)
    ensures NormalizeSearch(validate, h, call, mod) == FirstValid(validate, Probes(h, call, mod))
  {
    var rest := InstanceProbes(mod, InstanceNames(h)) + (FactoryProbes(call, mod, FactoryNames(h)) + WholeProbe(h, mod));
    var p := Probes(h, call, mod);
    assert p[0] == Ok(Prop(mod, "default")) && p[1..] == rest;
    if !validate(Prop(mod, "default")) {
      assert FirstValid(validate, p) == FirstValid(validate, rest);
      InstancesThenRest(validate, h, call, mod);
    }
  }

  function WholeProbe(h: PluginExportHints, mod: JsValue): seq<Result<JsValue, string>> {
    if AllowNamespace(h) then [Ok(mod)] else []
  }

  lemma InstancesThenRest(validate: JsValue -> bool, h: PluginExportHints, call: JsValue -> Result<JsValue, string>,
                          mod: JsValue)
    ensures FirstValid(validate, InstanceProbes(mod, InstanceNames(h)) + (FactoryProbes(call, mod, FactoryNames(h)) + WholeProbe(h, mod)))
      == SearchInstances(validate, h, call, mod)
  {
    FactoriesThenWhole(validate, h, call, mod);
    FirstValidAppend(validate, InstanceProbes(mod, InstanceNames(h)), FactoryProbes(call, mod, FactoryNames(h)) + WholeProbe(h, mod));
    InstancesFirstValid(validate, mod, InstanceNames(h));
  }

  lemma FactoriesThenWhole(validate: JsValue -> bool, h: PluginExportHints, call: JsValue -> Result<JsValue, string>,
                           mod: JsValue)
    ensures FirstValid(validate, FactoryProbes(call, mod, FactoryNames(h)) + WholeProbe(h, mod))
      == SearchFactories(validate, h, call, mod)
  {
    var f := FactoryProbes(call, mod, FactoryNames(h));
    var w := WholeProbe(h, mod);
    FirstValidAppend(validate, f, w);
    FactoriesFirstValid(validate, call, mod, FactoryNames(h));
    if FirstValid(validate, f) == Ok(None) {
      if AllowNamespace(h) {
        assert w == [Ok(mod)] && w[1..] == [];
        assert FirstValid(validate, w) == if validate(mod) then Ok(Some(mod)) else Ok(None);
      } else {
        assert FirstValid(validate, w) == Ok(None);
      }
    }
  }
}
