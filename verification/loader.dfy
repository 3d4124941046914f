/**
  The public side of the loader: resolving the workbook path from
  configuration, parsing the workbook (schema phase, then join phase), the
  process-wide cache threaded explicitly as state in and state out, and the
  per-test lookup handed to the data provider.
 */
module Loader {
  import opened Wrappers
  import opened JavaStrings
  import opened OrderedMaps
  import opened Workbooks
  import opened Coercion
  import opened Schema
  import opened Join

  /** The configuration property naming the workbook file. */
  const ExcelFileProperty := "test.data.excel.file"

  /** The loaded configuration: `getProperty(key)` is `Some` exactly for the keys present. */
  type Properties = map<string, string>

  /** The `user.dir` system property and the platform's file separator. */
  datatype Environment = Environment(userDir: string, separator: string)

  /** The workbooks that exist on disk, by path; any other path does not exist. */
  type Files = map<string, Workbook>

  /** `<user.dir>/src/test/resources/testdata/`, with the platform separator. */
  function DataDirectory(env: Environment): string {
    var sep := env.separator;
    env.userDir + sep + "src" + sep + "test" + sep + "resources" + sep + "testdata" + sep
  }

  /**
    The workbook path: fails when the property is absent or the empty string;
    a value of blanks is accepted, as the check does not trim.
   */
  function ResolvePath(props: Properties, env: Environment): (r: Result<string, LoadError>)
    ensures r.Failure? <==> ExcelFileProperty !in props || props[ExcelFileProperty] == ""
    ensures r.Failure? ==> r.error == ConfigMissing
    ensures r.Success? ==> |r.value| > |DataDirectory(env)|
    ensures r.Success? ==> r.value[..|DataDirectory(env)|] == DataDirectory(env)
    ensures r.Success? ==> r.value[|DataDirectory(env)|..] == props[ExcelFileProperty]
  {
    if ExcelFileProperty !in props || props[ExcelFileProperty] == "" then Failure(ConfigMissing)
    else Success(DataDirectory(env) + props[ExcelFileProperty])
  }

  /** Within one environment, distinct file names resolve to distinct paths, so a path change is a file-name change. */
  lemma ResolvePathInjective(props1: Properties, props2: Properties, env: Environment)
    requires ResolvePath(props1, env).Success? && ResolvePath(props2, env).Success?
    requires ResolvePath(props1, env) == ResolvePath(props2, env)
    ensures props1[ExcelFileProperty] == props2[ExcelFileProperty]
  {
    var p := ResolvePath(props1, env).value;
    assert p[|DataDirectory(env)|..] == props1[ExcelFileProperty];
  }

  /**
    Parses an opened workbook: the schema phase runs first and only then is
    the data sheet looked up, so the parameter sheet's errors take priority.
   */
  function ParseWorkbook(wb: Workbook, fmt: Formatter): (r: Result<TestData, LoadError>)
    ensures var params := GetSheet(wb, ParamSheetName);
            var data := GetSheet(wb, DataSheetName);
            && (r == Failure(ParamSheetMissing) <==> params.None?)
            && (r == Failure(ParamHeaderInvalid) <==> params.Some? && !HasNameHeader(params.value, fmt))
            && (r == Failure(DataSheetMissing) <==> params.Some? && HasNameHeader(params.value, fmt) && data.None?)
            && (r == Failure(DataHeaderInvalid) <==>
                  params.Some? && HasNameHeader(params.value, fmt) && data.Some? && !HasNameHeader(data.value, fmt))
    ensures r.Failure? ==> r.error in {ParamSheetMissing, ParamHeaderInvalid, DataSheetMissing, DataHeaderInvalid}
  {
    var schema :- ParseSchema(GetSheet(wb, ParamSheetName), fmt);
    JoinData(GetSheet(wb, DataSheetName), schema, fmt)
  }

  /** A successful parse had both sheets with valid headers and is the join of the data rows with the schema. */
  lemma ParseWorkbookParts(wb: Workbook, fmt: Formatter)
    requires ParseWorkbook(wb, fmt).Success?
    ensures GetSheet(wb, ParamSheetName).Some? && HasNameHeader(GetSheet(wb, ParamSheetName).value, fmt)
    ensures GetSheet(wb, DataSheetName).Some? && HasNameHeader(GetSheet(wb, DataSheetName).value, fmt)
    ensures var params := GetSheet(wb, ParamSheetName).value;
            var data := GetSheet(wb, DataSheetName).value;
            ParseWorkbook(wb, fmt).value ==
              JoinRows(GetRow(data, 0).value, data.rows[1..],
                       BuildSchema(GetRow(params, 0).value, params.rows[1..], fmt), fmt)
  {
  }

  /**
    End to end over one workbook: every test name in the parsed result is
    non-empty and named in the parameter sheet, its list of data sets is
    non-empty, and every data set holds exactly `TestName` plus the keys the
    parameter sheet's header defines, with at least one of those non-empty.
   */
  lemma ParseWorkbookShape(wb: Workbook, fmt: Formatter, name: string)
    requires ParseWorkbook(wb, fmt).Success?
    requires Get(ParseWorkbook(wb, fmt).value, name).Some?
    ensures var params := GetSheet(wb, ParamSheetName).value;
            var keys := SchemaKeys(GetRow(params, 0).value, fmt);
            var recs := Get(ParseWorkbook(wb, fmt).value, name).value;
            && name != "" && name in RowNames(params.rows[1..], fmt)
            && keys != []
            && recs != []
            && forall rec :: rec in recs ==>
                 && DistinctKeys(rec)
                 && (forall k :: k in Keys(rec) <==> k == TestNameColumn || k in keys)
                 && (TestNameColumn !in keys ==> Get(rec, TestNameColumn) == Some(name))
                 && (exists k :: k in keys && Get(rec, k) != Some(""))
  {
    ParseWorkbookParts(wb, fmt);
    var params := GetSheet(wb, ParamSheetName).value;
    var header := GetRow(params, 0).value;
    var schema := BuildSchema(header, params.rows[1..], fmt);
    var dataSheet := GetSheet(wb, DataSheetName).value;
    JoinedShape(header, params.rows[1..], GetRow(dataSheet, 0).value, dataSheet.rows[1..], fmt, name);
  }

  /** The two static fields: the last path parsed and the data parsed from it. */
  datatype Cache = Cache(lastReadFilePath: Option<string>, cachedAllTestData: TestData)

  /** The state at class initialisation. */
  const InitialCache := Cache(None, [])

  /** A hit needs the same path and a non-empty cached map. */
  predicate CacheHit(cache: Cache, path: string) {
    cache.lastReadFilePath == Some(path) && |cache.cachedAllTestData| > 0
  }

  /** Opening and parsing the file at `path`; a path with no file fails before any parsing. */
  function ReadWorkbook(files: Files, path: string, fmt: Formatter): (r: Result<TestData, LoadError>)
    ensures path !in files ==> r == Failure(FileNotFound(path))
  {
    if path !in files then Failure(FileNotFound(path)) else ParseWorkbook(files[path], fmt)
  }

  /**
    `parseExcelData` as a transition of the cache: the path is resolved first,
    every time; a hit returns the cached map; otherwise the file is read and a
    success replaces both fields, while a failure leaves them as they were.
   */
  function ParseExcelData(cache: Cache, props: Properties, env: Environment, files: Files, fmt: Formatter)
    : (r: (Result<TestData, LoadError>, Cache))
    ensures ResolvePath(props, env).Failure? ==> r.0 == Failure(ConfigMissing)
    ensures r.0.Failure? ==> r.1 == cache
    ensures r.0.Success? ==> r.1 == Cache(Some(ResolvePath(props, env).value), r.0.value)
    ensures cache.lastReadFilePath.Some? ==> r.1.lastReadFilePath.Some?
  {
    match ResolvePath(props, env)
    case Failure(e) => (Failure(e), cache)
    case Success(path) =>
      if CacheHit(cache, path) then (Success(cache.cachedAllTestData), cache)
      else
        match ReadWorkbook(files, path, fmt)
        case Failure(e) => (Failure(e), cache)
        case Success(data) => (Success(data), Cache(Some(path), data))
  }

  /**
    On a hit nothing on disk is consulted: whatever the files now hold, and
    even if the workbook was edited since, the cached map is returned.
   */
  lemma CacheHitIgnoresFiles(cache: Cache, props: Properties, env: Environment, files1: Files, files2: Files, fmt: Formatter)
    requires ResolvePath(props, env).Success? && CacheHit(cache, ResolvePath(props, env).value)
    ensures ParseExcelData(cache, props, env, files1, fmt) == ParseExcelData(cache, props, env, files2, fmt)
    ensures ParseExcelData(cache, props, env, files1, fmt) == (Success(cache.cachedAllTestData), cache)
  {
  }

  /** On a miss the result is a fresh read of the resolved path, whatever was cached. */
  lemma CacheMissReads(cache: Cache, props: Properties, env: Environment, files: Files, fmt: Formatter)
    requires ResolvePath(props, env).Success? && !CacheHit(cache, ResolvePath(props, env).value)
    ensures ParseExcelData(cache, props, env, files, fmt).0 == ReadWorkbook(files, ResolvePath(props, env).value, fmt)
  {
  }

  /**
    A change of resolved path always forces a fresh read: the result is what
    a cold start would produce, so the stale map is never returned.
   */
  lemma PathChangeInvalidates(cache: Cache, props: Properties, env: Environment, files: Files, fmt: Formatter)
    requires ResolvePath(props, env).Success?
    requires cache.lastReadFilePath != Some(ResolvePath(props, env).value)
    ensures ParseExcelData(cache, props, env, files, fmt).0 == ParseExcelData(InitialCache, props, env, files, fmt).0
  {
  }

  /**
    Two consecutive loads with unchanged configuration and files give the
    same result and leave the same cache.
   */
  lemma RepeatedLoadIsStable(cache: Cache, props: Properties, env: Environment, files: Files, fmt: Formatter)
    requires ParseExcelData(cache, props, env, files, fmt).0.Success?
    ensures var first := ParseExcelData(cache, props, env, files, fmt);
            ParseExcelData(first.1, props, env, files, fmt) == first
  {
    var first := ParseExcelData(cache, props, env, files, fmt);
    var path := ResolvePath(props, env).value;
    if !CacheHit(first.1, path) {
      assert !CacheHit(cache, path);
      assert first.0 == ReadWorkbook(files, path, fmt);
    }
  }

  /**
    A load that parsed to an empty map never yields a hit: the next call with
    the same path reads the file again, so it sees whatever the file holds then.
   */
  lemma EmptyResultNeverHits(cache: Cache, props: Properties, env: Environment, files1: Files, files2: Files, fmt: Formatter)
    requires ParseExcelData(cache, props, env, files1, fmt).0 == Success([])
    ensures var next := ParseExcelData(cache, props, env, files1, fmt).1;
            ParseExcelData(next, props, env, files2, fmt).0 == ReadWorkbook(files2, ResolvePath(props, env).value, fmt)
  {
  }

  /**
    The conversion for the data provider: an n-by-1 table whose row `i`
    holds the `i`-th data set.
   */
  method ToTable(recs: seq<Record>) returns (table: seq<seq<Record>>)
    ensures |table| == |recs|
    ensures forall i :: 0 <= i < |recs| ==> |table[i]| == 1 && table[i][0] == recs[i]
  {
    table := [];
    var i := 0;
    while i < |recs|
      invariant 0 <= i <= |recs|
      invariant |table| == i
      invariant forall j :: 0 <= j < i ==> table[j] == [recs[j]]
    {
      table := table + [[recs[i]]];
      i := i + 1;
    }
  }

  /**
    `getTestData`: loads (through the cache) and projects one test's data
    sets into an n-by-1 table, row i holding the i-th data set. An unknown
    test name yields an empty table, never an error.
   */
  method GetTestData(name: string, cache: Cache, props: Properties, env: Environment, files: Files, fmt: Formatter)
    returns (result: Result<seq<seq<Record>>, LoadError>, cache': Cache)
    ensures cache' == ParseExcelData(cache, props, env, files, fmt).1
    ensures var loaded := ParseExcelData(cache, props, env, files, fmt).0;
            && (loaded.Failure? <==> result.Failure?)
            && (loaded.Failure? ==> result.error == loaded.error)
            && (loaded.Success? ==>
                  var recs := Get(loaded.value, name).GetOr([]);
                  && |result.value| == |recs|
                  && forall i :: 0 <= i < |recs| ==> |result.value[i]| == 1 && result.value[i][0] == recs[i])
            && (loaded.Success? && Get(loaded.value, name).None? ==> result == Success([]))
  {
    var loaded;
    loaded, cache' := ParseExcelData(cache, props, env, files, fmt).0, ParseExcelData(cache, props, env, files, fmt).1;
    if loaded.Failure? {
      return Failure(loaded.error), cache';
    }
    var table := ToTable(Get(loaded.value, name).GetOr([]));
    result := Success(table);
  }
}
