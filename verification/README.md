# Two-sheet Excel test-data loader, modelled in Dafny

This project models `ExcelReader`, the test-data loader of a Selenium/TestNG
automation framework. It reads one workbook with two sheets:

- `TestParameters` holds the schema. Each row names a test method (column
  `TestName`). The header row supplies the ordered list of parameter keys
  that every such test expects.
- `TestData` holds the values. Each row carries a test name and a value per
  column. The values are joined with the schema by header name.

The loader returns an insertion-ordered map from test name to a list of
data sets. Each data set is an insertion-ordered map from parameter name to
value. The parse is cached in two static fields and reused while the
resolved file path stays the same. `getTestData` turns one test's list into
an n-by-1 table for a TestNG data provider.

Modules:

- `Wrappers`: `Option` and `Result`.
- `JavaStrings`: `String.trim`, against an independent slice-based meaning.
  Also `equalsIgnoreCase` (ASCII letters only) and `String.valueOf(boolean)`.
- `OrderedMaps`: `LinkedHashMap` as an association list.
  - `put` overwrites in place or appends.
  - `putIfAbsent` followed by `add`.
  - The first-occurrence order of a sequence.
- `Workbooks`:
  - The workbook model: tagged cells, rows and sheets with absent entries.
  - `getPhysicalNumberOfCells` and case-insensitive `getSheet`.
  - The sheet and column names, and the error outcomes.
- `Coercion`: `getCellValueAsString`. The POI `DataFormatter` is an opaque
  function parameter. A formula cell carries its evaluated result.
- `Schema`: phase 1, the schema sheet to a map from test name to its keys.
- `Join`: phase 2.
  - The data header index.
  - The per-row record and its meaningfulness flag.
  - The grouping by test name.
- `Loader`: `getExcelFilePathFromConfig`, `parseExcelData` and `getTestData`.
  - `parseExcelData` is a transition on an explicit cache value.
  - Configuration, the file system and `user.dir` are parameters.

The loader's Java loops become folds over prefixes of precomputed sequences.
Each fold is proved against an independent reference description:
- the longest run of non-empty header texts;
- "the last column carrying the name";
- the records emitted for a name, in row order;
- the first-occurrence order of emitted names.

## Model

All source paths are under `src/main/java/com/sagar/automation/utilities/`.

| member | source | states |
|---|---|---|
| Coercion.Coerce | src/main/java/com/sagar/automation/utilities/ExcelReader.java:266-299 | An absent, blank or error cell, or a formula whose result is an error, gives "". A numeric cell gives the formatter's output, date-formatted or not. A string cell gives its trimmed text. A boolean gives "true" exactly when true. Every non-formatter result is already trimmed. |
| Coercion.CoerceFormula | src/main/java/com/sagar/automation/utilities/ExcelReader.java:281-293 | A formula is coerced by the kind of its evaluated result. A string result is trimmed. A numeric result is formatted through the formula cell itself. A boolean gives its text. Anything else gives "". |
| Coercion.CoerceEmptyIff | src/main/java/com/sagar/automation/utilities/ExcelReader.java:266-299 | The coerced value is "" exactly when one of three things holds: the cell is an always-empty kind, its text is nothing but trim-space, or the formatter renders it as "". |
| Coercion.CoerceTrimStable | src/main/java/com/sagar/automation/utilities/ExcelReader.java:105-106 | The extra `.trim()` the loader applies to a coerced value changes nothing unless the value came from the formatter. |
| JavaStrings.TrimMeaning | src/main/java/com/sagar/automation/utilities/ExcelReader.java:272 | `trim` returns the slice of its input that has only chars at or below U+0020 outside it and none at its own ends. |
| JavaStrings.TrimIdempotent | src/main/java/com/sagar/automation/utilities/ExcelReader.java:106 | Trimming twice is the same as trimming once. |
| JavaStrings.TrimEmptyIff | src/main/java/com/sagar/automation/utilities/ExcelReader.java:108 | A trimmed name is empty exactly when the raw text is all trim-space. |
| JavaStrings.BoolText | src/main/java/com/sagar/automation/utilities/ExcelReader.java:280 | A boolean renders as "true" exactly when true and as "false" exactly when false. |
| Workbooks.GetSheet | src/main/java/com/sagar/automation/utilities/ExcelReader.java:86 | A sheet is found exactly when some sheet's name equals the requested one ignoring case. The one found is such a sheet. |
| OrderedMaps.Get | src/main/java/com/sagar/automation/utilities/ExcelReader.java:172 | A lookup succeeds exactly for a present key and returns that key's stored value. |
| OrderedMaps.Put | src/main/java/com/sagar/automation/utilities/ExcelReader.java:192 | After `put`, the key maps to the new value and every other key is unchanged. An existing key keeps its position and a new key goes last. Distinct keys stay distinct. |
| OrderedMaps.AppendTo | src/main/java/com/sagar/automation/utilities/ExcelReader.java:199-200 | `putIfAbsent` then `add` appends the record to the key's list, creating it empty first when missing. Other keys and the key order are otherwise unchanged. |
| Schema.LeadingKeys | src/main/java/com/sagar/automation/utilities/ExcelReader.java:113-123 | The key loop yields the header texts from column 1 onward, all non-empty. It stops at the first empty text or at the bound. |
| Schema.SchemaKeysLongestRun | src/main/java/com/sagar/automation/utilities/ExcelReader.java:113-123 | For a header whose cell 0 exists, the keys are exactly the longest run of non-empty header texts from column 1. The text just after the run is empty. The physical-cell bound never cuts the run short. |
| Schema.SchemaFold | src/main/java/com/sagar/automation/utilities/ExcelReader.java:100-130 | Every schema entry has a non-empty name and the header's key list. Names are distinct, in order of first appearance among non-empty row names. There are none when the key list is empty. |
| Schema.SchemaLookup | src/main/java/com/sagar/automation/utilities/ExcelReader.java:100-130 | A test name has schema keys exactly when the name is non-empty, the header defines keys, and some parameter row carries the name. Its keys are then the header's. |
| Schema.ParseSchema | src/main/java/com/sagar/automation/utilities/ExcelReader.java:85-130 | Fails with "sheet missing" exactly when there is no parameter sheet. Fails with "header invalid" exactly when row 0 is absent or cell 0 is not `TestName` ignoring case. Otherwise every entry has a non-empty name and the header's non-empty key list. |
| Join.IndexFold | src/main/java/com/sagar/automation/utilities/ExcelReader.java:148-155 | Every non-empty header text is indexed. Each indexed name maps to the last column carrying it. |
| Join.IndexFoldLookup | src/main/java/com/sagar/automation/utilities/ExcelReader.java:148-155 | The empty name, or a name no column carries, is not indexed. A name maps to exactly the last column that carries it. |
| Join.ColumnValueByName | src/main/java/com/sagar/automation/utilities/ExcelReader.java:183-191 | A key's value is the coerced cell of the last column within the physical-cell count whose header is that key. It is "" when no such column exists. |
| Join.HeaderIndexWithinPhysicalCount | src/main/java/com/sagar/automation/utilities/ExcelReader.java:150 | Only columns below the header's physical-cell count are ever indexed. |
| Join.HeaderGapHidesLastColumn | src/main/java/com/sagar/automation/utilities/ExcelReader.java:150-155 | Take the header `TestName`, `EMAIL`, an absent cell, `PASSWORD`. It has three physical cells, so `PASSWORD` is not indexed. |
| Join.FillRecordGet | src/main/java/com/sagar/automation/utilities/ExcelReader.java:183-192 | After the key loop, each schema key maps to its value. Every other name keeps what it held. |
| Join.AnyValue | src/main/java/com/sagar/automation/utilities/ExcelReader.java:181-196 | The meaningfulness flag is raised exactly when some schema key's value is non-empty. |
| Join.BuildRecordShape | src/main/java/com/sagar/automation/utilities/ExcelReader.java:178-196 | A record holds exactly `TestName` and the schema keys, with distinct names. Each key holds its column's value. `TestName` holds the row's name unless a key of that name overwrote it. The flag means some key's value is non-empty. |
| Join.RowRecordEmitted | src/main/java/com/sagar/automation/utilities/ExcelReader.java:164-204 | A data row is emitted exactly when three things hold: its name is non-empty, the name has a non-empty schema key list, and some key reads non-empty. |
| Join.RowRecordShape | src/main/java/com/sagar/automation/utilities/ExcelReader.java:172-201 | An emitted row's record is keyed by the row's own name. It has the full schema shape, and each key holds its column's value. |
| Join.GroupFoldSpec | src/main/java/com/sagar/automation/utilities/ExcelReader.java:198-201 | Each name maps to exactly its emitted records in row order, and has no entry when it has none. Names appear in order of their first emitted record. |
| Join.JoinData | src/main/java/com/sagar/automation/utilities/ExcelReader.java:135-146 | Fails with "data sheet missing" exactly when there is no data sheet. Fails with "header invalid" exactly when its row 0 is absent or cell 0 is not `TestName` ignoring case. |
| Join.JoinRowsGated | src/main/java/com/sagar/automation/utilities/ExcelReader.java:159-205 | Every joined name has a non-empty list. Each of its records has the schema shape, and some data row carries that name. |
| Join.JoinedShape | src/main/java/com/sagar/automation/utilities/ExcelReader.java:172-196 | Every joined name is non-empty and appears in the parameter sheet. Every data set holds exactly `TestName` plus the parameter header's keys, at least one of them non-empty. |
| Loader.ResolvePath | src/main/java/com/sagar/automation/utilities/ExcelReader.java:39-49 | Fails with "config missing" exactly when the property is absent or "". Otherwise the path is the data directory followed by the property's value. |
| Loader.ResolvePathInjective | src/main/java/com/sagar/automation/utilities/ExcelReader.java:46 | In one environment, equal paths come from equal file names. |
| Loader.ParseWorkbook | src/main/java/com/sagar/automation/utilities/ExcelReader.java:85-146 | The four sheet and header errors occur exactly under their conditions, checked in source order: the parameter sheet first, the data sheet only after it. |
| Loader.ParseWorkbookParts | src/main/java/com/sagar/automation/utilities/ExcelReader.java:85-205 | A successful parse had both sheets with valid headers. Its value is the data rows after the header, joined with the schema built from the parameter rows after the header. |
| Loader.ParseWorkbookShape | src/main/java/com/sagar/automation/utilities/ExcelReader.java:85-210 | End to end over a workbook: every parsed test name is non-empty and named in the parameter sheet, its list is non-empty, and every data set has exactly `TestName` plus the schema keys, one of them non-empty. |
| Loader.ReadWorkbook | src/main/java/com/sagar/automation/utilities/ExcelReader.java:76-80 | A path with no file fails with "file not found" before anything is parsed. |
| Loader.ParseExcelData | src/main/java/com/sagar/automation/utilities/ExcelReader.java:61-210 | The configuration check runs first on every call. A failure leaves both cache fields unchanged. A success stores the path and the returned map. Once a path is stored, one always is. |
| Loader.CacheHitIgnoresFiles | src/main/java/com/sagar/automation/utilities/ExcelReader.java:65-69 | On a hit, the cached map and the unchanged cache are returned, whatever the file system holds. |
| Loader.CacheMissReads | src/main/java/com/sagar/automation/utilities/ExcelReader.java:71-83 | On a miss, the result is a fresh read of the resolved path. |
| Loader.PathChangeInvalidates | src/main/java/com/sagar/automation/utilities/ExcelReader.java:65-69 | When the resolved path differs from the stored one, the result is what a cold start gives. |
| Loader.RepeatedLoadIsStable | src/main/java/com/sagar/automation/utilities/ExcelReader.java:65-69 | After a successful load, loading again with unchanged inputs gives the same result and cache. |
| Loader.EmptyResultNeverHits | src/main/java/com/sagar/automation/utilities/ExcelReader.java:66 | A load that parsed to an empty map is never served from the cache. The next call re-reads the file as it is then. |
| Loader.ToTable | src/main/java/com/sagar/automation/utilities/ExcelReader.java:252-256 | The data-provider table has one row per data set, in order. Each row is a one-element row holding that data set. |
| Loader.GetTestData | src/main/java/com/sagar/automation/utilities/ExcelReader.java:240-257 | A load failure propagates with the same error. Otherwise the table has one row per data set of the test, in order, each a one-element row holding that data set. An unknown test gives an empty table. The cache moves as for one load. |

## Left out

- File handling is not modelled. This covers `File.exists`, opening the stream, closing the workbook and the stream in `finally`, and the `IOException`s those can raise.
- An unreadable or corrupt `.xlsx` is not modelled. The `XSSFWorkbook` constructor's failures are not modelled either. Files map paths to already-parsed workbooks.
- Logging is not modelled. Every `log.*` call has no effect on the result.
- `ConfigReader.initializeProperties` and the `config.properties` file are not modelled. Configuration is a map parameter. `ConfigReader` is not part of this model.
- `System.getProperty("user.dir")` and `File.separator` are not modelled. They are an `Environment` parameter.
- POI's `DataFormatter` is not modelled. It is an opaque `Formatter` parameter, because its output depends on number formats, locale and dates.
- `FormulaEvaluator` is not modelled. A formula cell carries its evaluated result, and evaluation failures are not modelled.
- `DateUtil.isCellDateFormatted` is a flag on the numeric cell. Both of its branches call the formatter the same way.
- Coercion.Coerce: a cached-formula type is not modelled apart from the evaluated result, and unknown cell types are treated like error cells (both give "").
- JavaStrings.EqualsIgnoreCase: folds case for ASCII letters only, because full Unicode case folding is out of scope. Sheet names and the `TestName` header are ASCII.
- Workbooks.GetSheet: case-insensitive lookup is the behaviour of `XSSFWorkbook.getSheet`. The POI library is not part of this model.
- `getLastRowNum` is the last index of a sheet's row sequence. Absent rows inside it are `None`. Loops run over the rows after the header.
- Thread safety of the two static cache fields is not modelled. Concurrent data providers are out of scope.
- The map returned on a cache hit aliases the cached map. Mutation through it is not modelled, since values are immutable here.
- Running the tests, page objects, drivers and the rest of the framework are not modelled. They do not touch the loader's logic.
- Join.ColumnValueByName: no permutation lemma says a data sheet with reordered columns gives the same records. That holds only when the header has no gap before its last column (see Join.HeaderGapHidesLastColumn), so the by-name statement is proved instead.
- Loader.ParseWorkbook: its own contract covers only the error outcomes. The value of a success is given by Loader.ParseWorkbookParts and Loader.ParseWorkbookShape.
