# basic-memory: a Dafny model of the directory listing, observation grouping, tenant gate and project bookkeeping

This project models the small sequential cores of basic-memory, a local
knowledge base that keeps Markdown notes in a SQLite index and serves them
over an API and an MCP server. Most modules follow one source file; the
lemmas beside them prove what each core promises.

- **SearchIndex** models the migration that adds the `directory` column to the
  search index. Its `CASE … END` expression combines SQLite `rtrim` and
  `replace` on character sets into a function. Lemmas prove that it equals a
  plain reference definition: "/" followed by the text before the file
  path's last '/', with trailing slashes trimmed. They also prove that
  non-entity rows get NULL and every other column is copied unchanged.
- **SqliteText** and **Text** transcribe SQLite's text functions as the
  queries use them:
  - 1-based `substr`, including its negative-length rule;
  - `instr`, `replace` and `rtrim`;
  - the default `LIKE`, with `%` and `_` and ASCII case folding;
  - the BINARY collation order.
- **PosixPath** covers the part of `pathlib.PurePosixPath` that the code
  uses: `.name`, `.parent` and `str`.
- **DirectoryRepository** models `list_files`:
  - the three SQL selections are functions over the entity table and the
    search-index rows;
  - the three assembly loops are methods, proved equal to a reference
    listing. That listing is the candidate rows, keeping the first row for
    each path.
  - Lemmas state what the listing is: no duplicate paths, file rows first,
    the shape of synthesised rows, soundness and completeness of the file
    rows, which sub-directories and top-level directories appear, and the
    empty cases.
- **DirectoryService** models `directory_tree`. It folds the listed rows into
  a map from path to `DirectoryItem`, and lemmas say what each key ends up
  holding.
- **ObservationRepository** covers:
  - the three finders and `observation_categories`;
  - `find_by_entities`: a filter followed by a grouping loop, proved to give
    each requested entity its observations in query order.
- **TenantMiddleware** models `TenantValidationMiddleware`: the choice of
  tenant id, bearer-token extraction, the tenant check and the outcomes of
  a request. Those outcomes are disabled, 401, 403, or passed with the user
  context. `jwt.decode` is a function parameter.
- **ProjectService** covers:
  - `current_project`;
  - `switch_project`, over an environment object whose variables it writes;
  - the repository-required guards;
  - the start of the six-month activity window;
  - the merge of the three monthly growth maps.
- **ProjectRouter** models `list_projects`: one item per configured project,
  flagged as default and as current.
- **TemplateLoader** covers:
  - template-path normalisation from `.liquid` or no extension to `.hbs`;
  - the template cache of `get_template` and `clear_cache`, as a class with
    a map field;
  - the `default` and `size` helpers.
- **McpServer** models `create_auth_config` as a function of the environment
  map.

## Behaviour worth knowing

These follow from the code as written, and the model keeps them.

- **A leading '/' is doubled.** `list_files("/test")` looks in the directory
  "//test" and finds nothing. See `DirectoryRepository.LeadingSlashDoubled`.
- **Only directories with deeper directories are listed.** The sub-directory
  query lists a child directory only when the index holds a directory below
  it, and gives it a trailing '/'. See `SubdirOfDeeper` and `SubdirOfLeaf`.
- **A top-level directory without sub-directories contributes the path "//".**
  The root query's `substr(directory, 2, -1)` returns the character before
  position 2, so `root_dir` is "/". See `RootDirOfTopLevel`.
- **The template cache is looked up under one key and written under another.**
  Lookup uses the path as given; storage uses the normalised path. Asking
  twice for a path without `.hbs` reads the file twice. See
  `RawPathNotCached`.

The repository's tests
`tests/repository/test_directory_repository.py:27-34` and
`tests/services/test_directory_service.py:22-39` expect listings that the
queries cannot produce for files stored as `test/…` (for example five rows
for `list_files("/test")`). The data those tests run against is built by the
sync and entity services, which are not part of this model. The model
follows the queries. The same holds for
`tests/services/test_directory_service.py:50-131`: for the migration's
directory values, the root listing is `root.md`, `/another/`, `/test/`, `//`,
`/another` and `/test`. That folds to eight tree items, and the root key ""
gets the single child `root.md`. The test expects ten items, with the root
children `/root.md`, `/another` and `/test`.

`tests/mcp/test_bearer_auth_integration.py:42` expects a provider class other
than the `BearerAuthProvider` that `create_auth_config` builds. The model
follows the code.

## Model

| member | source | states |
|---|---|---|
| DirectoryRepository.NormalizedPath | src/basic_memory/repository/directory_repository.py:49 | the normalised path is a prefix of the request, does not end with '/', and only '/' was removed |
| DirectoryRepository.NormalizedDropsSlashes | src/basic_memory/repository/directory_repository.py:49 | a path without a trailing '/' followed by any run of slashes normalises to that path |
| DirectoryRepository.ExactPath | src/basic_memory/repository/directory_repository.py:52-58 | the exact path is "/" for the root and "/" + the normalised path otherwise |
| DirectoryRepository.SearchPath | src/basic_memory/repository/directory_repository.py:52-58 | the LIKE pattern is "/%" at root and the exact path + "/%" otherwise |
| DirectoryRepository.LeadingSlashDoubled | src/basic_memory/repository/directory_repository.py:49-58 | a request "/p" (no trailing '/') gets the exact path "//p" and the pattern "//p/%" |
| DirectoryRepository.Join | src/basic_memory/repository/directory_repository.py:72-77 | every joined row lies in the exact directory: a NULL directory never matches, so the LEFT JOIN acts as an inner join |
| DirectoryRepository.EntityQuery | src/basic_memory/repository/directory_repository.py:62-80 | the entity query's rows are title-sorted and are exactly the joined rows, counted with multiplicity |
| DirectoryRepository.JoinContains | src/basic_memory/repository/directory_repository.py:72-77 | every entity paired with an index row for its id in the exact directory is a row of the join |
| DirectoryRepository.JoinSound | src/basic_memory/repository/directory_repository.py:72-77 | every row of the join comes from an entity and an index row that join on id and directory |
| DirectoryRepository.InsertByTitle | src/basic_memory/repository/directory_repository.py:78-79 | inserting into a title-sorted sequence keeps it sorted and adds exactly that row (multiset) |
| DirectoryRepository.OrderByTitle | src/basic_memory/repository/directory_repository.py:78-79 | ORDER BY e.title gives a title-sorted permutation of the join |
| DirectoryRepository.SortedDistinct | src/basic_memory/repository/directory_repository.py:85-94 | SELECT DISTINCT … ORDER BY: strictly increasing in binary collation, with exactly the values of the input |
| DirectoryRepository.SubdirQuery | src/basic_memory/repository/directory_repository.py:84-95 | the sub-directory query's values are strictly increasing, so distinct |
| DirectoryRepository.SubdirQueryMembers | src/basic_memory/repository/directory_repository.py:84-95 | a value is returned iff some indexed directory passes the three WHERE conditions and yields it |
| DirectoryRepository.SubdirSelected | src/basic_memory/repository/directory_repository.py:89-92 | transcribes the three WHERE conditions; SubdirOfDeeper and SubdirOfLeaf say which directories pass them |
| DirectoryRepository.SubdirOf | src/basic_memory/repository/directory_repository.py:86 | transcribes the substr/instr expression; SubdirOfDeeper says it gives the first segment below the request with a trailing '/' |
| DirectoryRepository.RootDirQuery | src/basic_memory/repository/directory_repository.py:170-181 | the top-level query's values are strictly increasing, so distinct |
| DirectoryRepository.RootDirQueryMembers | src/basic_memory/repository/directory_repository.py:170-181 | a value is returned iff some indexed directory passes the WHERE conditions and yields it |
| DirectoryRepository.RootSelected | src/basic_memory/repository/directory_repository.py:175-178 | transcribes the three WHERE conditions; RootDirOfNested and RootDirOfTopLevel say which directories pass them |
| DirectoryRepository.RootDirOf | src/basic_memory/repository/directory_repository.py:172 | transcribes the substr/instr expression; RootDirOfNested and RootDirOfTopLevel say what it yields |
| DirectoryRepository.FileCandidatesMembers | src/basic_memory/repository/directory_repository.py:116-138 | the file candidates are exactly the file rows of the entity-query rows with a non-empty file path |
| DirectoryRepository.SubdirCandidatesMembers | src/basic_memory/repository/directory_repository.py:141-166 | the directory candidates are exactly the synthetic rows of the non-empty sub-directory values |
| DirectoryRepository.FileRowOf | src/basic_memory/repository/directory_repository.py:120-137 | builds the file row: the name of the path, the title or else that name, the directory or else the exact path; ListingFileSound states it of the listing |
| DirectoryRepository.DirectoryName | src/basic_memory/repository/directory_repository.py:147-149 | `Path(subdir).name`, else the last '/'-separated segment |
| DirectoryRepository.SubdirRowOf | src/basic_memory/repository/directory_repository.py:153-166 | builds the synthetic row of a sub-directory in the exact directory; ListingRowShapes states it of the listing |
| DirectoryRepository.RootRowOf | src/basic_memory/repository/directory_repository.py:186-203 | builds the synthetic row "/" + root_dir in "/"; RootCandidatesDistinct and ListingRowShapes state it of the listing |
| DirectoryRepository.RootCandidatesDistinct | src/basic_memory/repository/directory_repository.py:170-203 | the top-level rows have pairwise distinct paths, each a directory row in "/" with path "/" + a value of the query |
| DirectoryRepository.Dedup | src/basic_memory/repository/directory_repository.py:124-125 | the kept rows have pairwise distinct paths, cover every path of the input and are input rows |
| DirectoryRepository.DedupKeepsEarliest | src/basic_memory/repository/directory_repository.py:124-125 | for every input row, the row kept for its path is that row or an earlier one |
| DirectoryRepository.KeepFirst | src/basic_memory/repository/directory_repository.py:124-126 | one loop step extends the first-per-path listing by one candidate and keeps `seen_paths` equal to the listed paths |
| DirectoryRepository.AddFileRows | src/basic_memory/repository/directory_repository.py:116-138 | the file loop turns the rows so far into the first-per-path listing of them followed by the file candidates |
| DirectoryRepository.AddSubdirRows | src/basic_memory/repository/directory_repository.py:141-166 | the sub-directory loop extends that listing by the directory candidates |
| DirectoryRepository.AddRootRows | src/basic_memory/repository/directory_repository.py:185-203 | the top-level loop extends that listing by the top-level candidates |
| DirectoryRepository.Candidates | src/basic_memory/repository/directory_repository.py:116-203 | the rows the three loops consider, in the order they visit them, the top-level ones only at root; Listing and ListFiles state what is kept |
| DirectoryRepository.Listing | src/basic_memory/repository/directory_repository.py:112-205 | no two rows share a path, every candidate path is listed, and every row is a candidate |
| DirectoryRepository.ListFiles | src/basic_memory/repository/directory_repository.py:38-205 | `list_files` returns the reference listing (the top-level scan only at root), and no two rows share a path |
| DirectoryRepository.ListingFilesFirst | src/basic_memory/repository/directory_repository.py:116-203 | every file row precedes every synthesised directory row |
| DirectoryRepository.ListingRowShapes | src/basic_memory/repository/directory_repository.py:112-203 | every row lies in the exact directory. A file row has a non-empty path and its file name as name. Any other row is synthesised, from a sub-directory value with its name, or (at root only) from a top-level value with path "/" + name and directory "/". |
| DirectoryRepository.ListingFileSound | src/basic_memory/repository/directory_repository.py:116-138 | every file row is an entity joined in the exact directory, with title falling back to the file name and the entity's columns copied |
| DirectoryRepository.ListingFileComplete | src/basic_memory/repository/directory_repository.py:116-138 | every entity with a file path joined in the exact directory is listed as a file row under its path |
| DirectoryRepository.ListingEmptyIndex | tests/repository/test_directory_repository.py:9-12 | an empty search index lists nothing, whatever the request |
| DirectoryRepository.ListingUnmatched | tests/repository/test_directory_repository.py:38-40 | a non-root request that no indexed directory equals or lies below lists nothing |
| DirectoryRepository.SlashAfterDeeper | src/basic_memory/repository/directory_repository.py:86-92 | `instr(substr(directory, length(exact)+2), '/')` finds the '/' that ends the next segment |
| DirectoryRepository.SubdirOfDeeper | src/basic_memory/repository/directory_repository.py:86-92 | a directory two or more levels down is selected and yields its first segment below the request, with a trailing '/' |
| DirectoryRepository.SubdirOfLeaf | src/basic_memory/repository/directory_repository.py:92 | a directory exactly one level down is not selected |
| DirectoryRepository.RootDirOfNested | src/basic_memory/repository/directory_repository.py:172-178 | a top-level directory with sub-directories is selected and yields its own name |
| DirectoryRepository.RootDirOfTopLevel | src/basic_memory/repository/directory_repository.py:172-186 | a top-level directory without sub-directories is selected, yields "/", and so is listed under the path "//" |
| DirectoryRepository.ListingSubdir | src/basic_memory/repository/directory_repository.py:84-166 | the first segment below the request of every deeper indexed directory is a listed path |
| DirectoryRepository.ListingRootDir | src/basic_memory/repository/directory_repository.py:169-203 | at root, "/" + name is a listed path for every top-level directory with sub-directories |
| SearchIndex.Restore | src/basic_memory/alembic/versions/a1e32c5f1234_add_directory_column_to_search_index.py:104-129 | the restored row carries every old column unchanged, plus the CASE expression's directory |
| SearchIndex.RestoreAllDirectories | src/basic_memory/alembic/versions/a1e32c5f1234_add_directory_column_to_search_index.py:97-131 | row by row the restore returns every old column, gives a directory exactly to entity (or untyped) rows with a file path, and that directory is "/" + the text before the last '/', trailing slashes trimmed |
| SearchIndex.DirectoryColumn | src/basic_memory/alembic/versions/a1e32c5f1234_add_directory_column_to_search_index.py:106-127 | transcribes the CASE expression; RestoreAllDirectories and RestoreNonEntity state which rows get a directory |
| SearchIndex.DirectoryOf | src/basic_memory/alembic/versions/a1e32c5f1234_add_directory_column_to_search_index.py:109-126 | transcribes the nested rtrim/replace; DirectoryOfSpec proves it equal to the last-slash definition |
| SearchIndex.RestoreNonEntity | src/basic_memory/alembic/versions/a1e32c5f1234_add_directory_column_to_search_index.py:106-107 | a row whose type is not 'entity' gets a NULL directory and keeps its other columns |
| SearchIndex.TrimNameChars | src/basic_memory/alembic/versions/a1e32c5f1234_add_directory_column_to_search_index.py:117-121 | trimming every non-'/' character from the right leaves the path through its last '/' |
| SearchIndex.CutDirectory | src/basic_memory/alembic/versions/a1e32c5f1234_add_directory_column_to_search_index.py:114-123 | removing that prefix leaves the file name, or the whole path when it has no '/' |
| SearchIndex.TrimFileName | src/basic_memory/alembic/versions/a1e32c5f1234_add_directory_column_to_search_index.py:111-124 | trimming the file name's characters from the right leaves the path through its last '/' |
| SearchIndex.DirectoryOfSpec | src/basic_memory/alembic/versions/a1e32c5f1234_add_directory_column_to_search_index.py:109-126 | the expression is "/" + the text before the last '/', trailing slashes trimmed |
| SearchIndex.DirectoryOfTopLevel | src/basic_memory/alembic/versions/a1e32c5f1234_add_directory_column_to_search_index.py:109-126 | a file path without '/' lies in "/" |
| SearchIndex.DirectoryOfNested | src/basic_memory/alembic/versions/a1e32c5f1234_add_directory_column_to_search_index.py:109-126 | `dir + "/" + name` lies in "/" + dir (a/b/c.md lies in /a/b) |
| SearchIndex.DirectoryOfShape | src/basic_memory/alembic/versions/a1e32c5f1234_add_directory_column_to_search_index.py:109-126 | the directory starts with '/', and ends with '/' only when it is "/" |
| PosixPath.ParentDropsName | src/basic_memory/services/directory_service.py:87 | `.parent` removes exactly the last part of a path, and `.name` is that part |
| PosixPath.ParentWithoutParts | src/basic_memory/services/directory_service.py:87-89 | a path without parts is its own parent, with "" read as "." |
| DirectoryService.DirectoryTree | src/basic_memory/services/directory_service.py:26-114 | `directory_tree` is the fold of the listing; `include_files` has no effect |
| DirectoryService.ParentKey | src/basic_memory/services/directory_service.py:87-89 | `str(Path(path).parent)` with "." read as ""; ParentKeyParts states its parts |
| DirectoryService.Attach | src/basic_memory/services/directory_service.py:91-112 | one loop iteration as a map update; AttachAt states what each key holds afterwards |
| DirectoryService.Fold | src/basic_memory/services/directory_service.py:81-112 | the loop over the rows; FoldKeys, FoldLeaf and FoldFolder state what it builds |
| DirectoryService.Tree | src/basic_memory/services/directory_service.py:79-114 | the fold with pathlib's parent key; BuildTree computes it |
| DirectoryService.BuildTree | src/basic_memory/services/directory_service.py:81-112 | the loop computes the fold of the rows |
| DirectoryService.AddRow | src/basic_memory/services/directory_service.py:86-112 | one iteration appends the path to its parent's children (creating the parent folder), then stores the row's leaf |
| DirectoryService.AttachAt | src/basic_memory/services/directory_service.py:92-112 | after one iteration: the row's key holds its leaf; the parent key holds its old item with the path appended, or a new folder with the path as its only child; other keys are unchanged |
| DirectoryService.FoldKeys | src/basic_memory/services/directory_service.py:81-112 | the keys are exactly the rows' paths and their parents' keys |
| DirectoryService.FoldLeaf | src/basic_memory/services/directory_service.py:105-112 | the last row with a path leaves a non-folder item with its name as data, replacing any earlier item there, with the later rows under it as children |
| DirectoryService.FoldFolder | src/basic_memory/services/directory_service.py:92-102 | a parent key that is no row's path holds a folder named after it (or "Root") listing every row under it in order |
| DirectoryService.ParentKeyParts | src/basic_memory/services/directory_service.py:87-89 | the parent key ("." mapped to "") has the path's parts but the last |
| DirectoryService.TreeOfEmptyIndex | tests/services/test_directory_service.py:13-18 | an empty index gives an empty tree |
| DirectoryService.TreeOfUnmatched | tests/services/test_directory_service.py:43-46 | a request that no indexed directory equals or lies below gives an empty tree |
| ObservationRepository.Where | src/basic_memory/repository/observation_repository.py:18-34 | a filter returns at most the table's rows |
| ObservationRepository.WhereMembers | src/basic_memory/repository/observation_repository.py:18-34 | a row is returned iff it is in the table and satisfies the condition, as often as in the table |
| ObservationRepository.FindByEntity | src/basic_memory/repository/observation_repository.py:18-22 | exactly the observations of that entity |
| ObservationRepository.FindByContext | src/basic_memory/repository/observation_repository.py:24-28 | exactly the observations with that context; a NULL context never matches |
| ObservationRepository.FindByCategory | src/basic_memory/repository/observation_repository.py:30-34 | exactly the observations with that category |
| ObservationRepository.ObservationCategories | src/basic_memory/repository/observation_repository.py:36-40 | no duplicates, and a category is listed iff some observation has it |
| ObservationRepository.FindByEntities | src/basic_memory/repository/observation_repository.py:42-66 | no ids give {}. The keys are the requested ids that have observations, each mapped to its observations in query order, and the group sizes sum to the number of matched observations. |
| ObservationRepository.GroupByEntity | src/basic_memory/repository/observation_repository.py:59-64 | the grouping loop computes the group map of its input |
| ObservationRepository.AppendToGroup | src/basic_memory/repository/observation_repository.py:61-64 | one iteration creates the empty list for a new id, then appends the observation |
| ObservationRepository.GroupedSnoc | src/basic_memory/repository/observation_repository.py:61-64 | one iteration keeps the map grouped: keys are the ids present, each group is that id's rows, and the sizes sum to the row count |
| ObservationRepository.GroupMapGrouped | src/basic_memory/repository/observation_repository.py:59-64 | the group map of any rows is grouped in that sense |
| ObservationRepository.GroupOfRequested | src/basic_memory/repository/observation_repository.py:54-56 | filtering by the id list and then by one id gives that id's observations if requested, else none |
| TenantMiddleware.NewMiddlewareEnabled | src/basic_memory/mcp/tenant_middleware.py:28-33 | validation is on iff the argument or the environment holds a non-empty tenant id |
| TenantMiddleware.NewMiddlewareArgumentWins | src/basic_memory/mcp/tenant_middleware.py:28 | a non-empty argument is the tenant id whatever the environment holds, and validation is on |
| TenantMiddleware.NewMiddlewareFallsBack | src/basic_memory/mcp/tenant_middleware.py:28 | an empty argument behaves as none, and the tenant id is then set iff the environment variable is |
| TenantMiddleware.ExtractJwt | src/basic_memory/mcp/tenant_middleware.py:44-51 | a token is found iff the header is present and starts with "Bearer ", and the header is "Bearer " + token |
| TenantMiddleware.ExtractJwtOfBearer | src/basic_memory/mcp/tenant_middleware.py:44-51 | the header "Bearer " + t gives back t |
| TenantMiddleware.ValidateTenantAccess | src/basic_memory/mcp/tenant_middleware.py:83-100 | always true without a tenant; with one, true iff the `tenant_id` claim is that string |
| TenantMiddleware.Call | src/basic_memory/mcp/tenant_middleware.py:102-142 | only 401 and 403 are raised, 403 only with validation on; with it on, a request let through carried the instance's tenant id and its context reports it |
| TenantMiddleware.CallWithoutToken | src/basic_memory/mcp/tenant_middleware.py:117-124 | no token (including a bare "Bearer ") gives 401 "Missing Authorization header" when validation is on, else the disabled marker |
| TenantMiddleware.CallInvalidToken | src/basic_memory/mcp/tenant_middleware.py:127-129 | a token that fails to decode or decodes to an empty payload gives 401 "Invalid JWT token" |
| TenantMiddleware.CallWrongTenant | src/basic_memory/mcp/tenant_middleware.py:131-133 | with validation on, a token for another tenant gives 403 |
| TenantMiddleware.CallPassed | src/basic_memory/mcp/tenant_middleware.py:132-142 | a decoded token passes with the user context if its tenant matches or validation is off |
| TenantMiddleware.CallIsolatesTenant | src/basic_memory/mcp/tenant_middleware.py:102-142 | with validation on, every accepted request carried the instance's tenant id, and the context reports it |
| TenantMiddleware.CallErrors | src/basic_memory/mcp/tenant_middleware.py:116-133 | the only errors are 401 and 403; 403 only with validation on; with it off, only "Invalid JWT token" |
| McpServer.AuthEnabledSpelling | src/basic_memory/mcp/server.py:52 | auth is on iff the flag is "true" in any letter case |
| McpServer.AuthEnabled | src/basic_memory/mcp/server.py:52 | auth can only be on when the flag is set, to a four-character value: the default "false" never enables it |
| McpServer.CreateAuthConfig | src/basic_memory/mcp/server.py:48-87 | the settings slot is never filled, and a provider is built only with auth on and a non-empty JWKS URI and issuer |
| McpServer.CreateAuthConfigSpec | src/basic_memory/mcp/server.py:48-87 | the settings slot is always None. A provider exists iff the flag is on and the JWKS URI and issuer are non-empty; it carries them and the audience, defaulting to "basic-memory-mcp". |
| McpServer.DisabledIgnoresRest | src/basic_memory/mcp/server.py:52-87 | with the flag off the result is (None, None) whatever else is set |
| ProjectService.SwitchProject | src/basic_memory/services/project_service.py:86-99 | an unknown name gives the ValueError message and leaves the environment as it was; a known name sets only BASIC_MEMORY_PROJECT, keeps every other variable, and makes it the current project whatever the default |
| ProjectService.EnvironmentOverridesDefault | src/basic_memory/services/project_service.py:50-57 | the environment variable overrides the configured default exactly when it is set |
| ProjectService.CurrentAfterSwitch | src/basic_memory/services/project_service.py:95-99 | after a switch, the current project is the new name and the other variables are unchanged |
| ProjectService.SixMonthsAgo | src/basic_memory/services/project_service.py:302-305 | for month 1..12: ValueError exactly in January–June of year 1; otherwise day 1, a month in 1..12, six months before `now` |
| ProjectService.SixMonthsAgoUnique | src/basic_memory/services/project_service.py:302-305 | that date is the only first-of-month six months back |
| ProjectService.MergeMonthlyGrowth | src/basic_memory/services/project_service.py:351-367 | the keys are the union of the three maps' months; each count is the map's value or 0; total is their sum |
| ProjectRouter.ListProjects | src/basic_memory/api/routers/project_router.py:25-54 | one item per project in order, flagged by equality with the default and the current project; both are echoed |
| ProjectRouter.ExactlyOneFlagged | src/basic_memory/api/routers/project_router.py:39-48 | with distinct names, at most one item is default and one current; a configured default or current is flagged; an unconfigured default flags nothing |
| TemplateLoader.NormalizedEndsWithHbs | src/basic_memory/api/template_loader.py:145-149 | a normalised path always ends with ".hbs" |
| TemplateLoader.HbsFixed | src/basic_memory/api/template_loader.py:148-149 | a path that ends with ".hbs" is left unchanged |
| TemplateLoader.NormalizeFixedPoints | src/basic_memory/api/template_loader.py:145-149 | normalising changes nothing iff the path ends with ".hbs", and is idempotent |
| TemplateLoader.NormalizeTemplatePath | src/basic_memory/api/template_loader.py:145-149 | transcribes the rewrite; NormalizedEndsWithHbs and NormalizeFixedPoints state its result |
| TemplateLoader.Loader.constructor | src/basic_memory/api/template_loader.py:113 | the cache starts empty |
| TemplateLoader.Loader.GetTemplate | src/basic_memory/api/template_loader.py:130-163 | a cached raw path returns its template unchanged; a missing file gives "Template not found" and leaves the cache; otherwise the compiled file is returned and cached under the normalised path only |
| TemplateLoader.Loader.ClearCache | src/basic_memory/api/template_loader.py:178-181 | the cache is empty afterwards |
| TemplateLoader.RawPathNotCached | src/basic_memory/api/template_loader.py:142-160 | a load for a path without ".hbs" does not make that raw path a cache key |
| TemplateLoader.DefaultHelperProperties | src/basic_memory/api/template_loader.py:35-39 | the result is None or "" only if the default is, and applying the helper again changes nothing |
| TemplateLoader.DefaultHelper | src/basic_memory/api/template_loader.py:35-39 | transcribes `_default_helper`; DefaultHelperProperties states its properties |
| TemplateLoader.SizeHelper | src/basic_memory/api/template_loader.py:57-63 | transcribes `_size_helper`; SizePositive characterises when it is positive |
| TemplateLoader.SizePositive | src/basic_memory/api/template_loader.py:57-63 | the size is positive iff the value is a non-empty str, list, tuple or dict |

## Left out

- **Database, I/O and async plumbing.** This covers the SQL engine, sessions,
  `execute_query`, `async`/`await` and logging. The tables are sequences
  handed to the functions, and the queries are functions over them.
- DirectoryRepository.SubdirOfDeeper (and likewise SlashAfterDeeper,
  SubdirOfLeaf, RootDirOfNested, RootDirOfTopLevel, ListingSubdir and
  ListingRootDir) assumes the directory is at most `SqliteText.MaxLength` characters long.
  That is the length `substr(X, Y)` uses for its missing argument, and
  SQLite stores no longer text.
- **The join order.** The model joins entity by entity and, within an
  entity, in index order. The order SQLite actually uses is unspecified;
  ORDER BY e.title only fixes rows with different titles.
- **The dictionary order of `directory_items`.** The tree is a Dafny map, so
  the insertion order of the keys is not modelled.
- **Headers as a case-sensitive map.** Starlette's case-insensitive header
  lookup is simplified: the key is "authorization".
- **Floating-point claims.** The JSON `Value` of a token payload has no
  float. The tenant check is unaffected, because a float never equals a
  string tenant id. But a float `sub`, `email` or `user_role` cannot be
  echoed into the user context.
- **`decode_jwt_claims`.** It calls `jwt.decode`, a library function; it is
  the parameter `decode`.
- McpServer.AuthEnabledSpelling: the model lower-cases ASCII letters only. Python's
  `str.lower` also folds other letters, some of which lower to ASCII. For
  example 'K' (U+212A, the Kelvin sign) lowers to 'k'. No such letter lowers
  to any of "true", so the result agrees.
- **The configuration system.** `switch_project` returns a reloaded module
  configuration. The model returns only success or the error, and writes
  the environment.
- **add_project, remove_project and set_default_project.** They delegate to a
  ConfigManager that is not part of this model.
- **The SQL counts of get_statistics and get_activity_metrics, and
  get_system_status.** These are SQL aggregates, a file `stat`, JSON reads
  and float formatting. Only the guards, the six-month window and the merge
  loop are modelled.
- **The clock.** `datetime.now()` is the parameter `now`.
- **The month keys.** They are treated as opaque strings, not as the
  `strftime('%Y-%m')` of a timestamp.
- TemplateLoader.Loader.GetTemplate does not reproduce the error
  message's full path. The model reports the normalised relative path. The
  template directory is the map `files`, and the Handlebars compiler is the
  function `compile`. `files` is keyed by the normalised path itself, not by
  `template_dir / template_path`. So the model does not capture that an
  absolute template path replaces the directory, that pathlib collapses
  "a//b" to "a/b", or that `exists()` also holds for a directory.
- **`render` and the other helpers** (`date`, `capitalize`, `round`, `json`,
  `math`, `lt`). These are pybars rendering, float arithmetic, `strftime`
  and `json.dumps`.
- ObservationRepository.FindByCategory: a non-null category. The model gives every
  observation a category, because the schema requires one. A NULL context
  is modelled.
- **The other operations of the shown files.** These are the authorization
  router, the prompt router, initialisation, the CLI and the application
  wiring. They are HTTP, CLI and start-up plumbing around services whose
  code is not part of this model.
- **The rest of the migration.** The FTS5 table definitions, the backup copy
  and `downgrade` are database definitions. Only the restore's column
  mapping and the directory expression are modelled.
