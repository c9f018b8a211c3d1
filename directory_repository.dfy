/**
 * `DirectoryRepository.list_files`: the three SQL selections over the entity
 * table and the search index, as functions, and the assembly loops that turn
 * their rows into de-duplicated `FileRow`s, as a method proved equal to the
 * reference listing `Listing`.
 */
module DirectoryRepository {
  import opened Wrappers
  import opened Text
  import opened SqliteText
  import PosixPath
  import opened SearchIndex

  /** The columns of the `entity` table that the listing reads. */
  datatype Entity = Entity(
    id: int, title: string, entityType: string, contentType: string,
    permalink: Option<string>, filePath: string, updatedAt: string)

  /** A row of the entity query: the entity's columns and the joined index row's directory. */
  datatype JoinRow = JoinRow(
    entityId: int, title: string, entityType: string, contentType: string,
    permalink: Option<string>, filePath: string, updatedAt: string, directory: Option<string>)

  /** A file or directory node of the listing. */
  datatype FileRow = FileRow(
    name: string, path: string, title: string, directory: string, rowType: string,
    permalink: Option<string>, entityId: Option<int>, contentType: Option<string>,
    updatedAt: Option<string>)

  // ---- The requested directory ----

  /** The requested path without its trailing slashes. */
  function NormalizedPath(directoryPath: string): (n: string)
    ensures StartsWith(directoryPath, n)
    ensures n == [] || n[|n| - 1] != '/'
    ensures forall i :: |n| <= i < |directoryPath| ==> directoryPath[i] == '/'
  {
    TrimRight(directoryPath, "/")
  }

  /** The value the directory column must equal for a file directly in the requested directory. */
  function ExactPath(normalized: string): (e: string)
    ensures StartsWith(e, "/")
    ensures normalized == [] <==> e == "/"
    ensures normalized != [] ==> e[1..] == normalized
  {
    if normalized == [] then "/" else "/" + normalized
  }

  /** The LIKE pattern for directories below the requested directory. */
  function SearchPath(normalized: string): (p: string)
    ensures normalized == [] ==> p == "/%"
    ensures normalized != [] ==> p == ExactPath(normalized) + "/%"
  {
    if normalized == [] then "/%" else "/" + normalized + "/%"
  }

  /** The prefix every directory matched by `SearchPath` starts with. */
  function ChildPrefix(normalized: string): string {
    if normalized == [] then "/" else "/" + normalized + "/"
  }

  // ---- The entity query: e LEFT JOIN si ON e.id = si.entity_id WHERE si.directory = :exact_path ORDER BY e.title ----

  predicate Joins(e: Entity, si: IndexRow, exact: string) {
    si.entityId == Some(e.id) && si.directory == Some(exact)
  }

  function JoinOf(e: Entity, si: IndexRow): JoinRow {
    JoinRow(e.id, e.title, e.entityType, e.contentType, e.permalink, e.filePath, e.updatedAt, si.directory)
  }

  /** The joined rows of one entity, in index order. */
  function EntityMatches(e: Entity, index: seq<IndexRow>, exact: string): (r: seq<JoinRow>)
    ensures forall j :: j in r ==> j.entityId == e.id && j.filePath == e.filePath && j.directory == Some(exact)
    decreases |index|
  {
    if index == [] then []
    else
      var rest := EntityMatches(e, index[..|index| - 1], exact);
      var si := index[|index| - 1];
      if Joins(e, si, exact) then rest + [JoinOf(e, si)] else rest
  }

  /** The join, entity by entity (a NULL directory never equals the exact path, so the LEFT JOIN acts as an inner one). */
  function Join(entities: seq<Entity>, index: seq<IndexRow>, exact: string): (r: seq<JoinRow>)
    ensures forall j :: j in r ==> j.directory == Some(exact)
    decreases |entities|
  {
    if entities == [] then []
    else Join(entities[..|entities| - 1], index, exact) + EntityMatches(entities[|entities| - 1], index, exact)
  }

  /** An entity joined with an index row is a row of the join. */
  lemma {:induction false} JoinContains(entities: seq<Entity>, index: seq<IndexRow>, exact: string, e: Entity, si: IndexRow)
    requires e in entities && si in index && Joins(e, si, exact)
    ensures JoinOf(e, si) in Join(entities, index, exact)
    decreases |entities|
  {
    var last := entities[|entities| - 1];
    if e == last {
      MatchesContain(e, index, exact, si);
    } else {
      assert e in entities[..|entities| - 1];
      JoinContains(entities[..|entities| - 1], index, exact, e, si);
    }
  }

  lemma {:induction false} MatchesContain(e: Entity, index: seq<IndexRow>, exact: string, si: IndexRow)
    requires si in index && Joins(e, si, exact)
    ensures JoinOf(e, si) in EntityMatches(e, index, exact)
    decreases |index|
  {
    if si != index[|index| - 1] {
      assert si in index[..|index| - 1];
      MatchesContain(e, index[..|index| - 1], exact, si);
    }
  }

  /** Every row of the join comes from an entity and an index row that join. */
  lemma {:induction false} JoinSound(entities: seq<Entity>, index: seq<IndexRow>, exact: string, j: JoinRow)
    requires j in Join(entities, index, exact)
    ensures exists e, si :: e in entities && si in index && Joins(e, si, exact) && j == JoinOf(e, si)
    decreases |entities|
  {
    var init := entities[..|entities| - 1];
    var last := entities[|entities| - 1];
    if j in Join(init, index, exact) {
      JoinSound(init, index, exact, j);
      var e, si :| e in init && si in index && Joins(e, si, exact) && j == JoinOf(e, si);
      assert e in entities;
    } else {
      var si := MatchesSound(last, index, exact, j);
    }
  }

  lemma {:induction false} MatchesSound(e: Entity, index: seq<IndexRow>, exact: string, j: JoinRow) returns (si: IndexRow)
    requires j in EntityMatches(e, index, exact)
    ensures si in index && Joins(e, si, exact) && j == JoinOf(e, si)
    decreases |index|
  {
    var init := index[..|index| - 1];
    if j in EntityMatches(e, init, exact) {
      si := MatchesSound(e, init, exact, j);
    } else {
      si := index[|index| - 1];
    }
  }

  /** Rows sorted by title in SQLite's binary collation. */
  predicate TitleSorted(s: seq<JoinRow>) {
    forall i, j :: 0 <= i < j < |s| ==> LessOrEqual(s[i].title, s[j].title)
  }

  /** Inserts `x` after every row whose title is not greater than its own. */
  function InsertByTitle(x: JoinRow, s: seq<JoinRow>): (r: seq<JoinRow>)
    requires TitleSorted(s)
    ensures TitleSorted(r)
    ensures multiset(r) == multiset(s) + multiset{x}
    decreases |s|
  {
    if s == [] then [x]
    else if Less(x.title, s[0].title) then
      BelowHead(x, s);
      ConsSorted(x, s);
      [x] + s
    else
      var t := InsertByTitle(x, s[1..]);
      LessTotal(x.title, s[0].title);
      assert s == [s[0]] + s[1..];
      HeadBelowInserted(x, s, t);
      ConsSorted(s[0], t);
      [s[0]] + t
  }

  lemma ConsSorted(h: JoinRow, t: seq<JoinRow>)
    requires TitleSorted(t)
    requires forall k :: 0 <= k < |t| ==> LessOrEqual(h.title, t[k].title)
    ensures TitleSorted([h] + t)
  {
    var r := [h] + t;
    forall i, j | 0 <= i < j < |r| ensures LessOrEqual(r[i].title, r[j].title) {
      if i == 0 {
        assert r[j] == t[j - 1];
      } else {
        assert r[i] == t[i - 1] && r[j] == t[j - 1];
      }
    }
  }

  /** A title below the head of a sorted sequence is below all of it. */
  lemma BelowHead(x: JoinRow, s: seq<JoinRow>)
    requires TitleSorted(s) && s != [] && Less(x.title, s[0].title)
    ensures forall k :: 0 <= k < |s| ==> LessOrEqual(x.title, s[k].title)
  {
    forall k | 0 < k < |s| ensures LessOrEqual(x.title, s[k].title) {
      assert LessOrEqual(s[0].title, s[k].title);
      if s[0].title != s[k].title { LessTransitive(x.title, s[0].title, s[k].title); }
    }
  }

  /** The head of a sorted sequence stays below its tail with a not-smaller row inserted. */
  lemma HeadBelowInserted(x: JoinRow, s: seq<JoinRow>, t: seq<JoinRow>)
    requires TitleSorted(s) && s != [] && LessOrEqual(s[0].title, x.title)
    requires multiset(t) == multiset(s[1..]) + multiset{x}
    ensures forall k :: 0 <= k < |t| ==> LessOrEqual(s[0].title, t[k].title)
  {
    forall k | 0 <= k < |t| ensures LessOrEqual(s[0].title, t[k].title) {
      assert t[k] in multiset(t);
      if t[k] != x {
        assert t[k] in multiset(s[1..]);
        var m :| 0 <= m < |s[1..]| && s[1..][m] == t[k];
        assert s[m + 1] == t[k];
      }
    }
  }

  /** ORDER BY e.title, stable: rows with equal titles keep their join order. */
  function OrderByTitle(s: seq<JoinRow>): (r: seq<JoinRow>)
    ensures TitleSorted(r)
    ensures multiset(r) == multiset(s)
    decreases |s|
  {
    if s == [] then []
    else
      assert s == s[..|s| - 1] + [s[|s| - 1]];
      InsertByTitle(s[|s| - 1], OrderByTitle(s[..|s| - 1]))
  }

  /** The rows of the entity query. */
  function EntityQuery(entities: seq<Entity>, index: seq<IndexRow>, exact: string): (r: seq<JoinRow>)
    ensures TitleSorted(r)
    ensures multiset(r) == multiset(Join(entities, index, exact))
  {
    OrderByTitle(Join(entities, index, exact))
  }

  // ---- SELECT DISTINCT ... ORDER BY: strictly sorted, duplicate-free ----

  predicate StrictlySorted(s: seq<string>) {
    forall i, j :: 0 <= i < j < |s| ==> Less(s[i], s[j])
  }

  function InsertDistinct(x: string, s: seq<string>): (r: seq<string>)
    requires StrictlySorted(s)
    ensures StrictlySorted(r)
    ensures forall v :: v in r <==> v == x || v in s
    decreases |s|
  {
    if s == [] then [x]
    else if x == s[0] then s
    else if Less(x, s[0]) then
      forall k | 0 < k < |s| ensures Less(x, s[k]) {
        LessTransitive(x, s[0], s[k]);
      }
      [x] + s
    else
      var t := InsertDistinct(x, s[1..]);
      LessTotal(x, s[0]);
      assert s == [s[0]] + s[1..];
      forall k | 0 <= k < |t| ensures Less(s[0], t[k]) {
        if t[k] != x {
          assert t[k] in s[1..];
        }
      }
      [s[0]] + t
  }

  /** The distinct values of `s`, in binary collation order. */
  function SortedDistinct(s: seq<string>): (r: seq<string>)
    ensures StrictlySorted(r)
    ensures forall v :: v in r <==> v in s
    decreases |s|
  {
    if s == [] then []
    else InsertDistinct(s[|s| - 1], SortedDistinct(s[..|s| - 1]))
  }

  /** The non-NULL directories of the index, in table order. */
  function Directories(index: seq<IndexRow>): seq<string>
    decreases |index|
  {
    if index == [] then []
    else
      var rest := Directories(index[..|index| - 1]);
      var last := index[|index| - 1].directory;
      if last.Some? then rest + [last.value] else rest
  }

  lemma {:induction false} DirectoriesMembers(index: seq<IndexRow>)
    ensures forall d :: d in Directories(index) <==> exists si :: si in index && si.directory == Some(d)
    decreases |index|
  {
    if index != [] {
      var init := index[..|index| - 1];
      DirectoriesMembers(init);
      assert forall si :: si in index <==> si in init || si == index[|index| - 1];
    }
  }

  // ---- The sub-directory query ----

  /** instr(substr(directory, length(:exact_path) + 2), '/') */
  function SlashAfterExact(d: string, exact: string): nat {
    Instr(SubstrFrom(d, |exact| + 2), "/")
  }

  /** The WHERE clause: LIKE :search_path AND != :exact_path AND a '/' follows the next segment. */
  predicate SubdirSelected(d: string, exact: string, search: string) {
    Like(d, search) && d != exact && SlashAfterExact(d, exact) > 0
  }

  /** substr(directory, 1, instr(...) + length(:exact_path) + 1) */
  function SubdirOf(d: string, exact: string): string {
    Substr(d, 1, SlashAfterExact(d, exact) + |exact| + 1)
  }

  function SubdirValues(ds: seq<string>, exact: string, search: string): seq<string>
    decreases |ds|
  {
    if ds == [] then []
    else
      var rest := SubdirValues(ds[..|ds| - 1], exact, search);
      var d := ds[|ds| - 1];
      if SubdirSelected(d, exact, search) then rest + [SubdirOf(d, exact)] else rest
  }

  lemma {:induction false} SubdirValuesMembers(ds: seq<string>, exact: string, search: string)
    ensures forall v :: v in SubdirValues(ds, exact, search) <==>
              exists d :: d in ds && SubdirSelected(d, exact, search) && v == SubdirOf(d, exact)
    decreases |ds|
  {
    if ds != [] {
      SubdirValuesMembers(ds[..|ds| - 1], exact, search);
      assert forall x :: x in ds <==> x in ds[..|ds| - 1] || x == ds[|ds| - 1];
    }
  }

  lemma {:induction false} SubdirValuesNone(ds: seq<string>, exact: string, search: string)
    requires forall d :: d in ds ==> !SubdirSelected(d, exact, search)
    ensures SubdirValues(ds, exact, search) == []
    decreases |ds|
  {
    if ds != [] {
      assert ds[|ds| - 1] in ds;
      SubdirValuesNone(ds[..|ds| - 1], exact, search);
    }
  }

  /** The rows of the sub-directory query. */
  function SubdirQuery(index: seq<IndexRow>, exact: string, search: string): (r: seq<string>)
    ensures StrictlySorted(r)
  {
    SortedDistinct(SubdirValues(Directories(index), exact, search))
  }

  /** The sub-directory query returns the value of every selected indexed directory, and nothing else. */
  lemma SubdirQueryMembers(index: seq<IndexRow>, exact: string, search: string)
    ensures forall v :: v in SubdirQuery(index, exact, search) <==>
              exists d :: d in Directories(index) && SubdirSelected(d, exact, search) && v == SubdirOf(d, exact)
  {
    SubdirValuesMembers(Directories(index), exact, search);
  }

  // ---- The top-level directory query (root listing only) ----

  /** substr(directory, 2, instr(substr(directory, 2), '/') - 1) */
  function RootDirOf(d: string): string {
    Substr(d, 2, Instr(SubstrFrom(d, 2), "/") - 1)
  }

  /** The WHERE clause: != '/' AND LIKE '/%' AND a non-empty root_dir. */
  predicate RootSelected(d: string) {
    d != "/" && Like(d, "/%") && RootDirOf(d) != ""
  }

  function RootDirValues(ds: seq<string>): seq<string>
    decreases |ds|
  {
    if ds == [] then []
    else
      var rest := RootDirValues(ds[..|ds| - 1]);
      var d := ds[|ds| - 1];
      if RootSelected(d) then rest + [RootDirOf(d)] else rest
  }

  lemma {:induction false} RootDirValuesMembers(ds: seq<string>)
    ensures forall v :: v in RootDirValues(ds) <==> exists d :: d in ds && RootSelected(d) && v == RootDirOf(d)
    decreases |ds|
  {
    if ds != [] {
      RootDirValuesMembers(ds[..|ds| - 1]);
      assert forall x :: x in ds <==> x in ds[..|ds| - 1] || x == ds[|ds| - 1];
    }
  }

  /** The rows of the top-level directory query. */
  function RootDirQuery(index: seq<IndexRow>): (r: seq<string>)
    ensures StrictlySorted(r)
  {
    SortedDistinct(RootDirValues(Directories(index)))
  }

  /** The top-level query returns the root_dir of every selected indexed directory, and nothing else. */
  lemma RootDirQueryMembers(index: seq<IndexRow>)
    ensures forall v :: v in RootDirQuery(index) <==> exists d :: d in Directories(index) && RootSelected(d) && v == RootDirOf(d)
  {
    RootDirValuesMembers(Directories(index));
  }

  // ---- The rows the assembly loops build ----

  /** The file row of an entity-query row: title falls back to the file name, directory to the exact path. */
  function FileRowOf(j: JoinRow, exact: string): FileRow {
    var name := PosixPath.Name(j.filePath);
    FileRow(name, j.filePath, if j.title == "" then name else j.title,
            if j.directory.Some? && j.directory.value != "" then j.directory.value else exact,
            j.entityType, j.permalink, Some(j.entityId), Some(j.contentType), Some(j.updatedAt))
  }

  /** The name of a synthesised directory row: `Path(subdir).name`, else the last '/'-separated segment. */
  function DirectoryName(subdir: string): string {
    var name := PosixPath.Name(subdir);
    if name == "" then
      var segments := PosixPath.Split(subdir);
      segments[|segments| - 1]
    else name
  }

  /** The synthetic row of a sub-directory of the requested directory. */
  function SubdirRowOf(subdir: string, exact: string): FileRow {
    var name := DirectoryName(subdir);
    FileRow(name, subdir, name, exact, "directory", None, None, Some("directory"), None)
  }

  /** The synthetic row of a top-level directory. */
  function RootRowOf(rootDir: string): FileRow {
    FileRow(rootDir, "/" + rootDir, rootDir, "/", "directory", None, None, Some("directory"), None)
  }

  /** The entity-query rows that have a file path, as file rows. */
  function FileCandidates(joined: seq<JoinRow>, exact: string): (r: seq<FileRow>)
    ensures forall x :: x in r ==> x.entityId.Some?
    decreases |joined|
  {
    if joined == [] then []
    else
      var rest := FileCandidates(joined[..|joined| - 1], exact);
      var j := joined[|joined| - 1];
      if j.filePath == "" then rest else rest + [FileRowOf(j, exact)]
  }

  lemma {:induction false} FileCandidatesMembers(joined: seq<JoinRow>, exact: string)
    ensures forall x :: x in FileCandidates(joined, exact) <==>
              exists j :: j in joined && j.filePath != "" && x == FileRowOf(j, exact)
    decreases |joined|
  {
    if joined != [] {
      FileCandidatesMembers(joined[..|joined| - 1], exact);
      assert forall y :: y in joined <==> y in joined[..|joined| - 1] || y == joined[|joined| - 1];
    }
  }

  lemma FileCandidatesSnoc(base: seq<FileRow>, joined: seq<JoinRow>, i: nat, exact: string)
    requires i < |joined|
    ensures base + FileCandidates(joined[..i + 1], exact)
            == if joined[i].filePath == "" then base + FileCandidates(joined[..i], exact)
               else base + FileCandidates(joined[..i], exact) + [FileRowOf(joined[i], exact)]
  {
    assert joined[..i + 1][..i] == joined[..i];
  }

  /** The non-empty sub-directories, as synthetic rows. */
  function SubdirCandidates(subdirs: seq<string>, exact: string): (r: seq<FileRow>)
    ensures forall x :: x in r ==> x.entityId.None?
    decreases |subdirs|
  {
    if subdirs == [] then []
    else
      var rest := SubdirCandidates(subdirs[..|subdirs| - 1], exact);
      var d := subdirs[|subdirs| - 1];
      if d == "" then rest else rest + [SubdirRowOf(d, exact)]
  }

  lemma {:induction false} SubdirCandidatesMembers(subdirs: seq<string>, exact: string)
    ensures forall x :: x in SubdirCandidates(subdirs, exact) <==>
              exists d :: d in subdirs && d != "" && x == SubdirRowOf(d, exact)
    decreases |subdirs|
  {
    if subdirs != [] {
      SubdirCandidatesMembers(subdirs[..|subdirs| - 1], exact);
      assert forall y :: y in subdirs <==> y in subdirs[..|subdirs| - 1] || y == subdirs[|subdirs| - 1];
    }
  }

  lemma SubdirCandidatesSnoc(base: seq<FileRow>, subdirs: seq<string>, i: nat, exact: string)
    requires i < |subdirs|
    ensures base + SubdirCandidates(subdirs[..i + 1], exact)
            == if subdirs[i] == "" then base + SubdirCandidates(subdirs[..i], exact)
               else base + SubdirCandidates(subdirs[..i], exact) + [SubdirRowOf(subdirs[i], exact)]
  {
    assert subdirs[..i + 1][..i] == subdirs[..i];
  }

  /** The top-level directories, as synthetic rows. */
  function RootCandidates(rootDirs: seq<string>): (r: seq<FileRow>)
    ensures |r| == |rootDirs|
    ensures forall k :: 0 <= k < |r| ==> r[k] == RootRowOf(rootDirs[k])
  {
    seq(|rootDirs|, k requires 0 <= k < |rootDirs| => RootRowOf(rootDirs[k]))
  }

  lemma RootCandidatesSnoc(base: seq<FileRow>, rootDirs: seq<string>, i: nat)
    requires i < |rootDirs|
    ensures base + RootCandidates(rootDirs[..i + 1]) == base + RootCandidates(rootDirs[..i]) + [RootRowOf(rootDirs[i])]
  {
    assert RootCandidates(rootDirs[..i + 1]) == RootCandidates(rootDirs[..i]) + [RootRowOf(rootDirs[i])];
  }

  /**
   * The top-level rows have pairwise distinct paths, because SELECT DISTINCT
   * gives distinct values. Each is a directory row in "/" whose path is "/" and
   * its name, and that name is a value of the query.
   */
  lemma RootCandidatesDistinct(index: seq<IndexRow>)
    ensures forall i, j :: 0 <= i < j < |RootCandidates(RootDirQuery(index))| ==>
              RootCandidates(RootDirQuery(index))[i].path != RootCandidates(RootDirQuery(index))[j].path
    ensures forall x :: x in RootCandidates(RootDirQuery(index)) ==>
              x.directory == "/" && x.rowType == "directory" && x.path == "/" + x.name && x.name in RootDirQuery(index)
  {
    var q := RootDirQuery(index);
    var r := RootCandidates(q);
    forall i, j | 0 <= i < j < |r| ensures r[i].path != r[j].path {
      LessIrreflexive(q[i]);
      assert r[i].path[1..] == q[i] && r[j].path[1..] == q[j];
    }
  }

  function Paths(rows: seq<FileRow>): set<string> {
    set r | r in rows :: r.path
  }

  lemma PathsSnoc(rows: seq<FileRow>, x: FileRow)
    ensures Paths(rows + [x]) == Paths(rows) + {x.path}
  {
    assert forall r :: r in rows + [x] <==> r in rows || r == x;
  }

  /** The rows in order, each dropped when an earlier row has the same path. */
  function Dedup(rows: seq<FileRow>): (r: seq<FileRow>)
    ensures forall i, j :: 0 <= i < j < |r| ==> r[i].path != r[j].path
    ensures Paths(r) == Paths(rows)
    ensures forall x :: x in r ==> x in rows
    decreases |rows|
  {
    if rows == [] then []
    else
      var init := rows[..|rows| - 1];
      var x := rows[|rows| - 1];
      var d := Dedup(init);
      assert rows == init + [x];
      assert forall k :: 0 <= k < |d| ==> d[k] in d;
      PathsSnoc(init, x);
      PathsSnoc(d, x);
      if x.path in Paths(d) then d else d + [x]
  }

  lemma DedupSnoc(rows: seq<FileRow>, x: FileRow)
    ensures Dedup(rows + [x]) == if x.path in Paths(Dedup(rows)) then Dedup(rows) else Dedup(rows) + [x]
  {
    assert (rows + [x])[..|rows|] == rows;
  }

  /** Every candidate row, in the order the three loops visit them. */
  function Candidates(entities: seq<Entity>, index: seq<IndexRow>, directoryPath: string): seq<FileRow> {
    var normalized := NormalizedPath(directoryPath);
    var exact := ExactPath(normalized);
    FileCandidates(EntityQuery(entities, index, exact), exact)
      + SubdirCandidates(SubdirQuery(index, exact, SearchPath(normalized)), exact)
      + (if normalized == [] then RootCandidates(RootDirQuery(index)) else [])
  }

  /** The reference listing: the candidates, first row per path. */
  function Listing(entities: seq<Entity>, index: seq<IndexRow>, directoryPath: string): (r: seq<FileRow>)
    ensures forall i, j :: 0 <= i < j < |r| ==> r[i].path != r[j].path
    ensures Paths(r) == Paths(Candidates(entities, index, directoryPath))
    ensures forall x :: x in r ==> x in Candidates(entities, index, directoryPath)
  {
    Dedup(Candidates(entities, index, directoryPath))
  }

  /**
   * `list_files`: the entity table and the search index are parameters in place
   * of the database the queries run against.
   */
  method ListFiles(entities: seq<Entity>, index: seq<IndexRow>, directoryPath: string) returns (rows: seq<FileRow>)
    ensures rows == Listing(entities, index, directoryPath)
    ensures forall i, j :: 0 <= i < j < |rows| ==> rows[i].path != rows[j].path
  {
    var normalized := NormalizedPath(directoryPath);
    var exact := ExactPath(normalized);
    var search := SearchPath(normalized);
    var entityResults := EntityQuery(entities, index, exact);
    var directoryResults := SubdirQuery(index, exact, search);

    rows := [];
    var seen: set<string> := {};
    rows, seen := AddFileRows(entityResults, exact, [], rows, seen);
    ghost var files := FileCandidates(entityResults, exact);
    assert [] + files == files;
    rows, seen := AddSubdirRows(directoryResults, exact, files, rows, seen);
    ghost var assembled := files + SubdirCandidates(directoryResults, exact);
    ghost var candidates := Candidates(entities, index, directoryPath);
    if normalized == [] {
      var rootDirs := RootDirQuery(index);
      rows, seen := AddRootRows(rootDirs, assembled, rows, seen);
      assert candidates == assembled + RootCandidates(rootDirs);
    } else {
      assert candidates == assembled + [] == assembled;
    }
  }

  /** One step of each loop: the row is appended, and its path recorded, unless the path was seen already. */
  method KeepFirst(ghost before: seq<FileRow>, rows0: seq<FileRow>, seen0: set<string>, row: FileRow)
    returns (rows: seq<FileRow>, seen: set<string>)
    requires rows0 == Dedup(before) && seen0 == Paths(rows0)
    ensures rows == Dedup(before + [row])
    ensures seen == Paths(rows)
  {
    DedupSnoc(before, row);
    rows, seen := rows0, seen0;
    if row.path !in seen {
      PathsSnoc(rows, row);
      seen := seen + {row.path};
      rows := rows + [row];
    }
  }

  /** The loop over the entity-query rows: skips rows without a file path and paths already seen. */
  method AddFileRows(entityResults: seq<JoinRow>, exact: string, ghost base: seq<FileRow>,
                     rows0: seq<FileRow>, seen0: set<string>) returns (rows: seq<FileRow>, seen: set<string>)
    requires rows0 == Dedup(base) && seen0 == Paths(rows0)
    ensures rows == Dedup(base + FileCandidates(entityResults, exact))
    ensures seen == Paths(rows)
  {
    rows, seen := rows0, seen0;
    var i := 0;
    assert base + FileCandidates(entityResults[..0], exact) == base;
    while i < |entityResults|
      invariant 0 <= i <= |entityResults|
      invariant rows == Dedup(base + FileCandidates(entityResults[..i], exact))
      invariant seen == Paths(rows)
    {
      var r := entityResults[i];
      ghost var before := base + FileCandidates(entityResults[..i], exact);
      FileCandidatesSnoc(base, entityResults, i, exact);
      if r.filePath != "" {
        rows, seen := KeepFirst(before, rows, seen, FileRowOf(r, exact));
      }
      i := i + 1;
    }
    assert entityResults[..i] == entityResults;
  }

  /** The loop over the sub-directory query: skips empty values and paths already seen. */
  method AddSubdirRows(directoryResults: seq<string>, exact: string, ghost base: seq<FileRow>,
                       rows0: seq<FileRow>, seen0: set<string>) returns (rows: seq<FileRow>, seen: set<string>)
    requires rows0 == Dedup(base) && seen0 == Paths(rows0)
    ensures rows == Dedup(base + SubdirCandidates(directoryResults, exact))
    ensures seen == Paths(rows)
  {
    rows, seen := rows0, seen0;
    var i := 0;
    assert base + SubdirCandidates(directoryResults[..0], exact) == base;
    while i < |directoryResults|
      invariant 0 <= i <= |directoryResults|
      invariant rows == Dedup(base + SubdirCandidates(directoryResults[..i], exact))
      invariant seen == Paths(rows)
    {
      var subdir := directoryResults[i];
      ghost var before := base + SubdirCandidates(directoryResults[..i], exact);
      SubdirCandidatesSnoc(base, directoryResults, i, exact);
      if subdir != "" {
        rows, seen := KeepFirst(before, rows, seen, SubdirRowOf(subdir, exact));
      }
      i := i + 1;
    }
    assert directoryResults[..i] == directoryResults;
  }

  /** The loop over the top-level directory query: skips paths already seen. */
  method AddRootRows(rootDirs: seq<string>, ghost base: seq<FileRow>,
                     rows0: seq<FileRow>, seen0: set<string>) returns (rows: seq<FileRow>, seen: set<string>)
    requires rows0 == Dedup(base) && seen0 == Paths(rows0)
    ensures rows == Dedup(base + RootCandidates(rootDirs))
    ensures seen == Paths(rows)
  {
    rows, seen := rows0, seen0;
    var i := 0;
    assert base + RootCandidates(rootDirs[..0]) == base;
    while i < |rootDirs|
      invariant 0 <= i <= |rootDirs|
      invariant rows == Dedup(base + RootCandidates(rootDirs[..i]))
      invariant seen == Paths(rows)
    {
      ghost var before := base + RootCandidates(rootDirs[..i]);
      RootCandidatesSnoc(base, rootDirs, i);
      rows, seen := KeepFirst(before, rows, seen, RootRowOf(rootDirs[i]));
      i := i + 1;
    }
    assert rootDirs[..i] == rootDirs;
  }

  // ---- What the listing is ----

  /** A trailing run of slashes is dropped and nothing else. */
  lemma NormalizedDropsSlashes(p: string, slashes: string)
    requires p == [] || p[|p| - 1] != '/'
    requires forall i :: 0 <= i < |slashes| ==> slashes[i] == '/'
    ensures NormalizedPath(p + slashes) == p
  {
    TrimRightSplit(p, slashes, "/");
  }

  /** A requested path with a leading '/' gets a second one: "/test" is looked up as "//test". */
  lemma LeadingSlashDoubled(p: string)
    requires p != [] && p[0] == '/' && p[|p| - 1] != '/'
    ensures ExactPath(NormalizedPath(p)) == "/" + p
    ensures SearchPath(NormalizedPath(p)) == "/" + p + "/%"
    ensures StartsWith(ExactPath(NormalizedPath(p)), "//")
  {
    NormalizedDropsSlashes(p, "");
    assert p + "" == p;
    assert ("/" + p)[..2] == "//";
  }

  predicate FilesFirst(rows: seq<FileRow>) {
    forall i, j :: 0 <= i < j < |rows| && rows[i].entityId.None? ==> rows[j].entityId.None?
  }

  lemma {:induction false} DedupFilesFirst(rows: seq<FileRow>)
    requires FilesFirst(rows)
    ensures FilesFirst(Dedup(rows))
    decreases |rows|
  {
    if rows != [] {
      var init := rows[..|rows| - 1];
      var x := rows[|rows| - 1];
      assert FilesFirst(init);
      DedupFilesFirst(init);
      var d := Dedup(init);
      if x.path !in Paths(d) {
        forall i | 0 <= i < |d| && d[i].entityId.None? ensures x.entityId.None? {
          assert d[i] in init;
          var k :| 0 <= k < |init| && init[k] == d[i];
        }
      }
    }
  }

  /** Every row of `Dedup(rows)` that `rows[i]`'s path leads to is `rows[i]` itself or an earlier row. */
  lemma {:induction false} DedupKeepsEarliest(rows: seq<FileRow>, i: nat)
    requires i < |rows|
    ensures exists k :: 0 <= k <= i && rows[k].path == rows[i].path && rows[k] in Dedup(rows)
    decreases |rows|
  {
    var init := rows[..|rows| - 1];
    var x := rows[|rows| - 1];
    var d := Dedup(init);
    assert rows == init + [x];
    DedupSnoc(init, x);
    if i < |init| {
      DedupKeepsEarliest(init, i);
      var k :| 0 <= k <= i && init[k].path == init[i].path && init[k] in d;
      assert rows[k] == init[k] && rows[i] == init[i];
      assert Dedup(rows) == d || Dedup(rows) == d + [x];
      assert rows[k] in Dedup(rows);
    } else if x.path in Paths(d) {
      var k := KeptWithPath(init, x.path);
      assert rows[k] == init[k] && Dedup(rows) == d;
    } else {
      assert Dedup(rows) == d + [x];
      assert rows[i] == x && x in Dedup(rows);
    }
  }

  /** A path of the kept rows is the path of a kept row of the input. */
  lemma KeptWithPath(rows: seq<FileRow>, p: string) returns (k: nat)
    requires p in Paths(Dedup(rows))
    ensures k < |rows| && rows[k].path == p && rows[k] in Dedup(rows)
  {
    var y :| y in Dedup(rows) && y.path == p;
    assert y in rows;
    k :| 0 <= k < |rows| && rows[k] == y;
  }

  lemma CandidatesFilesFirst(entities: seq<Entity>, index: seq<IndexRow>, directoryPath: string)
    ensures FilesFirst(Candidates(entities, index, directoryPath))
  {
    var normalized := NormalizedPath(directoryPath);
    var exact := ExactPath(normalized);
    var files := FileCandidates(EntityQuery(entities, index, exact), exact);
    var dirs := SubdirCandidates(SubdirQuery(index, exact, SearchPath(normalized)), exact);
    var roots := if normalized == [] then RootCandidates(RootDirQuery(index)) else [];
    var c := files + dirs + roots;
    forall i | 0 <= i < |files| ensures c[i].entityId.Some? {
      assert files[i] in files;
    }
    forall j | |files| <= j < |files| + |dirs| ensures c[j].entityId.None? {
      assert dirs[j - |files|] in dirs;
    }
  }

  /** Every file row comes before every synthesised directory row. */
  lemma ListingFilesFirst(entities: seq<Entity>, index: seq<IndexRow>, directoryPath: string)
    ensures FilesFirst(Listing(entities, index, directoryPath))
  {
    CandidatesFilesFirst(entities, index, directoryPath);
    DedupFilesFirst(Candidates(entities, index, directoryPath));
  }

  /** The fixed columns of a synthesised directory row. */
  predicate Synthesised(r: FileRow) {
    r.rowType == "directory" && r.contentType == Some("directory") && r.permalink.None?
    && r.entityId.None? && r.updatedAt.None? && r.title == r.name
  }

  lemma EntityQueryRows(entities: seq<Entity>, index: seq<IndexRow>, exact: string, j: JoinRow)
    requires j in EntityQuery(entities, index, exact)
    ensures j in Join(entities, index, exact)
  {
    assert j in multiset(EntityQuery(entities, index, exact));
  }

  lemma FileCandidateShape(entities: seq<Entity>, index: seq<IndexRow>, exact: string, r: FileRow)
    requires r in FileCandidates(EntityQuery(entities, index, exact), exact)
    ensures r.directory == exact && r.entityId.Some? && r.path != "" && r.name == PosixPath.Name(r.path)
  {
    FileCandidatesMembers(EntityQuery(entities, index, exact), exact);
    var j :| j in EntityQuery(entities, index, exact) && j.filePath != "" && r == FileRowOf(j, exact);
    EntityQueryRows(entities, index, exact, j);
  }

  lemma SubdirCandidateShape(subdirs: seq<string>, exact: string, r: FileRow)
    requires r in SubdirCandidates(subdirs, exact)
    ensures r.directory == exact && Synthesised(r) && r.path in subdirs && r.path != "" && r.name == DirectoryName(r.path)
  {
    SubdirCandidatesMembers(subdirs, exact);
  }

  lemma RootCandidateShape(rootDirs: seq<string>, r: FileRow)
    requires r in RootCandidates(rootDirs)
    ensures r.directory == "/" && Synthesised(r) && r.name in rootDirs && r.path == "/" + r.name
  {
    var roots := RootCandidates(rootDirs);
    var k :| 0 <= k < |roots| && roots[k] == r;
  }

  /**
   * Every row lies in the requested directory; file rows have a non-empty path
   * and their file name as name; the other rows are synthesised, either for a
   * value of the sub-directory query or, at root only, for one of the top-level query.
   */
  lemma ListingRowShapes(entities: seq<Entity>, index: seq<IndexRow>, directoryPath: string, r: FileRow)
    requires r in Listing(entities, index, directoryPath)
    ensures var normalized := NormalizedPath(directoryPath);
            var exact := ExactPath(normalized);
            r.directory == exact
            && (r.entityId.Some? ==> r.path != "" && r.name == PosixPath.Name(r.path))
            && (r.entityId.None? ==>
                  Synthesised(r)
                  && ((r.path in SubdirQuery(index, exact, SearchPath(normalized)) && r.path != ""
                       && r.name == DirectoryName(r.path))
                      || (normalized == [] && r.name in RootDirQuery(index) && r.path == "/" + r.name)))
  {
    var normalized := NormalizedPath(directoryPath);
    var exact := ExactPath(normalized);
    var subdirs := SubdirQuery(index, exact, SearchPath(normalized));
    var files := FileCandidates(EntityQuery(entities, index, exact), exact);
    var dirs := SubdirCandidates(subdirs, exact);
    var roots := if normalized == [] then RootCandidates(RootDirQuery(index)) else [];
    assert r in files + dirs + roots;
    if r in files {
      FileCandidateShape(entities, index, exact, r);
    } else if r in dirs {
      SubdirCandidateShape(subdirs, exact, r);
      assert r.entityId.None?;
    } else {
      assert normalized == [] && r in roots;
      RootCandidateShape(RootDirQuery(index), r);
    }
  }

  lemma ListedFileIsCandidate(entities: seq<Entity>, index: seq<IndexRow>, directoryPath: string, r: FileRow)
    requires r in Listing(entities, index, directoryPath) && r.entityId.Some?
    ensures var exact := ExactPath(NormalizedPath(directoryPath));
            r in FileCandidates(EntityQuery(entities, index, exact), exact)
  {
    var normalized := NormalizedPath(directoryPath);
    var exact := ExactPath(normalized);
    var files := FileCandidates(EntityQuery(entities, index, exact), exact);
    var dirs := SubdirCandidates(SubdirQuery(index, exact, SearchPath(normalized)), exact);
    var roots := if normalized == [] then RootCandidates(RootDirQuery(index)) else [];
    assert r in files + dirs + roots;
    assert r !in dirs;
    assert forall k :: 0 <= k < |roots| ==> roots[k].entityId.None?;
    assert r !in roots;
  }

  /** Every file row is an entity joined with an index row of the requested directory, with the fallbacks applied. */
  lemma ListingFileSound(entities: seq<Entity>, index: seq<IndexRow>, directoryPath: string, r: FileRow)
    requires r in Listing(entities, index, directoryPath) && r.entityId.Some?
    ensures var exact := ExactPath(NormalizedPath(directoryPath));
            exists e, si :: e in entities && si in index && Joins(e, si, exact) && e.filePath != ""
              && r.path == e.filePath && r.name == PosixPath.Name(e.filePath)
              && r.title == (if e.title == "" then r.name else e.title)
              && r.directory == exact && r.entityId == Some(e.id) && r.rowType == e.entityType
              && r.permalink == e.permalink && r.contentType == Some(e.contentType)
              && r.updatedAt == Some(e.updatedAt)
  {
    var normalized := NormalizedPath(directoryPath);
    var exact := ExactPath(normalized);
    var files := FileCandidates(EntityQuery(entities, index, exact), exact);
    var dirs := SubdirCandidates(SubdirQuery(index, exact, SearchPath(normalized)), exact);
    var roots := if normalized == [] then RootCandidates(RootDirQuery(index)) else [];
    ListedFileIsCandidate(entities, index, directoryPath, r);
    FileCandidatesMembers(EntityQuery(entities, index, exact), exact);
    var j :| j in EntityQuery(entities, index, exact) && j.filePath != "" && r == FileRowOf(j, exact);
    EntityQueryRows(entities, index, exact, j);
    JoinSound(entities, index, exact, j);
    var e, si :| e in entities && si in index && Joins(e, si, exact) && j == JoinOf(e, si);
  }

  /** Every entity with a file path joined with an index row of the requested directory is listed as a file. */
  lemma ListingFileComplete(entities: seq<Entity>, index: seq<IndexRow>, directoryPath: string, e: Entity, si: IndexRow)
    requires e in entities && si in index && e.filePath != ""
    requires Joins(e, si, ExactPath(NormalizedPath(directoryPath)))
    ensures exists r :: r in Listing(entities, index, directoryPath) && r.entityId.Some? && r.path == e.filePath
  {
    var normalized := NormalizedPath(directoryPath);
    var exact := ExactPath(normalized);
    var q := EntityQuery(entities, index, exact);
    JoinContains(entities, index, exact, e, si);
    var j := JoinOf(e, si);
    assert j in multiset(Join(entities, index, exact));
    assert j in q;
    var files := FileCandidates(q, exact);
    FileCandidatesMembers(q, exact);
    var c := Candidates(entities, index, directoryPath);
    assert FileRowOf(j, exact) in files;
    var i :| 0 <= i < |files| && files[i] == FileRowOf(j, exact);
    assert c[i] == files[i];
    DedupKeepsEarliest(c, i);
    var k :| 0 <= k <= i && c[k].path == c[i].path && c[k] in Dedup(c);
    CandidatesFilesFirst(entities, index, directoryPath);
    assert c[i].entityId.Some?;
    assert c[k].entityId.Some?;
  }

  /** A search index with no rows lists nothing. */
  lemma ListingEmptyIndex(entities: seq<Entity>, directoryPath: string)
    ensures Listing(entities, [], directoryPath) == []
  {
    var exact := ExactPath(NormalizedPath(directoryPath));
    var join := Join(entities, [], exact);
    if join != [] {
      JoinSound(entities, [], exact, join[0]);
      assert false;
    }
    assert multiset(EntityQuery(entities, [], exact)) == multiset{};
  }

  /** A requested directory that no index row lies in or below lists nothing. */
  lemma ListingUnmatched(entities: seq<Entity>, index: seq<IndexRow>, directoryPath: string)
    requires NormalizedPath(directoryPath) != []
    requires forall si :: si in index && si.directory.Some? ==>
               si.directory.value != ExactPath(NormalizedPath(directoryPath))
               && !Like(si.directory.value, SearchPath(NormalizedPath(directoryPath)))
    ensures Listing(entities, index, directoryPath) == []
  {
    var normalized := NormalizedPath(directoryPath);
    var exact := ExactPath(normalized);
    var join := Join(entities, index, exact);
    if join != [] {
      JoinSound(entities, index, exact, join[0]);
      assert false;
    }
    assert multiset(EntityQuery(entities, index, exact)) == multiset{};
    var subdirs := SubdirQuery(index, exact, SearchPath(normalized));
    DirectoriesMembers(index);
    forall d | d in Directories(index) ensures !SubdirSelected(d, exact, SearchPath(normalized)) {
      var si :| si in index && si.directory == Some(d);
    }
    SubdirValuesNone(Directories(index), exact, SearchPath(normalized));
  }

  /** The offset of the next segment: position |exact| + 2 of the directory (1-based) is index |ChildPrefix| (0-based) at root plus one. */
  lemma AfterExact(normalized: string, seg: string, rest: string)
    requires seg != []
    requires |ChildPrefix(normalized) + seg + rest| <= MaxLength
    ensures var d := ChildPrefix(normalized) + seg + rest;
            var exact := ExactPath(normalized);
            SubstrFrom(d, |exact| + 2) == (if normalized == [] then seg[1..] + rest else seg + rest)
  {
    var d := ChildPrefix(normalized) + seg + rest;
    var exact := ExactPath(normalized);
    SubstrFromPositive(d, |exact| + 2);
    if normalized == [] {
      assert d[2..] == seg[1..] + rest;
    } else {
      assert d[|exact| + 1..] == seg + rest;
    }
  }

  /** The '/' that ends the next segment below the requested directory. */
  lemma SlashAfterDeeper(normalized: string, seg: string, more: string)
    requires seg != [] && '/' !in seg
    requires |ChildPrefix(normalized) + seg + "/" + more| <= MaxLength
    ensures SlashAfterExact(ChildPrefix(normalized) + seg + "/" + more, ExactPath(normalized))
            == |ChildPrefix(normalized)| + |seg| - |ExactPath(normalized)|
  {
    var tail := "/" + more;
    assert ChildPrefix(normalized) + seg + "/" + more == ChildPrefix(normalized) + seg + tail;
    AfterExact(normalized, seg, tail);
    if normalized == [] {
      NoSlashAfterFirst(seg);
      assert seg[1..] + tail == seg[1..] + ['/'] + more;
      InstrAt(seg[1..], '/', more);
    } else {
      assert seg + tail == seg + ['/'] + more;
      InstrAt(seg, '/', more);
    }
  }

  lemma NoSlashAfterFirst(seg: string)
    requires seg != [] && '/' !in seg
    ensures '/' !in seg[1..]
  {
    assert forall k :: 0 <= k < |seg| - 1 ==> seg[1..][k] == seg[k + 1];
  }

  /**
   * A directory two or more levels below the requested one yields its first
   * segment below it, with a trailing '/'.
   */
  lemma SubdirOfDeeper(normalized: string, seg: string, more: string)
    requires seg != [] && '/' !in seg
    requires |ChildPrefix(normalized) + seg + "/" + more| <= MaxLength
    ensures var d := ChildPrefix(normalized) + seg + "/" + more;
            var exact := ExactPath(normalized);
            SubdirSelected(d, exact, SearchPath(normalized))
            && SubdirOf(d, exact) == ChildPrefix(normalized) + seg + "/"
  {
    var prefix := ChildPrefix(normalized);
    var d := prefix + seg + "/" + more;
    var exact := ExactPath(normalized);
    SlashAfterDeeper(normalized, seg, more);
    var n := SlashAfterExact(d, exact);
    assert n + |exact| + 1 == |prefix| + |seg| + 1;
    SubstrPositive(d, 1, n + |exact| + 1);
    assert d[..|prefix| + |seg| + 1] == prefix + seg + "/";
    assert d == prefix + (seg + "/" + more);
    LikeOwnPrefix(prefix, seg + "/" + more);
    assert SearchPath(normalized) == prefix + "%";
  }

  /** A directory exactly one level below the requested one is not a value of the sub-directory query. */
  lemma SubdirOfLeaf(normalized: string, seg: string)
    requires seg != [] && '/' !in seg
    requires |ChildPrefix(normalized) + seg| <= MaxLength
    ensures !SubdirSelected(ChildPrefix(normalized) + seg, ExactPath(normalized), SearchPath(normalized))
  {
    var d := ChildPrefix(normalized) + seg;
    AfterExact(normalized, seg, "");
    assert d == ChildPrefix(normalized) + seg + "";
    var rest := if normalized == [] then seg[1..] else seg;
    assert rest + "" == rest;
    assert forall i :: 0 <= i < |rest| ==> rest[i] in seg;
    InstrChar(rest, '/');
  }

  /** A top-level directory with sub-directories yields its own name. */
  lemma RootDirOfNested(seg: string, more: string)
    requires seg != [] && '/' !in seg
    requires |"/" + seg + "/" + more| <= MaxLength
    ensures RootSelected("/" + seg + "/" + more) && RootDirOf("/" + seg + "/" + more) == seg
  {
    var d := "/" + seg + "/" + more;
    SubstrFromPositive(d, 2);
    assert d[1..] == seg + ['/'] + more;
    InstrAt(seg, '/', more);
    SubstrPositive(d, 2, |seg|);
    assert d[1..1 + |seg|] == seg;
    assert d == "/" + (seg + "/" + more);
    LikeOwnPrefix("/", seg + "/" + more);
  }

  /**
   * A top-level directory without sub-directories yields "/" (a negative
   * length makes substr return the character before position 2), so the
   * root listing gets the path "//" for it.
   */
  lemma RootDirOfTopLevel(seg: string)
    requires seg != [] && '/' !in seg
    requires |"/" + seg| <= MaxLength
    ensures RootSelected("/" + seg) && RootDirOf("/" + seg) == "/"
    ensures RootRowOf(RootDirOf("/" + seg)).path == "//"
  {
    var d := "/" + seg;
    SubstrFromPositive(d, 2);
    assert d[1..] == seg;
    InstrChar(seg, '/');
    SubstrMinusOne(d, 2);
    LikeOwnPrefix("/", seg);
  }

  /** The first segment below the requested directory of any deeper indexed directory is listed, with a trailing '/'. */
  lemma ListingSubdir(entities: seq<Entity>, index: seq<IndexRow>, directoryPath: string, si: IndexRow, seg: string, more: string)
    requires seg != [] && '/' !in seg
    requires si in index
    requires si.directory == Some(ChildPrefix(NormalizedPath(directoryPath)) + seg + "/" + more)
    requires |si.directory.value| <= MaxLength
    ensures ChildPrefix(NormalizedPath(directoryPath)) + seg + "/" in Paths(Listing(entities, index, directoryPath))
  {
    var normalized := NormalizedPath(directoryPath);
    var exact := ExactPath(normalized);
    var d := si.directory.value;
    var sub := ChildPrefix(normalized) + seg + "/";
    SubdirOfDeeper(normalized, seg, more);
    DirectoriesMembers(index);
    SubdirQueryMembers(index, exact, SearchPath(normalized));
    assert sub in SubdirQuery(index, exact, SearchPath(normalized));
    var dirs := SubdirCandidates(SubdirQuery(index, exact, SearchPath(normalized)), exact);
    SubdirCandidatesMembers(SubdirQuery(index, exact, SearchPath(normalized)), exact);
    assert SubdirRowOf(sub, exact) in dirs;
    assert SubdirRowOf(sub, exact) in Candidates(entities, index, directoryPath);
  }

  /** At root, every top-level directory with sub-directories is listed as "/" + its name. */
  lemma ListingRootDir(entities: seq<Entity>, index: seq<IndexRow>, directoryPath: string, si: IndexRow, seg: string, more: string)
    requires NormalizedPath(directoryPath) == []
    requires seg != [] && '/' !in seg
    requires si in index && si.directory == Some("/" + seg + "/" + more)
    requires |si.directory.value| <= MaxLength
    ensures "/" + seg in Paths(Listing(entities, index, directoryPath))
  {
    var d := si.directory.value;
    RootDirOfNested(seg, more);
    DirectoriesMembers(index);
    RootDirQueryMembers(index);
    var q := RootDirQuery(index);
    assert seg in q;
    var k :| 0 <= k < |q| && q[k] == seg;
    var roots := RootCandidates(q);
    assert roots[k] in roots;
    assert RootRowOf(seg) in Candidates(entities, index, directoryPath);
  }
}
