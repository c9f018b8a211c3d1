/**
 * The search index rows before and after the migration that materialises the
 * `directory` column, and the SQL expression that computes that column from
 * an entity row's `file_path`.
 */
module SearchIndex {
  import opened Wrappers
  import opened Text
  import opened SqliteText

  /** A row of the old search index (every FTS5 column may be NULL). */
  datatype BackupRow = BackupRow(
    id: Option<int>, title: Option<string>, contentStems: Option<string>,
    contentSnippet: Option<string>, permalink: Option<string>, filePath: Option<string>,
    rowType: Option<string>, fromId: Option<int>, toId: Option<int>,
    relationType: Option<string>, entityId: Option<int>, category: Option<string>,
    metadata: Option<string>, createdAt: Option<string>, updatedAt: Option<string>)

  /** A row of the new search index: the old columns plus `directory`. */
  datatype IndexRow = IndexRow(
    id: Option<int>, title: Option<string>, contentStems: Option<string>,
    contentSnippet: Option<string>, permalink: Option<string>, filePath: Option<string>,
    directory: Option<string>,
    rowType: Option<string>, fromId: Option<int>, toId: Option<int>,
    relationType: Option<string>, entityId: Option<int>, category: Option<string>,
    metadata: Option<string>, createdAt: Option<string>, updatedAt: Option<string>)

  /** The old columns of a new row. */
  function Columns(r: IndexRow): BackupRow {
    BackupRow(r.id, r.title, r.contentStems, r.contentSnippet, r.permalink, r.filePath,
              r.rowType, r.fromId, r.toId, r.relationType, r.entityId, r.category,
              r.metadata, r.createdAt, r.updatedAt)
  }

  /**
   * The migration's expression
   * '/' || rtrim(rtrim(file_path, replace(file_path, rtrim(file_path, replace(file_path, '/', '')), '')), '/').
   */
  function DirectoryOf(filePath: string): string {
    var nameChars := Replace(filePath, "/", "");        // every character but '/'
    var throughLastSlash := RTrim(filePath, nameChars);  // the path up to and including its last '/'
    var fileName := Replace(filePath, throughLastSlash, "");
    "/" + RTrim(RTrim(filePath, fileName), "/")
  }

  /** The CASE expression: NULL for a row whose type is set and is not 'entity' (a NULL type falls to ELSE). */
  function DirectoryColumn(rowType: Option<string>, filePath: Option<string>): Option<string> {
    if rowType.Some? && rowType.value != "entity" then None
    else if filePath.None? then None
    else Some(DirectoryOf(filePath.value))
  }

  /** One row of the INSERT ... SELECT that restores the index from its backup. */
  function Restore(b: BackupRow): (r: IndexRow)
    ensures Columns(r) == b
    ensures r.directory == DirectoryColumn(b.rowType, b.filePath)
  {
    IndexRow(b.id, b.title, b.contentStems, b.contentSnippet, b.permalink, b.filePath,
             DirectoryColumn(b.rowType, b.filePath),
             b.rowType, b.fromId, b.toId, b.relationType, b.entityId, b.category,
             b.metadata, b.createdAt, b.updatedAt)
  }

  /** The whole restore: one new row per backup row, in order. */
  function RestoreAll(backup: seq<BackupRow>): (rows: seq<IndexRow>)
    ensures |rows| == |backup|
    ensures forall i :: 0 <= i < |rows| ==> rows[i] == Restore(backup[i])
  {
    seq(|backup|, i requires 0 <= i < |backup| => Restore(backup[i]))
  }

  // ---- A reference definition of the directory and the lemmas tying it to the SQL ----

  /** The index of the last '/' in `s`, -1 when there is none. */
  function LastSlash(s: string): (k: int)
    ensures -1 <= k < |s|
    ensures k >= 0 ==> s[k] == '/'
    ensures forall i :: k < i < |s| ==> s[i] != '/'
    ensures k == -1 <==> '/' !in s
    decreases |s|
  {
    if s == [] then -1
    else if s[|s| - 1] == '/' then |s| - 1
    else LastSlash(s[..|s| - 1])
  }

  /** The text of `s` up to and including its last '/'; "" when there is none. */
  function ThroughLastSlash(s: string): (a: string)
    ensures StartsWith(s, a)
    ensures a == [] || a[|a| - 1] == '/'
  {
    var k := LastSlash(s);
    if k < 0 then "" else s[..k + 1]
  }

  /** The text after the last '/' of `s`: the file name. */
  function AfterLastSlash(s: string): (q: string)
    ensures '/' !in q
    ensures s == ThroughLastSlash(s) + q
  {
    var k := LastSlash(s);
    if k < 0 then
      assert ThroughLastSlash(s) + s == s;
      s
    else
      assert s == s[..k + 1] + s[k + 1..];
      s[k + 1..]
  }

  /** The text before the last '/' of `s`; "" when `s` has no '/'. */
  function BeforeLastSlash(s: string): string {
    var k := LastSlash(s);
    if k < 0 then "" else s[..k]
  }

  /** rtrim(file_path, replace(file_path, '/', '')) keeps the path through its last '/'. */
  lemma TrimNameChars(fp: string)
    ensures RTrim(fp, Replace(fp, "/", "")) == ThroughLastSlash(fp)
  {
    var a, q := ThroughLastSlash(fp), AfterLastSlash(fp);
    var nameChars := Replace(fp, "/", "");
    ReplaceSlashes(fp);
    forall i | 0 <= i < |q| ensures q[i] in nameChars {
      assert q[i] == fp[|a| + i];
      assert q[i] != '/';
    }
    TrimRightSplit(a, q, nameChars);
  }

  /** replace(file_path, <path through the last '/'>, '') is the file name (or the whole path). */
  lemma CutDirectory(fp: string)
    ensures Replace(fp, ThroughLastSlash(fp), "") == (if ThroughLastSlash(fp) == [] then fp else AfterLastSlash(fp))
  {
    var a, q := ThroughLastSlash(fp), AfterLastSlash(fp);
    if a != [] {
      assert fp[..|a|] == a;
      assert fp[|a|..] == q;
      assert ReplaceAll(fp, a, "") == "" + ReplaceAll(q, a, "");
      ReplaceAllAbsent(q, a, "", '/');
    }
  }

  /** rtrim(file_path, <file name>) is the path through the last '/'. */
  lemma TrimFileName(fp: string)
    ensures RTrim(fp, if ThroughLastSlash(fp) == [] then fp else AfterLastSlash(fp)) == ThroughLastSlash(fp)
  {
    var a, q := ThroughLastSlash(fp), AfterLastSlash(fp);
    if a == [] {
      assert forall i :: 0 <= i < |fp| ==> fp[i] in fp;
      TrimRightSplit([], fp, fp);
      assert [] + fp == fp;
    } else {
      assert forall i :: 0 <= i < |q| ==> q[i] in q;
      TrimRightSplit(a, q, q);
    }
  }

  /** Trimming the slashes of the path through the last '/' is trimming the text before it. */
  lemma TrimThroughLastSlash(fp: string)
    ensures TrimRight(ThroughLastSlash(fp), "/") == TrimRight(BeforeLastSlash(fp), "/")
  {
    var a := ThroughLastSlash(fp);
    if a != [] {
      assert a[..|a| - 1] == BeforeLastSlash(fp);
    }
  }

  /** The directory column is '/' followed by the text before the last '/', trailing slashes removed. */
  lemma DirectoryOfSpec(filePath: string)
    ensures DirectoryOf(filePath) == "/" + TrimRight(BeforeLastSlash(filePath), "/")
  {
    TrimNameChars(filePath);
    CutDirectory(filePath);
    TrimFileName(filePath);
    TrimThroughLastSlash(filePath);
  }

  /** A file path without '/' lies in the root directory "/". */
  lemma DirectoryOfTopLevel(filePath: string)
    requires '/' !in filePath
    ensures DirectoryOf(filePath) == "/"
  {
    DirectoryOfSpec(filePath);
  }

  /** The directory always starts with '/' and ends with '/' only when it is the root "/". */
  lemma DirectoryOfShape(filePath: string)
    ensures StartsWith(DirectoryOf(filePath), "/")
    ensures EndsWith(DirectoryOf(filePath), "/") ==> DirectoryOf(filePath) == "/"
  {
    DirectoryOfSpec(filePath);
    var t := TrimRight(BeforeLastSlash(filePath), "/");
    var d := DirectoryOf(filePath);
    assert d[..1] == "/";
    if t != [] {
      assert d[|d| - 1..] == [t[|t| - 1]];
    }
  }

  /** The last '/' of pre + "/" + rest, for a `rest` without '/'. */
  lemma {:induction false} LastSlashAt(pre: string, rest: string)
    requires '/' !in rest
    ensures LastSlash(pre + "/" + rest) == |pre|
    decreases |rest|
  {
    var s := pre + "/" + rest;
    if rest == [] {
      assert s[|s| - 1] == '/';
    } else {
      assert s[|s| - 1] == rest[|rest| - 1];
      assert s[..|s| - 1] == pre + "/" + rest[..|rest| - 1];
      LastSlashAt(pre, rest[..|rest| - 1]);
    }
  }

  /** A file `name` inside directory `dir` (no trailing '/') lies in "/" + dir, as a/b/c.md lies in /a/b. */
  lemma DirectoryOfNested(dir: string, name: string)
    requires '/' !in name
    requires dir == [] || dir[|dir| - 1] != '/'
    ensures DirectoryOf(dir + "/" + name) == "/" + dir
  {
    var fp := dir + "/" + name;
    LastSlashAt(dir, name);
    DirectoryOfSpec(fp);
    assert BeforeLastSlash(fp) == dir;
    TrimRightSplit(dir, "", "/");
    assert dir + "" == dir;
  }

  /**
   * The whole restore loses nothing and adds only the directory: row by row the
   * old columns come back unchanged, exactly the entity rows (or rows of NULL
   * type) with a file path get a directory, and that directory is "/" and the
   * text before the file path's last '/', trailing slashes trimmed.
   */
  lemma RestoreAllDirectories(backup: seq<BackupRow>)
    ensures |RestoreAll(backup)| == |backup|
    ensures forall i :: 0 <= i < |backup| ==> Columns(RestoreAll(backup)[i]) == backup[i]
    ensures forall i :: 0 <= i < |backup| ==>
              (RestoreAll(backup)[i].directory.Some? <==>
                 (backup[i].rowType.None? || backup[i].rowType.value == "entity") && backup[i].filePath.Some?)
    ensures forall i :: 0 <= i < |backup| && RestoreAll(backup)[i].directory.Some? ==>
              RestoreAll(backup)[i].directory.value == "/" + TrimRight(BeforeLastSlash(backup[i].filePath.value), "/")
  {
    forall i | 0 <= i < |backup| && backup[i].filePath.Some?
      ensures DirectoryOf(backup[i].filePath.value) == "/" + TrimRight(BeforeLastSlash(backup[i].filePath.value), "/")
    {
      DirectoryOfSpec(backup[i].filePath.value);
    }
  }

  /** Non-entity rows get a NULL directory and every old column is copied unchanged. */
  lemma RestoreNonEntity(b: BackupRow)
    requires b.rowType.Some? && b.rowType.value != "entity"
    ensures Restore(b).directory.None?
    ensures Columns(Restore(b)) == b
  {
  }
}
