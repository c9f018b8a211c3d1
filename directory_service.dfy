/**
 * `DirectoryService.directory_tree`: the rows of one listing folded into a map
 * from path to tree item. Each row adds itself to its parent's children
 * (creating the parent as a folder when it has no item yet) and then stores
 * its own leaf item under its path.
 *
 * The fold and its lemmas take the parent-key function as a parameter
 * (`parentOf`); `Tree` is the fold with pathlib's parent, `ParentKey`.
 */
module DirectoryService {
  import PosixPath
  import opened SqliteText
  import opened SearchIndex
  import opened DirectoryRepository

  /** A node of the tree, with the fields the tree view expects. */
  datatype DirectoryItem = DirectoryItem(
    index: string, canMove: bool, isFolder: bool, children: seq<string>, data: string, canRename: bool)

  /** The key of a row's parent: `str(Path(path).parent)`, with "." mapped to "". */
  function ParentKey(path: string): string {
    var parent := PosixPath.Parent(path);
    if parent == "." then "" else parent
  }

  /** The data of a folder item: the key's name, or "Root" when it has none. */
  function FolderData(key: string): string {
    var name := PosixPath.Name(key);
    if name == "" then "Root" else name
  }

  function Folder(key: string, children: seq<string>): DirectoryItem {
    DirectoryItem(key, true, true, children, FolderData(key), true)
  }

  function Leaf(row: FileRow): DirectoryItem {
    DirectoryItem(row.path, true, false, [], row.name, true)
  }

  /**
   * One iteration of the loop: the row's path appended to the children of the
   * item under `parent` (a folder created for it when the key has no item),
   * then the row's own leaf stored under its path.
   */
  function Attach(items: map<string, DirectoryItem>, parent: string, row: FileRow): map<string, DirectoryItem> {
    var withParent :=
      if parent in items then items[parent := items[parent].(children := items[parent].children + [row.path])]
      else items[parent := Folder(parent, [row.path])];
    withParent[row.path := Leaf(row)]
  }

  /** The items after the loop has visited `rows`, each row's parent key given by `parentOf`. */
  function Fold(rows: seq<FileRow>, parentOf: string -> string): map<string, DirectoryItem>
    decreases |rows|
  {
    if rows == [] then map[]
    else
      var x := rows[|rows| - 1];
      Attach(Fold(rows[..|rows| - 1], parentOf), parentOf(x.path), x)
  }

  /** The items `directory_tree` builds from `rows`. */
  function Tree(rows: seq<FileRow>): map<string, DirectoryItem> {
    Fold(rows, ParentKey)
  }

  /**
   * `directory_tree`: the entity table and the search index stand for the
   * database `list_files` reads. `includeFiles` is accepted and not used.
   */
  method DirectoryTree(entities: seq<Entity>, index: seq<IndexRow>, directoryPath: string, includeFiles: bool)
    returns (items: map<string, DirectoryItem>)
    ensures items == Tree(Listing(entities, index, directoryPath))
  {
    var fileRows := ListFiles(entities, index, directoryPath);
    items := BuildTree(fileRows);
  }

  /** The loop of `directory_tree` over the listed rows. */
  method BuildTree(fileRows: seq<FileRow>) returns (items: map<string, DirectoryItem>)
    ensures items == Tree(fileRows)
  {
    items := map[];
    var i := 0;
    while i < |fileRows|
      invariant 0 <= i <= |fileRows|
      invariant items == Fold(fileRows[..i], ParentKey)
    {
      items := AddRow(items, fileRows[i]);
      FoldSnoc(fileRows, i, ParentKey);
      i := i + 1;
    }
    assert fileRows[..i] == fileRows;
  }

  /** One iteration: the row's path goes into its parent's children, then its leaf is stored. */
  method AddRow(items0: map<string, DirectoryItem>, row: FileRow) returns (items: map<string, DirectoryItem>)
    ensures items == Attach(items0, ParentKey(row.path), row)
  {
    var parentPath := PosixPath.Parent(row.path);
    if parentPath == "." {
      parentPath := "";
    }
    items := items0;
    if parentPath in items {
      items := items[parentPath := items[parentPath].(children := items[parentPath].children + [row.path])];
    } else {
      items := items[parentPath := Folder(parentPath, [row.path])];
    }
    items := items[row.path := Leaf(row)];
  }

  lemma FoldSnoc(rows: seq<FileRow>, k: nat, parentOf: string -> string)
    requires k < |rows|
    ensures Fold(rows[..k + 1], parentOf) == Attach(Fold(rows[..k], parentOf), parentOf(rows[k].path), rows[k])
  {
    assert rows[..k + 1][..k] == rows[..k];
  }

  // ---- What the tree holds ----

  /** What one iteration leaves under each key. */
  lemma AttachAt(items: map<string, DirectoryItem>, parent: string, row: FileRow, k: string)
    ensures Attach(items, parent, row).Keys == items.Keys + {row.path, parent}
    ensures k == row.path ==> Attach(items, parent, row)[k] == Leaf(row)
    ensures k != row.path && k == parent && k in items ==>
              Attach(items, parent, row)[k] == items[k].(children := items[k].children + [row.path])
    ensures k != row.path && k == parent && k !in items ==> Attach(items, parent, row)[k] == Folder(k, [row.path])
    ensures k != row.path && k != parent && k in items ==> Attach(items, parent, row)[k] == items[k]
  {
  }

  /** The paths of the rows whose parent key is `key`, in row order. */
  function Kids(rows: seq<FileRow>, key: string, parentOf: string -> string): seq<string>
    decreases |rows|
  {
    if rows == [] then []
    else
      var x := rows[|rows| - 1];
      Kids(rows[..|rows| - 1], key, parentOf) + (if parentOf(x.path) == key then [x.path] else [])
  }

  lemma KidsSnoc(rows: seq<FileRow>, x: FileRow, key: string, parentOf: string -> string)
    ensures Kids(rows + [x], key, parentOf) == Kids(rows, key, parentOf) + (if parentOf(x.path) == key then [x.path] else [])
  {
    assert (rows + [x])[..|rows|] == rows;
  }

  function Parents(rows: seq<FileRow>, parentOf: string -> string): set<string> {
    set r | r in rows :: parentOf(r.path)
  }

  lemma SnocMembers(rows: seq<FileRow>, x: FileRow, parentOf: string -> string)
    ensures Paths(rows + [x]) == Paths(rows) + {x.path}
    ensures Parents(rows + [x], parentOf) == Parents(rows, parentOf) + {parentOf(x.path)}
  {
    assert forall r :: r in rows + [x] <==> r in rows || r == x;
  }

  /** The keys are the rows' paths and their parents' keys. */
  lemma {:induction false} FoldKeys(rows: seq<FileRow>, parentOf: string -> string)
    ensures Fold(rows, parentOf).Keys == Paths(rows) + Parents(rows, parentOf)
    decreases |rows|
  {
    if rows != [] {
      var init := rows[..|rows| - 1];
      var x := rows[|rows| - 1];
      assert rows == init + [x];
      FoldKeys(init, parentOf);
      SnocMembers(init, x, parentOf);
      AttachAt(Fold(init, parentOf), parentOf(x.path), x, x.path);
    }
  }

  lemma {:induction false} KidsNone(rows: seq<FileRow>, key: string, parentOf: string -> string)
    requires key !in Parents(rows, parentOf)
    ensures Kids(rows, key, parentOf) == []
    decreases |rows|
  {
    if rows != [] {
      var init := rows[..|rows| - 1];
      assert rows == init + [rows[|rows| - 1]];
      SnocMembers(init, rows[|rows| - 1], parentOf);
      KidsNone(init, key, parentOf);
    }
  }

  /**
   * The item under a row's path is a leaf: not a folder, data the row's name,
   * and as children the paths of the later rows under it (their append goes to
   * whatever item the key holds). The row is the last one with that path; its
   * leaf replaces any earlier item there, a folder included.
   */
  lemma {:induction false} FoldLeaf(rows: seq<FileRow>, i: nat, parentOf: string -> string)
    requires i < |rows|
    requires forall j :: i < j < |rows| ==> rows[j].path != rows[i].path
    ensures rows[i].path in Fold(rows, parentOf)
    ensures Fold(rows, parentOf)[rows[i].path] == Leaf(rows[i]).(children := Kids(rows[i + 1..], rows[i].path, parentOf))
    decreases |rows|
  {
    var n := |rows| - 1;
    var init := rows[..n];
    var x := rows[n];
    var p := rows[i].path;
    assert rows == init + [x];
    AttachAt(Fold(init, parentOf), parentOf(x.path), x, p);
    if i == n {
      assert rows[i + 1..] == [];
    } else {
      FoldLeaf(init, i, parentOf);
      assert rows[i + 1..] == init[i + 1..] + [x];
      KidsSnoc(init[i + 1..], x, p, parentOf);
    }
  }

  /**
   * A parent key that is no row's path holds a folder: data its name or "Root",
   * and as children the paths of every row under it, in row order.
   */
  lemma {:induction false} FoldFolder(rows: seq<FileRow>, key: string, parentOf: string -> string)
    requires key in Parents(rows, parentOf) && key !in Paths(rows)
    ensures key in Fold(rows, parentOf)
    ensures Fold(rows, parentOf)[key] == Folder(key, Kids(rows, key, parentOf))
    decreases |rows|
  {
    var n := |rows| - 1;
    var init := rows[..n];
    var x := rows[n];
    assert rows == init + [x];
    SnocMembers(init, x, parentOf);
    FoldKeys(init, parentOf);
    AttachAt(Fold(init, parentOf), parentOf(x.path), x, key);
    if key in Parents(init, parentOf) {
      FoldFolder(init, key, parentOf);
    } else {
      KidsNone(init, key, parentOf);
    }
  }

  /** The parent key drops the last part of the path and keeps the others. */
  lemma ParentKeyParts(path: string)
    requires PosixPath.Parts(path) != []
    ensures PosixPath.Parts(ParentKey(path)) + [PosixPath.Name(path)] == PosixPath.Parts(path)
  {
    PosixPath.ParentDropsName(path);
    PosixPath.SplitSegment("");
    PosixPath.SplitSegment(".");
  }

  /** An empty index gives an empty tree. */
  lemma TreeOfEmptyIndex(entities: seq<Entity>, directoryPath: string)
    ensures Tree(Listing(entities, [], directoryPath)) == map[]
  {
    ListingEmptyIndex(entities, directoryPath);
  }

  /** A directory that no index row lies in or below gives an empty tree. */
  lemma TreeOfUnmatched(entities: seq<Entity>, index: seq<IndexRow>, directoryPath: string)
    requires NormalizedPath(directoryPath) != []
    requires forall si :: si in index && si.directory.Some? ==>
               si.directory.value != ExactPath(NormalizedPath(directoryPath))
               && !Like(si.directory.value, SearchPath(NormalizedPath(directoryPath)))
    ensures Tree(Listing(entities, index, directoryPath)) == map[]
  {
    ListingUnmatched(entities, index, directoryPath);
  }
}
