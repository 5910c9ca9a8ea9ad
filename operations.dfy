/**
 * The provider operations `stat`, `browse`, `enumerate`, `delete_recursive`
 * and `write`, as functions of the store on a reliable remote. The arguments
 * are the store, the root id, the variant (`legacy`), the provider root (as
 * the constructor keeps it) and the path the caller passes.
 */
module Operations {
  import opened Wrappers
  import opened Nodes
  import opened Remote
  import opened Calls
  import opened Errors
  import opened Paths
  import opened Resolver
  import opened Folders
  import opened Walker

  /** Subscripting the None that a failed lookup returns. */
  const NoneSubscript := "TypeError: 'NoneType' object is not subscriptable"

  // ---------------------------------------------------------------------------
  // stat
  // ---------------------------------------------------------------------------

  datatype StatInfo = StatInfo(path: string, size: nat, lastModified: Option<int>, isDirectory: bool)

  /** The stat dictionary of node n reached through `path`. */
  function StatOf(path: string, n: Node): StatInfo {
    StatInfo(NormalizedPath(path), FileSize(n), LastModified(n), IsDirectory(n))
  }

  /** `stat(path)`: None when the full path resolves to nothing. */
  function StatSpec(files: seq<Node>, rootId: Id, legacy: bool, root: string, path: string): Result<Option<StatInfo>, Error> {
    var item := ResolveItem(files, rootId, FullPath(root, path), legacy);
    if item.Err? then Err(item.error)
    else if item.value.None? then Ok(None)
    else Ok(Some(StatOf(path, item.value.value)))
  }

  /** A stat reports the path in normal form, and a folder with size 0. */
  lemma StatReportsNormalPath(files: seq<Node>, rootId: Id, legacy: bool, root: string, path: string)
    ensures var s := StatSpec(files, rootId, legacy, root, path);
      s.Ok? && s.value.Some? ==>
        var info := s.value.value;
        && NormalizedPath(info.path) == info.path
        && info.path[0] == '/'
        && (info.isDirectory ==> info.size == 0)
  {
    NormalizedIdempotent(path);
    NormalizedShape(path);
  }

  /** For a full path "/s1/.../sn", stat is None exactly when no chain s1..sn hangs under the root id, in both variants. */
  lemma StatMissingIffNoChain(files: seq<Node>, rootId: Id, legacy: bool, root: string, path: string, segs: seq<string>)
    requires segs != [] && PlainSegments(segs)
    requires FullPath(root, path) == Absolute(segs)
    ensures StatSpec(files, rootId, legacy, root, path) == Ok(None) <==> forall n :: !Reachable(files, {rootId}, segs, n)
  {
    ResolveItemNoneIffNoChain(files, rootId, legacy, segs);
  }

  /** With an empty provider root, "" and "/" stat as the drive root: a folder "/" of size 0 without a time. */
  lemma StatDriveRoot(files: seq<Node>, rootId: Id, legacy: bool, path: string)
    requires path == "" || path == "/"
    ensures StatSpec(files, rootId, legacy, "", path) == Ok(Some(StatInfo("/", 0, None, true)))
  {
    NonEmptyTriple("", RelPath(path));
    NonEmptyPair("");
    assert FullPath("", path) == Join("", "/");
    RootPathIsRoot(files, rootId, legacy);
  }

  // ---------------------------------------------------------------------------
  // browse
  // ---------------------------------------------------------------------------

  datatype ChildInfo = ChildInfo(fullPath: string, directory: bool, size: nat, lastModified: Option<int>)

  /** The answer of `browse`: nothing there, a file, or a folder with its children. */
  datatype Listing =
    | Missing
    | FileListing(fullPath: string, size: nat, lastModified: Option<int>)
    | FolderListing(fullPath: string, children: seq<ChildInfo>, lastModified: Option<int>)

  function ChildInfoOf(path: string, c: Node): ChildInfo {
    ChildInfo(NormalizedPath(Join(path, c.name)), IsDirectory(c), FileSize(c), LastModified(c))
  }

  function ChildInfos(path: string, cs: seq<Node>): (r: seq<ChildInfo>)
    ensures |r| == |cs| && forall i :: 0 <= i < |cs| ==> r[i] == ChildInfoOf(path, cs[i])
  {
    seq(|cs|, i requires 0 <= i < |cs| => ChildInfoOf(path, cs[i]))
  }

  /** `browse(path)`: resolves the relative form of the path, lists a folder's non-trashed children. */
  function BrowseSpec(files: seq<Node>, rootId: Id, legacy: bool, root: string, path: string): Result<Listing, Error> {
    var item := ResolveItem(files, rootId, FullPath(root, RelPath(path)), legacy);
    if item.Err? then Err(item.error)
    else if item.value.None? then Ok(Missing)
    else
      var n := item.value.value;
      if IsFile(n) then Ok(FileListing(NormalizedPath(path), FileSize(n), LastModified(n)))
      else Ok(FolderListing(NormalizedPath(path), ChildInfos(path, Children(files, n.id)), LastModified(n)))
  }

  /**
   * Unless the path starts with two slashes (then browse drops one more than
   * stat does), browse and stat agree: the same error, the same absence, the
   * same path, kind, time, and for a file the same size.
   */
  lemma BrowseAgreesWithStat(files: seq<Node>, rootId: Id, legacy: bool, root: string, path: string)
    requires !StartsWith(path, "//")
    ensures var s := StatSpec(files, rootId, legacy, root, path);
      var b := BrowseSpec(files, rootId, legacy, root, path);
      && (s.Err? <==> b.Err?)
      && (s.Err? ==> b.error == s.error)
      && (s == Ok(None) <==> b == Ok(Missing))
      && (s.Ok? && s.value.Some? ==>
            && b.Ok? && !b.value.Missing?
            && b.value.fullPath == s.value.value.path
            && (b.value.FolderListing? <==> s.value.value.isDirectory)
            && b.value.lastModified == s.value.value.lastModified
            && (b.value.FileListing? ==> b.value.size == s.value.value.size))
  {
    assert RelPath(RelPath(path)) == RelPath(path) by {
      if |path| > 0 && path[0] == '/' && |path| > 1 {
        assert path[..2] != "//";
        assert path[1] != '/';
      }
    }
    assert FullPath(root, RelPath(path)) == FullPath(root, path);
  }

  /** Every child a folder listing reports sits at a normalised absolute path; a child folder reports size 0. */
  lemma BrowseChildrenNormalized(files: seq<Node>, rootId: Id, legacy: bool, root: string, path: string)
    ensures var b := BrowseSpec(files, rootId, legacy, root, path);
      b.Ok? && b.value.FolderListing? ==>
        forall i :: 0 <= i < |b.value.children| ==>
          var c := b.value.children[i];
          && NormalizedPath(c.fullPath) == c.fullPath
          && c.fullPath[0] == '/'
          && (c.directory ==> c.size == 0)
  {
    var b := BrowseSpec(files, rootId, legacy, root, path);
    if b.Ok? && b.value.FolderListing? {
      forall i | 0 <= i < |b.value.children|
        ensures NormalizedPath(b.value.children[i].fullPath) == b.value.children[i].fullPath
        ensures b.value.children[i].fullPath[0] == '/'
      {
        var item := ResolveItem(files, rootId, FullPath(root, RelPath(path)), legacy);
        var cs := Children(files, item.value.value.id);
        NormalizedIdempotent(Join(path, cs[i].name));
        NormalizedShape(Join(path, cs[i].name));
      }
    }
  }

  // ---------------------------------------------------------------------------
  // enumerate
  // ---------------------------------------------------------------------------

  /** The fallback listing of `enumerate`: non-trashed children of the provider root whose name contains the relative path. */
  function FallbackQuery(id: Id, path: string): Query {
    Query([id], None, Some(RelPath(path)), Some(false))
  }

  function RawEntry(n: Node): Entry
    requires n.size.Some?
  {
    Entry(NormalizedPath(n.name), n.size.value, LastModified(n))
  }

  /** The fallback's entries, read with the raw `size` key: the first node without one raises. */
  function RawEntries(fs: seq<Node>): (r: Result<seq<Entry>, Error>)
    ensures r.Ok? <==> forall i :: 0 <= i < |fs| ==> fs[i].size.Some?
    ensures r.Ok? ==> |r.value| == |fs| && forall i :: 0 <= i < |fs| ==> r.value[i] == RawEntry(fs[i])
    ensures r.Err? ==> r.error == Crash("KeyError: 'size'")
  {
    if fs == [] then Ok([])
    else if fs[0].size.None? then Err(Crash("KeyError: 'size'"))
    else
      var rest := RawEntries(fs[1..]);
      if rest.Err? then rest
      else
        assert forall i :: 1 <= i < |fs| ==> fs[i] == fs[1..][i - 1];
        Ok([RawEntry(fs[0])] + rest.value)
  }

  /**
   * `enumerate(path, first)`: a file gives its one entry, a folder the walk
   * of its subtree; a path that resolves to nothing falls back to a name
   * search among the children of the provider root (None when that finds
   * nothing, and a raise when the provider root itself is missing).
   */
  ghost function EnumerateSpec(files: seq<Node>, rootId: Id, legacy: bool, root: string, path: string, first: bool): Result<Option<seq<Entry>>, Error>
    requires Acyclic(files)
  {
    var item := ResolveItem(files, rootId, FullPath(root, path), legacy);
    if item.Err? then Err(item.error)
    else if item.value.None? then
      var base := ResolveItem(files, rootId, RootPath(root), legacy);
      if base.Err? then Err(base.error)
      else if base.value.None? then Err(Crash(NoneSubscript))
      else
        var fs := Listed(files, FallbackQuery(base.value.value.id, path));
        if fs == [] then Ok(None)
        else
          var es := RawEntries(fs);
          if es.Err? then Err(es.error) else Ok(Some(es.value))
    else
      var n := item.value.value;
      if IsFile(n) then Ok(Some([Entry(NormalizedPath(path), FileSize(n), LastModified(n))]))
      else Ok(Some(WalkSpec(TreeOf(files, n), path, first)))
  }

  /** On a folder the full enumeration gives one entry per file below it, each under the path. */
  lemma EnumerateFolderListsEveryFile(files: seq<Node>, rootId: Id, legacy: bool, root: string, path: string, n: Node)
    requires Acyclic(files)
    requires ResolveItem(files, rootId, FullPath(root, path), legacy) == Ok(Some(n)) && IsDirectory(n)
    ensures var r := EnumerateSpec(files, rootId, legacy, root, path, false);
      && r.Ok? && r.value.Some?
      && Describes(r.value.value, WalkPrefix(path), FilesOf(TreeOf(files, n)))
      && AllUnder(r.value.value, WalkPrefix(path))
  {
    FullWalkListsEveryFile(TreeOf(files, n), path);
    WalkPathsUnderPrefix(TreeOf(files, n), path, false);
  }

  /** On a folder the early-exit enumeration finds something exactly when a file lies below it, and nothing the full one misses. */
  lemma EnumerateFirstFindsIffFiles(files: seq<Node>, rootId: Id, legacy: bool, root: string, path: string, n: Node)
    requires Acyclic(files)
    requires ResolveItem(files, rootId, FullPath(root, path), legacy) == Ok(Some(n)) && IsDirectory(n)
    ensures var r := EnumerateSpec(files, rootId, legacy, root, path, true);
      var full := EnumerateSpec(files, rootId, legacy, root, path, false);
      && r.Ok? && r.value.Some? && full.Ok? && full.value.Some?
      && (r.value.value != [] <==> FilesOf(TreeOf(files, n)) != [])
      && (forall e :: e in r.value.value ==> e in full.value.value)
  {
    FirstWalkNonEmptyIffFiles(TreeOf(files, n), path);
    FirstWalkWithinFull(TreeOf(files, n), path);
  }

  /** None only comes from the fallback: the path resolves to nothing and no child of the provider root has a matching name. */
  lemma EnumerateNoneMeansNothingThere(files: seq<Node>, rootId: Id, legacy: bool, root: string, path: string, first: bool)
    requires Acyclic(files)
    requires EnumerateSpec(files, rootId, legacy, root, path, first) == Ok(None)
    ensures ResolveItem(files, rootId, FullPath(root, path), legacy) == Ok(None)
    ensures var base := ResolveItem(files, rootId, RootPath(root), legacy);
      && base.Ok? && base.value.Some?
      && forall m :: m in files && !m.trashed && HasParentIn(m, [base.value.value.id]) ==> !Contains(m.name, RelPath(path))
  {
  }

  /** The fallback succeeds exactly when every node it lists carries a size, and then gives one entry per node. */
  lemma FallbackNeedsSizes(files: seq<Node>, rootId: Id, legacy: bool, root: string, path: string, first: bool, d: Node)
    requires Acyclic(files)
    requires ResolveItem(files, rootId, FullPath(root, path), legacy) == Ok(None)
    requires ResolveItem(files, rootId, RootPath(root), legacy) == Ok(Some(d))
    requires Listed(files, FallbackQuery(d.id, path)) != []
    ensures var fs := Listed(files, FallbackQuery(d.id, path));
      var r := EnumerateSpec(files, rootId, legacy, root, path, first);
      && (r.Ok? <==> forall i :: 0 <= i < |fs| ==> fs[i].size.Some?)
      && (r.Ok? ==> r.value.Some? && |r.value.value| == |fs|)
      && (r.Err? ==> r.error == Crash("KeyError: 'size'"))
  {
    var fs := Listed(files, FallbackQuery(d.id, path));
    var es := RawEntries(fs);
    assert EnumerateSpec(files, rootId, legacy, root, path, first) == if es.Err? then Err(es.error) else Ok(Some(es.value));
  }

  // ---------------------------------------------------------------------------
  // delete_recursive
  // ---------------------------------------------------------------------------

  /** The listing `delete_recursive` deletes: every child of the folder, trashed or not. */
  function ChildrenQuery(id: Id): Query {
    Query([id], None, None, None)
  }

  /** The delete loop from item k on: each item is deleted, or unlinked from the folder. */
  function DeleteChildrenFrom(files: seq<Node>, items: seq<Node>, k: nat, folderId: Id): (r: (Result<nat, Error>, seq<Node>))
    requires k <= |items|
    decreases |items| - k
  {
    if k == |items| then (Ok(|items|), files)
    else
      var d := DeleteSpec(files, items[k], Some(folderId));
      if d.0.Err? then (Err(d.0.error), d.1) else DeleteChildrenFrom(d.1, items, k + 1, folderId)
  }

  /** What `delete_recursive` does to the node it resolved: a folder loses its children, a file is deleted. */
  function DeleteNode(files: seq<Node>, n: Node): (Result<nat, Error>, seq<Node>) {
    if IsDirectory(n) then
      if n.parents.None? then (Ok(0), files)
      else DeleteChildrenFrom(files, Listed(files, ChildrenQuery(n.id)), 0, n.id)
    else
      var d := DeleteSpec(files, n, None);
      if d.0.Err? then (Err(d.0.error), d.1) else (Ok(1), d.1)
  }

  /** `assert_path_is_not_root`: the condition reduces to the full path being made of slashes only. */
  predicate GuardRefuses(legacy: bool, fullPath: string) {
    !legacy && Strip(fullPath) == ""
  }

  /** `delete_recursive(path)` as intended: a path that resolves to nothing deletes nothing. */
  function DeleteRecursiveSpec(files: seq<Node>, rootId: Id, legacy: bool, root: string, path: string): (r: (Result<nat, Error>, seq<Node>)) {
    var full := FullPath(root, path);
    if GuardRefuses(legacy, full) then (Err(RootGuard), files)
    else
      var item := ResolveItem(files, rootId, full, legacy);
      if item.Err? then (Err(item.error), files)
      else if item.value.None? then (Ok(0), files)
      else DeleteNode(files, item.value.value)
  }

  /** `delete_recursive(path)` as written: `is_directory` subscripts the lookup's None before the None check. */
  function DeleteRecursiveAsWritten(files: seq<Node>, rootId: Id, legacy: bool, root: string, path: string): (r: (Result<nat, Error>, seq<Node>)) {
    var full := FullPath(root, path);
    if GuardRefuses(legacy, full) then (Err(RootGuard), files)
    else
      var item := ResolveItem(files, rootId, full, legacy);
      if item.Err? then (Err(item.error), files)
      else if item.value.None? then (Err(Crash(NoneSubscript)), files)
      else DeleteNode(files, item.value.value)
  }

  /** On a path that does not exist the written code raises a TypeError; the intended result is 0 deletions, the store untouched. */
  lemma DeleteMissingRaisesAsWritten(files: seq<Node>, rootId: Id, legacy: bool, root: string, path: string)
    requires !GuardRefuses(legacy, FullPath(root, path))
    requires ResolveItem(files, rootId, FullPath(root, path), legacy) == Ok(None)
    ensures DeleteRecursiveAsWritten(files, rootId, legacy, root, path) == (Err(Crash(NoneSubscript)), files)
    ensures DeleteRecursiveSpec(files, rootId, legacy, root, path) == (Ok(0), files)
  {
  }

  lemma SlashThenName()
    ensures JoinTokens(["/", "a"]) == "/a"
  {
    assert ["/", "a"][..1] == ["/"];
    assert ["/"][..0] == [];
    assert JoinTokens(["/"]) == Join("", "/") == "/";
    assert EndsWithSlash("/");
  }

  lemma FullPathOfName()
    ensures FullPath("", "a") == Absolute(["a"]) == "/a"
  {
    NonEmptyTriple("", "a");
    NonEmptyPair("");
    assert NonEmpty(["/", "", "a"]) == ["/", "a"];
    assert ["/"] + ["a"] == ["/", "a"];
    SlashThenName();
  }

  /** An empty drive holds no chain, so every absolute path resolves to None. */
  lemma EmptyDriveResolvesNothing(rootId: Id, legacy: bool, segs: seq<string>)
    requires segs != [] && PlainSegments(segs)
    ensures ResolveItem([], rootId, Absolute(segs), legacy) == Ok(None)
  {
    ResolveItemNoneIffNoChain([], rootId, legacy, segs);
    forall n
      ensures !Reachable([], {rootId}, segs, n)
    {
      if Reachable([], {rootId}, segs, n) {
        ReachableInStore([], {rootId}, segs, n);
      }
    }
  }

  /** The concrete case: "a" in an empty drive. */
  lemma DeleteMissingExample(rootId: Id, legacy: bool)
    ensures DeleteRecursiveAsWritten([], rootId, legacy, "", "a") == (Err(Crash(NoneSubscript)), [])
    ensures DeleteRecursiveSpec([], rootId, legacy, "", "a") == (Ok(0), [])
  {
    FullPathOfName();
    EmptyDriveResolvesNothing(rootId, legacy, ["a"]);
    assert !AllSlashes("/a") by { assert "/a"[1] == 'a'; }
    StripEmptyIff("/a");
    DeleteMissingRaisesAsWritten([], rootId, legacy, "", "a");
  }

  /** With an empty provider root, the new provider refuses to delete "" and "/" whatever the root id. */
  lemma DriveRootIsRefused(files: seq<Node>, rootId: Id, path: string)
    requires path == "" || path == "/"
    ensures DeleteRecursiveSpec(files, rootId, false, "", path) == (Err(RootGuard), files)
  {
    NonEmptyTriple("", RelPath(path));
    NonEmptyPair("");
    assert FullPath("", path) == Join("", "/") == "/";
    StripEmptyIff("/");
  }

  /**
   * The guard protects the drive root only: under a named provider root,
   * deleting "" is not refused and goes to the provider root folder itself.
   */
  lemma NamedRootIsNotRefused(files: seq<Node>, rootId: Id, root: string)
    requires RelPath(root) != "" && NoSlash(RelPath(root))
    ensures FullPath(root, "") == "/" + RelPath(root)
    ensures var full := FullPath(root, "");
      var item := ResolveItem(files, rootId, full, false);
      DeleteRecursiveSpec(files, rootId, false, root, "")
        == if item.Err? then (Err(item.error), files)
           else if item.value.None? then (Ok(0), files)
           else DeleteNode(files, item.value.value)
  {
    var a := RelPath(root);
    FullPathShape(root, "");
    NonEmptyPair(a);
    JoinTokensSnoc([], "/");
    JoinTokensSnoc(["/"], a);
    assert [] + ["/"] == ["/"] && ["/"] + [a] == ["/", a];
    assert Join("", "/") == "/";
    var full := "/" + a;
    assert !AllSlashes(full) by { assert full[1] == a[0]; }
    StripEmptyIff(full);
  }

  /** The legacy provider has no guard; on the drive root it resolves the synthetic root, which has no parents, and deletes nothing. */
  lemma LegacyRootDeletesNothing(files: seq<Node>, rootId: Id, path: string)
    requires path == "" || path == "/"
    ensures DeleteRecursiveSpec(files, rootId, true, "", path) == (Ok(0), files)
  {
    NonEmptyTriple("", RelPath(path));
    NonEmptyPair("");
    assert FullPath("", path) == Join("", "/") == "/";
    RootPathIsRoot(files, rootId, true);
  }

  /** Every node that is a child of the folder is among the items from k on. */
  ghost predicate ChildrenCovered(files: seq<Node>, items: seq<Node>, k: nat, folderId: Id) {
    forall m :: m in files && HasParentIn(m, [folderId]) ==> exists j :: k <= j < |items| && items[j].id == m.id
  }

  /** One turn of the delete loop: the item's node is gone or no longer under the folder; the others stay. */
  lemma DeleteChildStep(files: seq<Node>, items: seq<Node>, k: nat, folderId: Id)
    requires k < |items| && UniqueIds(files) && items[k].parents.Some?
    requires ChildrenCovered(files, items, k, folderId)
    ensures var d := DeleteSpec(files, items[k], Some(folderId));
      && d.0.Ok? && UniqueIds(d.1)
      && ChildrenCovered(d.1, items, k + 1, folderId)
      && forall m :: m in files && m.id != items[k].id ==> m in d.1
  {
    var item := items[k];
    var d := DeleteSpec(files, item, Some(folderId));
    var idx := IndexOf(files, item.id);
    if idx.Some? {
      var i := idx.value;
      if FullDelete(item, Some(folderId)) {
        RemovedKeepsUnique(files, i);
      } else {
        UnlinkedKeepsUnique(files, i, folderId);
        var r := Unlinked(files, i, folderId);
        forall m | m in files && m.id != item.id
          ensures m in r
        {
          var j :| 0 <= j < |files| && files[j] == m;
          assert r[j] == m;
        }
        forall m | m in r && HasParentIn(m, [folderId])
          ensures exists j :: k + 1 <= j < |items| && items[j].id == m.id
        {
          var j :| 0 <= j < |r| && r[j] == m;
          assert j != i;
          assert m == files[j];
        }
      }
    }
  }

  lemma {:induction false} DeleteChildrenFromEmpties(files: seq<Node>, items: seq<Node>, k: nat, folderId: Id)
    requires k <= |items| && UniqueIds(files)
    requires forall j :: k <= j < |items| ==> items[j].parents.Some?
    requires ChildrenCovered(files, items, k, folderId)
    ensures var r := DeleteChildrenFrom(files, items, k, folderId);
      && r.0 == Ok(|items|)
      && (forall m :: m in r.1 ==> !HasParentIn(m, [folderId]))
      && (forall m :: m in files && (forall j :: k <= j < |items| ==> items[j].id != m.id) ==> m in r.1)
    decreases |items| - k
  {
    if k < |items| {
      DeleteChildStep(files, items, k, folderId);
      var d := DeleteSpec(files, items[k], Some(folderId));
      DeleteChildrenFromEmpties(d.1, items, k + 1, folderId);
      assert DeleteChildrenFrom(files, items, k, folderId) == DeleteChildrenFrom(d.1, items, k + 1, folderId);
    }
  }

  /**
   * Deleting a folder deletes or unlinks each of its children, counts them,
   * and leaves it empty; every node that was not a child of it survives,
   * the folder among them.
   */
  lemma DeleteFolderEmptiesIt(files: seq<Node>, n: Node)
    requires UniqueIds(files) && IsDirectory(n) && n.parents.Some?
    ensures var r := DeleteNode(files, n);
      && r.0 == Ok(|Listed(files, ChildrenQuery(n.id))|)
      && Listed(r.1, ChildrenQuery(n.id)) == []
      && forall m :: m in files && !HasParentIn(m, [n.id]) ==> m in r.1
  {
    var q := ChildrenQuery(n.id);
    var items := Listed(files, q);
    forall m | m in files && HasParentIn(m, [n.id])
      ensures exists j :: 0 <= j < |items| && items[j].id == m.id
    {
      assert Matches(m, q);
      var j :| 0 <= j < |items| && items[j] == m;
    }
    forall j | 0 <= j < |items|
      ensures items[j].parents.Some?
    {
      assert items[j] in items;
    }
    DeleteChildrenFromEmpties(files, items, 0, n.id);
    var r := DeleteNode(files, n);
    ListedNothing(r.1, q);
    forall m | m in files && !HasParentIn(m, [n.id])
      ensures forall j :: 0 <= j < |items| ==> items[j].id != m.id
    {
      forall j | 0 <= j < |items|
        ensures items[j].id != m.id
      {
        assert items[j] in items;
        var a :| 0 <= a < |files| && files[a] == m;
        var b :| 0 <= b < |files| && files[b] == items[j];
        assert a != b;
      }
    }
  }

  /** Deleting a file counts one and removes exactly the node with its id. */
  lemma DeleteFileRemovesIt(files: seq<Node>, n: Node)
    requires UniqueIds(files) && !IsDirectory(n) && n.parents.Some?
    ensures var r := DeleteNode(files, n);
      && r.0 == Ok(1)
      && forall m :: m in r.1 <==> m in files && m.id != n.id
  {
  }

  /** The loop counts every listed item, whatever each delete did. */
  lemma {:induction false} DeleteChildrenCount(files: seq<Node>, items: seq<Node>, k: nat, folderId: Id)
    requires k <= |items|
    requires forall j :: k <= j < |items| ==> items[j].parents.Some?
    ensures DeleteChildrenFrom(files, items, k, folderId).0 == Ok(|items|)
    decreases |items| - k
  {
    if k < |items| {
      DeleteChildrenCount(DeleteSpec(files, items[k], Some(folderId)).1, items, k + 1, folderId);
    }
  }

  // ---------------------------------------------------------------------------
  // write
  // ---------------------------------------------------------------------------

  /** Create the folders of the full path's head, then upload the last component into the last one. */
  function WriteIntoDirs(files: seq<Node>, rootId: Id, legacy: bool, w: bool, full: string, guessed: Option<string>, size: nat): (Result<(), Error>, seq<Node>) {
    var (base, name) := Split(full);
    var d := CreateDirs(files, rootId, legacy, base);
    if d.0.Err? then (Err(d.0.error), d.1)
    else UploadSpec(d.1, w, name, guessed, size, Some(d.0.value))
  }

  /**
   * `write(path)`. The legacy provider first resolves its root path and, in
   * "no directory" mode, uploads the relative path as a name into that folder.
   */
  function WriteSpec(files: seq<Node>, rootId: Id, legacy: bool, nodirMode: bool, w: bool, root: string, path: string, guessed: Option<string>, size: nat): (Result<(), Error>, seq<Node>) {
    var full := FullPath(root, path);
    if !legacy then WriteIntoDirs(files, rootId, legacy, w, full, guessed, size)
    else
      var folder := ResolveItem(files, rootId, RootPath(root), legacy);
      if folder.Err? then (Err(folder.error), files)
      else if !nodirMode then WriteIntoDirs(files, rootId, legacy, w, full, guessed, size)
      else if folder.value.None? then (Err(Crash(NoneSubscript)), files)
      else UploadSpec(files, w, RelPath(path), guessed, size, Some(folder.value.value.id))
  }

  lemma {:induction false} AbsoluteShape(segs: seq<string>)
    requires PlainSegments(segs)
    ensures Absolute(segs) != [] && (EndsWithSlash(Absolute(segs)) ==> AllSlashes(Absolute(segs)))
    decreases |segs|
  {
    if segs == [] {
      assert Absolute(segs) == Join("", "/") == "/";
    } else {
      var init := segs[..|segs| - 1];
      assert PlainSegments(init);
      AbsoluteShape(init);
      assert ["/"] + segs == (["/"] + init) + [segs[|segs| - 1]];
      JoinTokensSnoc(["/"] + init, segs[|segs| - 1]);
      SplitJoin(Absolute(init), segs[|segs| - 1]);
    }
  }

  /** The full path of a file splits into the path of its folder and its name. */
  lemma SplitAbsoluteFile(segs: seq<string>, name: string)
    requires PlainSegments(segs) && name != [] && NoSlash(name)
    ensures Split(Absolute(segs + [name])) == (Absolute(segs), name)
  {
    AbsoluteShape(segs);
    assert ["/"] + (segs + [name]) == (["/"] + segs) + [name];
    JoinTokensSnoc(["/"] + segs, name);
    SplitJoin(Absolute(segs), name);
  }

  /** After an upload into folder d, the node a chain ended at is still there (possibly rewritten) under the same id and chain. */
  lemma UploadKeepsChain(files: seq<Node>, w: bool, name: string, guessed: Option<string>, size: nat, d: Node, segs: seq<string>, rootId: Id)
    requires UniqueIds(files) && Reachable(files, {rootId}, segs, d)
    ensures var u := UploadSpec(files, w, name, guessed, size, Some(d.id)).1;
      exists d' :: d' in u && d'.id == d.id && Reachable(u, {rootId}, segs, d')
  {
    var meta := UploadMetadata(w, name, guessed);
    var media := UploadMedia(guessed, size);
    var existing := Listed(files, UploadQuery(name, Some(d.id)));
    ReachableInStore(files, {rootId}, segs, d);
    if existing == [] {
      var x := NewNode(FreshId(files), if Truthy(Some(d.id)) then meta.(parents := Some([d.id])) else meta, Some(media));
      ReachableGrows(files, x, {rootId}, segs, d);
      assert d in files + [x];
    } else {
      var e := existing[0];
      assert e in files;
      var i := IndexOf(files, e.id).value;
      assert files[i] == e;
      ReachableUpdated(files, i, meta, Some(media), {rootId}, segs, d);
      var d' := AfterUpdate(files, i, meta, Some(media), d);
      var u := Updated(files, i, meta, Some(media));
      ReachableInStore(u, {rootId}, segs, d');
    }
  }

  /**
   * On a reliable remote the new provider's write of "/s1/.../sn/name" first
   * creates (or finds) the folder "/s1/.../sn", then uploads `name` into it.
   */
  lemma WriteUploadsIntoFolder(files: seq<Node>, rootId: Id, nodirMode: bool, w: bool, root: string, path: string, segs: seq<string>, name: string, guessed: Option<string>, size: nat)
    returns (d: Node)
    requires UniqueIds(files) && NonEmptyIds(files)
    requires segs != [] && PlainSegments(segs) && name != [] && NoSlash(name)
    requires FullPath(root, path) == Absolute(segs + [name])
    ensures var c := CreateDirs(files, rootId, false, Absolute(segs));
      && c.0.Ok? && d in c.1 && d.id == c.0.value && d.id != ""
      && Reachable(c.1, {rootId}, segs, d) && UniqueIds(c.1)
      && WriteSpec(files, rootId, false, nodirMode, w, root, path, guessed, size) == UploadSpec(c.1, w, name, guessed, size, Some(d.id))
  {
    SplitAbsoluteFile(segs, name);
    var c := CreateDirs(files, rootId, false, Absolute(segs));
    CreatedPathResolves(files, rootId, segs);
    CreateDirsOnlyAddsFolders(LookupOf(rootId, false), files, SplitPathSpec(Absolute(segs)), 0, "", [rootId], None);
    d :| d in c.1 && d.id == c.0.value && Reachable(c.1, {rootId}, segs, d);
  }

  /** Uploading `name` into the folder a chain reaches makes the extended chain resolve to a node named `name`. */
  lemma UploadedFileResolves(files: seq<Node>, rootId: Id, w: bool, segs: seq<string>, name: string, guessed: Option<string>, size: nat, d: Node)
    requires UniqueIds(files) && d in files && d.id != "" && Reachable(files, {rootId}, segs, d)
    requires segs != [] && PlainSegments(segs + [name])
    ensures var u := UploadSpec(files, w, name, guessed, size, Some(d.id)).1;
      var r := ResolveItem(u, rootId, Absolute(segs + [name]), false);
      r.Ok? && r.value.Some? && r.value.value.name == name
  {
    var u := UploadSpec(files, w, name, guessed, size, Some(d.id));
    UploadedIsFound(files, w, name, guessed, size, Some(d.id));
    UploadKeepsChain(files, w, name, guessed, size, d, segs, rootId);
    var d' :| d' in u.1 && d'.id == d.id && Reachable(u.1, {rootId}, segs, d');
    var x := Listed(u.1, UploadQuery(name, Some(d.id)))[0];
    assert x in Listed(u.1, UploadQuery(name, Some(d.id)));
    assert NodeStep(u.1, {d'.id}, name, x) by {
      var p :| p in x.parents.value && p in [d.id];
    }
    ReachableExtends(u.1, {rootId}, segs, d', name, x);
    ResolveAbsolute(u.1, rootId, segs + [name]);
    var res := Resolve(u.1, rootId, SplitPathSpec(Absolute(segs + [name])));
    assert res.Found?;
    var m := res.matches[0];
    assert m in res.matches;
    ReachableEndsNamed(u.1, {rootId}, segs + [name], m);
  }

  /**
   * With the first-match resolver, writing "/s1/.../sn/name" (folders
   * created as needed) succeeds on a reliable remote, and afterwards stat of
   * the same path finds a node named `name`.
   */
  lemma WriteThenStat(files: seq<Node>, rootId: Id, nodirMode: bool, w: bool, root: string, path: string, segs: seq<string>, name: string, guessed: Option<string>, size: nat)
    requires UniqueIds(files) && NonEmptyIds(files)
    requires segs != [] && PlainSegments(segs + [name])
    requires FullPath(root, path) == Absolute(segs + [name])
    ensures var r := WriteSpec(files, rootId, false, nodirMode, w, root, path, guessed, size);
      var s := StatSpec(r.1, rootId, false, root, path);
      && r.0.Ok?
      && s.Ok? && s.value.Some?
      && ResolveItem(r.1, rootId, FullPath(root, path), false).value.value.name == name
  {
    PlainSegmentsSnoc(segs, name);
    var d := WriteUploadsIntoFolder(files, rootId, nodirMode, w, root, path, segs, name, guessed, size);
    var c := CreateDirs(files, rootId, false, Absolute(segs));
    var u := UploadSpec(c.1, w, name, guessed, size, Some(d.id));
    UploadCreatesIffAbsent(c.1, w, name, guessed, size, Some(d.id));
    UploadedFileResolves(c.1, rootId, w, segs, name, guessed, size, d);
    var r := WriteSpec(files, rootId, false, nodirMode, w, root, path, guessed, size);
    assert r == u && r.0.Ok?;
    StatFindsResolved(r.1, rootId, false, root, path);
  }

  /** stat succeeds with a node exactly where the full path resolves to one. */
  lemma StatFindsResolved(files: seq<Node>, rootId: Id, legacy: bool, root: string, path: string)
    ensures var item := ResolveItem(files, rootId, FullPath(root, path), legacy);
      var s := StatSpec(files, rootId, legacy, root, path);
      (s.Ok? && s.value.Some?) <==> (item.Ok? && item.value.Some?)
  {
  }

  lemma PlainSegmentsSnoc(segs: seq<string>, name: string)
    requires PlainSegments(segs + [name])
    ensures PlainSegments(segs) && name != [] && NoSlash(name)
  {
    assert forall i :: 0 <= i < |segs| ==> segs[i] == (segs + [name])[i];
    assert (segs + [name])[|segs|] == name;
  }
}
