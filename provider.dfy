/**
 * The file-system provider object: the provider root it was built with and
 * the session it talks to the drive through. Each operation is proved against
 * the reliable-remote function of `Operations`: on a reliable remote it
 * returns exactly that function's result (and leaves the store as that
 * function says); whenever it returns normally its answer is that result;
 * and when it raises, the error is either the one that function raises or a
 * failure of one of the remote calls.
 *
 * One class covers both providers: `session.legacy` selects the
 * self-contained provider (no root guard on delete, the ambiguous-match error
 * of its resolver, its root lookup and "no directory" mode on write).
 */
module Provider {
  import opened Wrappers
  import opened Nodes
  import opened Remote
  import opened Calls
  import opened Errors
  import opened Paths
  import opened Resolver
  import opened Folders
  import opened Walker
  import opened Operations
  import opened Session

  /** The loop of `browse` over a folder's children: one description per child, in listing order. */
  method DescribeChildren(path: string, files: seq<Node>) returns (children: seq<ChildInfo>)
    ensures children == ChildInfos(path, files)
  {
    children := [];
    var k := 0;
    while k < |files|
      invariant k <= |files|
      invariant |children| == k && forall i :: 0 <= i < k ==> children[i] == ChildInfoOf(path, files[i])
    {
      var c := files[k];
      children := children + [ChildInfo(NormalizedPath(Join(path, c.name)), IsDirectory(c), FileSize(c), LastModified(c))];
      k := k + 1;
    }
  }

  /** The loop of `enumerate`'s fallback: one entry per listed node, read with the raw `size` key. */
  method ReadEntries(fs: seq<Node>) returns (r: Result<seq<Entry>, Error>)
    ensures r == RawEntries(fs)
  {
    var entries: seq<Entry> := [];
    var k := 0;
    while k < |fs|
      invariant k <= |fs|
      invariant |entries| == k && forall i :: 0 <= i < k ==> fs[i].size.Some? && entries[i] == RawEntry(fs[i])
    {
      var f := fs[k];
      if f.size.None? {
        return Err(Crash("KeyError: 'size'"));
      }
      entries := entries + [Entry(NormalizedPath(f.name), f.size.value, LastModified(f))];
      k := k + 1;
    }
    assert entries == RawEntries(fs).value;
    r := Ok(entries);
  }

  class GoogleDriveFSProvider {
    /** The provider root with one leading slash removed, as the constructor keeps it. */
    const root: string
    const nodirMode: bool
    const session: GoogleDriveSession

    constructor(root: string, nodirMode: bool, session: GoogleDriveSession)
      ensures this.root == RelPath(root) && this.nodirMode == nodirMode && this.session == session
    {
      this.root := RelPath(root);
      this.nodirMode := nodirMode;
      this.session := session;
    }

    /** `stat(path)`. */
    method Stat(path: string) returns (r: Result<Option<StatInfo>, Error>)
      modifies session, session.drive
      ensures session.drive.files == old(session.drive.files)
      ensures var spec := StatSpec(old(session.drive.files), session.rootId, session.legacy, root, path);
        && (old(session.drive.pending) == [] ==> r == spec && session.drive.pending == [])
        && (r.Ok? ==> r == spec)
        && (r.Err? ==> r == spec || RemoteFailure(r.error, "list"))
      ensures session.SleptSince(old(session.slept))
    {
      var item := session.GetItemFromPath(FullPath(root, path));
      if item.Err? {
        return Err(item.error);
      }
      if item.value.None? {
        return Ok(None);
      }
      var n := item.value.value;
      r := Ok(Some(StatInfo(NormalizedPath(path), FileSize(n), LastModified(n), IsDirectory(n))));
    }

    /** `browse(path)`: a folder's children are described one by one, in listing order. */
    method Browse(path: string) returns (r: Result<Listing, Error>)
      modifies session, session.drive
      ensures session.drive.files == old(session.drive.files)
      ensures var spec := BrowseSpec(old(session.drive.files), session.rootId, session.legacy, root, path);
        && (old(session.drive.pending) == [] ==> r == spec && session.drive.pending == [])
        && (r.Ok? ==> r == spec)
        && (r.Err? ==> r == spec || RemoteFailure(r.error, "list"))
      ensures session.SleptSince(old(session.slept))
    {
      var item := session.GetItemFromPath(FullPath(root, RelPath(path)));
      if item.Err? {
        return Err(item.error);
      }
      if item.value.None? {
        return Ok(Missing);
      }
      var n := item.value.value;
      if IsFile(n) {
        return Ok(FileListing(NormalizedPath(path), FileSize(n), LastModified(n)));
      }
      ghost var mid := session.slept;
      var listed := session.Directory(n);
      ExtendsByDelaysTrans(old(session.slept), mid, session.slept);
      if listed.Err? {
        return Err(listed.error);
      }
      var children := DescribeChildren(path, listed.value);
      r := Ok(FolderListing(NormalizedPath(path), children, LastModified(n)));
    }

    /**
     * `list_recursive(path, folder, first)`, walking the snapshot `t` of the
     * folder's subtree: every child folder is walked in turn, every child
     * file adds its entry, and in "first" mode the folder's loop ends after
     * its first file.
     */
    method ListRecursive(path: string, folder: Node, first: bool, ghost t: Tree) returns (r: Result<seq<Entry>, Error>)
      requires t.node == folder && Snapshot(session.drive.files, t)
      modifies session, session.drive
      ensures session.drive.files == old(session.drive.files)
      ensures old(session.drive.pending) == [] ==> r == Ok(WalkSpec(t, path, first)) && session.drive.pending == []
      ensures r.Ok? ==> r.value == WalkSpec(t, path, first)
      ensures r.Err? ==> RemoteFailure(r.error, "list")
      ensures session.SleptSince(old(session.slept))
      decreases t, 1
    {
      var prefix := WalkPrefix(path);
      ghost var mid := session.slept;
      var listed := session.Directory(folder);
      ExtendsByDelaysTrans(old(session.slept), mid, session.slept);
      if listed.Err? {
        return Err(listed.error);
      }
      var children := listed.value;
      assert WalkSpec(t, path, first) == LevelSpec(t, 0, prefix, first);
      mid := session.slept;
      r := ListChildren(prefix, children, first, t);
      ExtendsByDelaysTrans(old(session.slept), mid, session.slept);
    }

    /** The loop of `list_recursive` over a folder's listed children. */
    method ListChildren(prefix: string, children: seq<Node>, first: bool, ghost t: Tree) returns (r: Result<seq<Entry>, Error>)
      requires Snapshot(session.drive.files, t) && children == Children(session.drive.files, t.node.id)
      modifies session, session.drive
      ensures session.drive.files == old(session.drive.files)
      ensures old(session.drive.pending) == [] ==> r == Ok(LevelSpec(t, 0, prefix, first)) && session.drive.pending == []
      ensures r.Ok? ==> r.value == LevelSpec(t, 0, prefix, first)
      ensures r.Err? ==> RemoteFailure(r.error, "list")
      ensures session.SleptSince(old(session.slept))
      decreases t, 0
    {
      ghost var files := session.drive.files;
      ghost var reliable := session.drive.pending == [];
      ghost var goal := LevelSpec(t, 0, prefix, first);
      var paths: seq<Entry> := [];
      var k := 0;
      while k < |children|
        invariant k <= |children|
        invariant session.drive.files == files
        invariant reliable ==> session.drive.pending == []
        invariant paths + LevelSpec(t, k, prefix, first) == goal
        invariant session.SleptSince(old(session.slept))
      {
        var child := children[k];
        SnapshotChild(files, t, k);
        if IsDirectory(child) {
          ghost var mid := session.slept;
          var sub := ListRecursive(prefix + "/" + child.name, child, first, t.children[k]);
          ExtendsByDelaysTrans(old(session.slept), mid, session.slept);
          if sub.Err? {
            return Err(sub.error);
          }
          LevelDirStep(t, k, prefix, first, paths, sub.value, goal);
          paths := paths + sub.value;
        } else {
          var e := Entry(prefix + "/" + child.name, FileSize(child), LastModified(child));
          LevelFileStep(t, k, prefix, first, paths, goal);
          paths := paths + [e];
          if first {
            return Ok(paths);
          }
        }
        k := k + 1;
      }
      assert paths == paths + LevelSpec(t, k, prefix, first);
      r := Ok(paths);
    }

    /** The fallback of `enumerate` when the path resolves to nothing: a name search under the provider root. */
    method EnumerateByName(path: string, first: bool) returns (r: Result<Option<seq<Entry>>, Error>)
      requires Acyclic(session.drive.files)
      requires ResolveItem(session.drive.files, session.rootId, FullPath(root, path), session.legacy) == Ok(None)
      modifies session, session.drive
      ensures session.drive.files == old(session.drive.files)
      ensures var spec := EnumerateSpec(old(session.drive.files), session.rootId, session.legacy, root, path, first);
        && (old(session.drive.pending) == [] ==> r == spec && session.drive.pending == [])
        && (r.Ok? ==> r == spec)
        && (r.Err? ==> r == spec || RemoteFailure(r.error, "list"))
      ensures session.SleptSince(old(session.slept))
    {
      var base := session.GetItemFromPath(RootPath(root));
      if base.Err? {
        return Err(base.error);
      }
      if base.value.None? {
        return Err(Crash(NoneSubscript));
      }
      var q := FallbackQuery(base.value.value.id, path);
      var text := QueryParentsIn(q);
      ghost var mid := session.slept;
      var listed := session.List(q, text);
      ExtendsByDelaysTrans(old(session.slept), mid, session.slept);
      if listed.Err? {
        return Err(listed.error);
      }
      var fs := listed.value;
      if fs == [] {
        return Ok(None);
      }
      var entries := ReadEntries(fs);
      if entries.Err? {
        return Err(entries.error);
      }
      return Ok(Some(entries.value));
    }

    /** `enumerate(path, first)`. */
    method Enumerate(path: string, first: bool) returns (r: Result<Option<seq<Entry>>, Error>)
      requires Acyclic(session.drive.files)
      modifies session, session.drive
      ensures session.drive.files == old(session.drive.files)
      ensures var spec := EnumerateSpec(old(session.drive.files), session.rootId, session.legacy, root, path, first);
        && (old(session.drive.pending) == [] ==> r == spec && session.drive.pending == [])
        && (r.Ok? ==> r == spec)
        && (r.Err? ==> r == spec || RemoteFailure(r.error, "list"))
      ensures session.SleptSince(old(session.slept))
    {
      var item := session.GetItemFromPath(FullPath(root, path));
      if item.Err? {
        return Err(item.error);
      }
      if item.value.None? {
        ghost var mid := session.slept;
        r := EnumerateByName(path, first);
        ExtendsByDelaysTrans(old(session.slept), mid, session.slept);
        return;
      }
      var n := item.value.value;
      if IsFile(n) {
        return Ok(Some([Entry(NormalizedPath(path), FileSize(n), LastModified(n))]));
      }
      ghost var mid := session.slept;
      var walked := ListRecursive(path, n, first, TreeOf(session.drive.files, n));
      ExtendsByDelaysTrans(old(session.slept), mid, session.slept);
      if walked.Err? {
        return Err(walked.error);
      }
      r := Ok(Some(walked.value));
    }

    /**
     * The loop of `delete_recursive` over a folder's children: each is deleted,
     * or unlinked from the folder when it has other parents, and counted.
     */
    method DeleteChildren(items: seq<Node>, folderId: Id) returns (r: Result<nat, Error>)
      requires forall j :: 0 <= j < |items| ==> items[j].parents.Some?
      modifies session, session.drive
      ensures old(session.drive.pending) == [] ==>
        (r, session.drive.files) == DeleteChildrenFrom(old(session.drive.files), items, 0, folderId) && session.drive.pending == []
      ensures r.Ok? ==> r == Ok(|items|)
      ensures r.Err? ==> RemoteFailure(r.error, "delete")
      ensures session.SleptSince(old(session.slept))
    {
      ghost var files := session.drive.files;
      ghost var reliable := session.drive.pending == [];
      var count := 0;
      while count < |items|
        invariant count <= |items|
        invariant reliable ==> session.drive.pending == []
        invariant reliable ==> DeleteChildrenFrom(session.drive.files, items, count, folderId) == DeleteChildrenFrom(files, items, 0, folderId)
        invariant session.SleptSince(old(session.slept))
      {
        DeleteCallReliable(session.drive.files, items[count], Some(folderId), session.maxAttempts);
        DeleteCallOutcome(session.drive.files, session.drive.pending, 0, session.maxAttempts, items[count], Some(folderId));
        ghost var mid := session.slept;
        var deleted := session.Delete(items[count], Some(folderId));
        ExtendsByDelaysTrans(old(session.slept), mid, session.slept);
        if deleted.Err? {
          return Err(deleted.error);
        }
        count := count + 1;
      }
      r := Ok(count);
    }

    /**
     * `delete_recursive(path)`, with a path that resolves to nothing deleting
     * nothing: a folder loses every child (each deleted, or unlinked from it
     * when it has other parents) and the count is the number of children
     * listed; a file is deleted and counts one.
     */
    method DeleteRecursive(path: string) returns (r: Result<nat, Error>)
      modifies session, session.drive
      ensures var spec := DeleteRecursiveSpec(old(session.drive.files), session.rootId, session.legacy, root, path);
        && (old(session.drive.pending) == [] ==> (r, session.drive.files) == spec && session.drive.pending == [])
        && (r.Ok? ==> r == spec.0)
        && (r.Err? ==> r == spec.0 || RemoteFailure(r.error, "list") || RemoteFailure(r.error, "delete"))
      ensures GuardRefuses(session.legacy, FullPath(root, path)) ==>
        r == Err(RootGuard) && session.drive.pending == old(session.drive.pending) && session.drive.files == old(session.drive.files)
      ensures session.SleptSince(old(session.slept))
    {
      var full := FullPath(root, path);
      if GuardRefuses(session.legacy, full) {
        return Err(RootGuard);
      }
      var item := session.GetItemFromPath(full);
      if item.Err? {
        return Err(item.error);
      }
      if item.value.None? {
        return Ok(0);
      }
      ghost var mid := session.slept;
      r := DeleteItem(item.value.value);
      ExtendsByDelaysTrans(old(session.slept), mid, session.slept);
    }

    /** The part of `delete_recursive` after the lookup: a folder's children, or the file itself. */
    method DeleteItem(n: Node) returns (r: Result<nat, Error>)
      modifies session, session.drive
      ensures var spec := DeleteNode(old(session.drive.files), n);
        && (old(session.drive.pending) == [] ==> (r, session.drive.files) == spec && session.drive.pending == [])
        && (r.Ok? ==> r == spec.0)
        && (r.Err? ==> r == spec.0 || RemoteFailure(r.error, "list") || RemoteFailure(r.error, "delete"))
      ensures session.SleptSince(old(session.slept))
    {
      ghost var mid := session.slept;
      if IsDirectory(n) {
        if n.parents.None? {
          return Ok(0);
        }
        var q := ChildrenQuery(n.id);
        var text := QueryParentsIn(q);
        var listed := session.List(q, text);
        ExtendsByDelaysTrans(old(session.slept), mid, session.slept);
        if listed.Err? {
          return Err(listed.error);
        }
        var items := listed.value;
        ghost var files := session.drive.files;
        assert forall j :: 0 <= j < |items| ==> items[j].parents.Some? by {
          forall j | 0 <= j < |items|
            ensures items[j].parents.Some?
          {
            assert items[j] in Listed(files, q);
          }
        }
        mid := session.slept;
        r := DeleteChildren(items, n.id);
        ExtendsByDelaysTrans(old(session.slept), mid, session.slept);
        DeleteChildrenCount(files, items, 0, n.id);
        return;
      }
      if n.parents.Some? {
        DeleteCallReliable(session.drive.files, n, None, session.maxAttempts);
        DeleteCallOutcome(session.drive.files, session.drive.pending, 0, session.maxAttempts, n, None);
      }
      var deleted := session.Delete(n, None);
      ExtendsByDelaysTrans(old(session.slept), mid, session.slept);
      if deleted.Err? {
        return Err(deleted.error);
      }
      r := Ok(1);
    }

    /**
     * `write(path)` of `size` bytes whose type the file name suggests as
     * `guessed`: the folders of the full path are created as needed and the
     * file is uploaded into the last one; the legacy provider first resolves
     * its root path and, in "no directory" mode, uploads the relative path
     * as a name into that folder.
     */
    method Write(path: string, guessed: Option<string>, size: nat) returns (r: Result<(), Error>)
      modifies session, session.drive
      ensures var spec := WriteSpec(old(session.drive.files), session.rootId, session.legacy, nodirMode, session.writeAsGoogleDoc, root, path, guessed, size);
        && (old(session.drive.pending) == [] ==> (r, session.drive.files) == spec && session.drive.pending == [])
        && (r.Ok? ==> (r, session.drive.files) == spec)
        && (r.Err? ==> r == spec.0 || RemoteFailure(r.error, "list") || RemoteFailure(r.error, "create") || RemoteFailure(r.error, "update"))
      ensures session.SleptSince(old(session.slept))
    {
      var full := FullPath(root, path);
      ghost var mid := session.slept;
      if session.legacy {
        var folder := session.GetItemFromPath(RootPath(root));
        if folder.Err? {
          return Err(folder.error);
        }
        if nodirMode {
          if folder.value.None? {
            return Err(Crash(NoneSubscript));
          }
          mid := session.slept;
          r := session.Upload(RelPath(path), guessed, size, Some(folder.value.value.id));
          ExtendsByDelaysTrans(old(session.slept), mid, session.slept);
          return;
        }
      }
      var split := Split(full);
      ExtendsByDelaysTrans(old(session.slept), mid, session.slept);
      mid := session.slept;
      var dir := session.CreateDirectoryFromPath(split.0);
      ExtendsByDelaysTrans(old(session.slept), mid, session.slept);
      if dir.Err? {
        return Err(dir.error);
      }
      mid := session.slept;
      r := session.Upload(split.1, guessed, size, Some(dir.value));
      ExtendsByDelaysTrans(old(session.slept), mid, session.slept);
    }
  }
}
