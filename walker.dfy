/**
 * What `list_recursive` computes, stated on a snapshot of the subtree it
 * walks.
 *
 * The walk lists the non-trashed children of a folder, recurses into every
 * child folder with the path extended by "/" and the child's name, and adds
 * one entry per child file. In "first non-empty" mode a folder's loop ends
 * right after its first direct file child, but the entries its earlier
 * sub-folders contributed stay in the result.
 *
 * The store may in principle link folders in a cycle; the walk then never
 * ends. A `Tree` that is a `Snapshot` of the store exists exactly when the
 * part of the store below a node is finite and acyclic, and the walk is
 * specified on it.
 */
module Walker {
  import opened Wrappers
  import opened Nodes
  import opened Remote

  /** One enumeration entry: `{path, size, lastModified}`. */
  datatype Entry = Entry(path: string, size: nat, lastModified: Option<int>)

  /** The query `directory` sends: the non-trashed children of the node. */
  function ChildQuery(id: Id): Query {
    Query([id], None, None, Some(false))
  }

  function Children(files: seq<Node>, id: Id): seq<Node> {
    Listed(files, ChildQuery(id))
  }

  /** A finite picture of the subtree under `node`. */
  datatype Tree = Tree(node: Node, children: seq<Tree>)

  /**
   * t shows the store below t.node: its children are the listed children in
   * listing order, each folder child shows its own subtree and each file
   * child has no children of its own.
   */
  ghost predicate Snapshot(files: seq<Node>, t: Tree)
    decreases t
  {
    var cs := Children(files, t.node.id);
    && |t.children| == |cs|
    && (forall i :: 0 <= i < |cs| ==> t.children[i].node == cs[i])
    && (forall i :: 0 <= i < |cs| ==>
          if IsDirectory(cs[i]) then Snapshot(files, t.children[i]) else t.children[i].children == [])
  }

  /** The subtree below n is finite: some tree pictures it. */
  ghost predicate Walkable(files: seq<Node>, n: Node) {
    exists t: Tree :: t.node == n && Snapshot(files, t)
  }

  /** No walk from any node runs into a cycle of folders. */
  ghost predicate Acyclic(files: seq<Node>) {
    forall n :: Walkable(files, n)
  }

  /** The picture of the subtree below n. */
  ghost function TreeOf(files: seq<Node>, n: Node): (t: Tree)
    requires Walkable(files, n)
    ensures t.node == n && Snapshot(files, t)
  {
    var t: Tree :| t.node == n && Snapshot(files, t); t
  }

  /** A store without folders under any node is acyclic: every node's picture is flat. */
  lemma FlatStoreIsAcyclic(files: seq<Node>)
    requires forall n :: n in files ==> !IsDirectory(n)
    ensures Acyclic(files)
  {
    forall n: Node
      ensures Walkable(files, n)
    {
      var cs := Children(files, n.id);
      var t := Tree(n, seq(|cs|, i requires 0 <= i < |cs| => Tree(cs[i], [])));
      assert Snapshot(files, t);
    }
  }

  /** The entry of a file child under `prefix`. */
  function FileEntry(prefix: string, n: Node): Entry {
    Entry(prefix + "/" + n.name, FileSize(n), LastModified(n))
  }

  /** The path a walk prefixes its entries with: "/" counts as "". */
  function WalkPrefix(path: string): string {
    if path == "/" then "" else path
  }

  /** `list_recursive(path, t.node, first)`. */
  function WalkSpec(t: Tree, path: string, first: bool): seq<Entry>
    decreases t, |t.children| + 1
  {
    LevelSpec(t, 0, WalkPrefix(path), first)
  }

  /** The loop of `list_recursive` from child k on. */
  function LevelSpec(t: Tree, k: nat, prefix: string, first: bool): seq<Entry>
    requires k <= |t.children|
    decreases t, |t.children| - k
  {
    if k == |t.children| then []
    else
      var c := t.children[k];
      if IsDirectory(c.node) then WalkSpec(c, prefix + "/" + c.node.name, first) + LevelSpec(t, k + 1, prefix, first)
      else [FileEntry(prefix, c.node)] + (if first then [] else LevelSpec(t, k + 1, prefix, first))
  }

  /** A child folder of a snapshot is pictured by the snapshot's child tree. */
  lemma SnapshotChild(files: seq<Node>, t: Tree, k: nat)
    requires Snapshot(files, t) && k < |Children(files, t.node.id)|
    ensures k < |t.children| && t.children[k].node == Children(files, t.node.id)[k]
    ensures IsDirectory(t.children[k].node) ==> Snapshot(files, t.children[k])
  {
  }

  /** One turn of the loop over a folder's children, at a child folder: its walk is appended. */
  lemma LevelDirStep(t: Tree, k: nat, prefix: string, first: bool, paths: seq<Entry>, sub: seq<Entry>, goal: seq<Entry>)
    requires k < |t.children| && IsDirectory(t.children[k].node)
    requires sub == WalkSpec(t.children[k], prefix + "/" + t.children[k].node.name, first)
    requires paths + LevelSpec(t, k, prefix, first) == goal
    ensures (paths + sub) + LevelSpec(t, k + 1, prefix, first) == goal
  {
    AppendAssoc(paths, sub, LevelSpec(t, k + 1, prefix, first));
  }

  /** One turn of the loop over a folder's children, at a child file: its entry is appended, and
      with `first` the walk ends there. */
  lemma LevelFileStep(t: Tree, k: nat, prefix: string, first: bool, paths: seq<Entry>, goal: seq<Entry>)
    requires k < |t.children| && !IsDirectory(t.children[k].node)
    requires paths + LevelSpec(t, k, prefix, first) == goal
    ensures first ==> paths + [FileEntry(prefix, t.children[k].node)] == goal
    ensures !first ==> (paths + [FileEntry(prefix, t.children[k].node)]) + LevelSpec(t, k + 1, prefix, first) == goal
  {
    var e := FileEntry(prefix, t.children[k].node);
    if first {
      assert [e] + [] == [e];
    } else {
      AppendAssoc(paths, [e], LevelSpec(t, k + 1, prefix, first));
    }
  }

  // ---------------------------------------------------------------------------
  // The files of a subtree
  // ---------------------------------------------------------------------------

  /** A file below a folder: the names of the folders leading down to it, and the file itself. */
  datatype Located = Located(dirs: seq<string>, node: Node)

  /** Where the walk stands after descending from `prefix` through the folders `dirs`: each step
      appends "/" and the folder's name, and a path that is just "/" counts as "". */
  function DirPath(prefix: string, dirs: seq<string>): string
    decreases |dirs|
  {
    if dirs == [] then prefix else DirPath(WalkPrefix(prefix + "/" + dirs[0]), dirs[1..])
  }

  /** The files of a sub-folder named `name`, seen from its parent. */
  function Within(name: string, fs: seq<Located>): seq<Located> {
    seq(|fs|, i requires 0 <= i < |fs| => Located([name] + fs[i].dirs, fs[i].node))
  }

  /** The file nodes below t.node, depth first, in listing order, each with its folders. */
  function FilesOf(t: Tree): (r: seq<Located>)
    ensures forall i :: 0 <= i < |r| ==> !IsDirectory(r[i].node)
    decreases t, |t.children| + 1
  {
    FilesFrom(t, 0)
  }

  function FilesFrom(t: Tree, k: nat): (r: seq<Located>)
    requires k <= |t.children|
    ensures forall i :: 0 <= i < |r| ==> !IsDirectory(r[i].node)
    decreases t, |t.children| - k
  {
    if k == |t.children| then []
    else
      var c := t.children[k];
      if IsDirectory(c.node) then Within(c.node.name, FilesOf(c)) + FilesFrom(t, k + 1)
      else [Located([], c.node)] + FilesFrom(t, k + 1)
  }

  /** Entries that list, one for one, the given files: the path of the folder each lies in,
      a slash and its name, then its size and its modification time. */
  predicate Describes(es: seq<Entry>, prefix: string, fs: seq<Located>) {
    |es| == |fs| && forall i :: 0 <= i < |es| ==> es[i] == FileEntry(DirPath(prefix, fs[i].dirs), fs[i].node)
  }

  lemma DescribesConcat(es1: seq<Entry>, fs1: seq<Located>, es2: seq<Entry>, fs2: seq<Located>, prefix: string)
    requires Describes(es1, prefix, fs1) && Describes(es2, prefix, fs2)
    ensures Describes(es1 + es2, prefix, fs1 + fs2)
  {
    forall i | 0 <= i < |es1 + es2|
      ensures (es1 + es2)[i] == FileEntry(DirPath(prefix, (fs1 + fs2)[i].dirs), (fs1 + fs2)[i].node)
    {
      if i >= |es1| {
        assert (es1 + es2)[i] == es2[i - |es1|] && (fs1 + fs2)[i] == fs2[i - |fs1|];
      }
    }
  }

  /** A sub-folder's walk, which starts from the sub-folder's own path, lists its files as seen from the parent. */
  lemma DescribesWithin(es: seq<Entry>, prefix: string, name: string, fs: seq<Located>)
    requires Describes(es, WalkPrefix(prefix + "/" + name), fs)
    ensures Describes(es, prefix, Within(name, fs))
  {
    var ws := Within(name, fs);
    forall i | 0 <= i < |es|
      ensures es[i] == FileEntry(DirPath(prefix, ws[i].dirs), ws[i].node)
    {
      var d := [name] + fs[i].dirs;
      assert ws[i].dirs == d && d[0] == name && d[1..] == fs[i].dirs;
    }
  }

  /** Without `first_non_empty` the walk yields exactly one entry per file of the subtree, and none
      per folder, each at the path of the folders above the file. */
  lemma {:induction false} FullWalkListsEveryFile(t: Tree, path: string)
    ensures Describes(WalkSpec(t, path, false), WalkPrefix(path), FilesOf(t))
    ensures |WalkSpec(t, path, false)| == |FilesOf(t)|
    decreases t, |t.children| + 1
  {
    FullLevelListsEveryFile(t, 0, WalkPrefix(path));
  }

  lemma {:induction false} FullLevelListsEveryFile(t: Tree, k: nat, prefix: string)
    requires k <= |t.children|
    ensures Describes(LevelSpec(t, k, prefix, false), prefix, FilesFrom(t, k))
    decreases t, |t.children| - k
  {
    if k < |t.children| {
      var c := t.children[k];
      FullLevelListsEveryFile(t, k + 1, prefix);
      if IsDirectory(c.node) {
        var sub := prefix + "/" + c.node.name;
        FullWalkListsEveryFile(c, sub);
        DescribesWithin(WalkSpec(c, sub, false), prefix, c.node.name, FilesOf(c));
        DescribesConcat(WalkSpec(c, sub, false), Within(c.node.name, FilesOf(c)), LevelSpec(t, k + 1, prefix, false), FilesFrom(t, k + 1), prefix);
      } else {
        DescribesConcat([FileEntry(prefix, c.node)], [Located([], c.node)], LevelSpec(t, k + 1, prefix, false), FilesFrom(t, k + 1), prefix);
      }
    }
  }

  // ---------------------------------------------------------------------------
  // Entry paths
  // ---------------------------------------------------------------------------

  predicate AllUnder(es: seq<Entry>, prefix: string) {
    forall i :: 0 <= i < |es| ==> StartsWith(es[i].path, prefix + "/")
  }

  lemma StartsWithTrans(s: string, a: string, b: string)
    requires StartsWith(s, a) && StartsWith(a, b)
    ensures StartsWith(s, b)
  {
    assert s[..|b|] == s[..|a|][..|b|];
  }

  /** Every entry's path is the walk's prefix ("" for "/"), a slash, then more. */
  lemma {:induction false} WalkPathsUnderPrefix(t: Tree, path: string, first: bool)
    ensures AllUnder(WalkSpec(t, path, first), WalkPrefix(path))
    decreases t, |t.children| + 1
  {
    LevelPathsUnderPrefix(t, 0, WalkPrefix(path), first);
  }

  lemma {:induction false} LevelPathsUnderPrefix(t: Tree, k: nat, prefix: string, first: bool)
    requires k <= |t.children|
    ensures AllUnder(LevelSpec(t, k, prefix, first), prefix)
    decreases t, |t.children| - k
  {
    if k < |t.children| {
      var c := t.children[k];
      var rest := LevelSpec(t, k + 1, prefix, first);
      LevelPathsUnderPrefix(t, k + 1, prefix, first);
      if IsDirectory(c.node) {
        var sub := prefix + "/" + c.node.name;
        var w := WalkSpec(c, sub, first);
        WalkPathsUnderPrefix(c, sub, first);
        assert StartsWith(WalkPrefix(sub) + "/", prefix + "/") by {
          if sub == "/" {
            assert prefix == [] && WalkPrefix(sub) + "/" == "/";
          } else {
            assert WalkPrefix(sub) + "/" == prefix + "/" + (c.node.name + "/");
          }
        }
        forall i | 0 <= i < |w|
          ensures StartsWith(w[i].path, prefix + "/")
        {
          StartsWithTrans(w[i].path, WalkPrefix(sub) + "/", prefix + "/");
        }
        assert LevelSpec(t, k, prefix, first) == w + rest;
      } else {
        var e := FileEntry(prefix, c.node);
        assert StartsWith(e.path, prefix + "/");
        assert LevelSpec(t, k, prefix, first) == [e] + (if first then [] else rest);
      }
    }
  }

  // ---------------------------------------------------------------------------
  // first_non_empty
  // ---------------------------------------------------------------------------

  /** The early-exit walk reports nothing the full walk does not. */
  lemma {:induction false} FirstWalkWithinFull(t: Tree, path: string)
    ensures forall e :: e in WalkSpec(t, path, true) ==> e in WalkSpec(t, path, false)
    decreases t, |t.children| + 1
  {
    FirstLevelWithinFull(t, 0, WalkPrefix(path));
  }

  lemma {:induction false} FirstLevelWithinFull(t: Tree, k: nat, prefix: string)
    requires k <= |t.children|
    ensures forall e :: e in LevelSpec(t, k, prefix, true) ==> e in LevelSpec(t, k, prefix, false)
    decreases t, |t.children| - k
  {
    if k < |t.children| {
      var c := t.children[k];
      FirstLevelWithinFull(t, k + 1, prefix);
      if IsDirectory(c.node) {
        FirstWalkWithinFull(c, prefix + "/" + c.node.name);
      }
    }
  }

  /** The early-exit walk finds something exactly when the subtree holds a file. */
  lemma {:induction false} FirstWalkNonEmptyIffFiles(t: Tree, path: string)
    ensures WalkSpec(t, path, true) != [] <==> FilesOf(t) != []
    decreases t, |t.children| + 1
  {
    FirstLevelNonEmptyIffFiles(t, 0, WalkPrefix(path));
  }

  lemma {:induction false} FirstLevelNonEmptyIffFiles(t: Tree, k: nat, prefix: string)
    requires k <= |t.children|
    ensures LevelSpec(t, k, prefix, true) != [] <==> FilesFrom(t, k) != []
    decreases t, |t.children| - k
  {
    if k < |t.children| {
      var c := t.children[k];
      FirstLevelNonEmptyIffFiles(t, k + 1, prefix);
      if IsDirectory(c.node) {
        FirstWalkNonEmptyIffFiles(c, prefix + "/" + c.node.name);
      }
    }
  }

  /** A root folder holding folder "A" (with file "x.csv") and then file "y.csv". */
  function ExampleStore(): seq<Node> {
    [Node("a", "A", FolderMime, None, Some(["top"]), false, None),
     Node("x", "x.csv", CsvMime, Some(3), Some(["a"]), false, None),
     Node("y", "y.csv", CsvMime, Some(4), Some(["top"]), false, None)]
  }

  function ExampleTree(): Tree {
    var files := ExampleStore();
    Tree(RootNode("top"), [Tree(files[0], [Tree(files[1], [])]), Tree(files[2], [])])
  }

  /** Listed below the root: folder "A", then file "y.csv". */
  lemma ExampleRootChildren()
    ensures var files := ExampleStore();
      Children(files, "top") == [files[0], files[2]]
  {
    var files := ExampleStore();
    var a, x, y := files[0], files[1], files[2];
    var top := ChildQuery("top");
    assert "top" in a.parents.value && "top" in y.parents.value;
    assert Matches(a, top) && Matches(y, top) && !Matches(x, top);
    assert files[1..] == [x, y] && [x, y][1..] == [y] && [y][1..] == [];
    assert Listed([y], top) == [y];
    assert Listed([x, y], top) == [y];
  }

  /** Listed below "A": file "x.csv" only. */
  lemma ExampleFolderChildren()
    ensures var files := ExampleStore();
      Children(files, "a") == [files[1]]
  {
    var files := ExampleStore();
    var a, x, y := files[0], files[1], files[2];
    var inA := ChildQuery("a");
    assert "a" in x.parents.value;
    assert Matches(x, inA) && !Matches(a, inA) && !Matches(y, inA);
    assert files[1..] == [x, y] && [x, y][1..] == [y] && [y][1..] == [];
    assert Listed([y], inA) == [];
    assert Listed([x, y], inA) == [x];
  }

  /** The example's folder "A" is pictured by its subtree. */
  lemma ExampleFolderIsSnapshot(files: seq<Node>, a: Tree)
    requires files == ExampleStore() && a == ExampleTree().children[0]
    ensures Snapshot(files, a)
  {
    ExampleFolderChildren();
    var cs := Children(files, a.node.id);
    assert cs == [files[1]];
    forall i | 0 <= i < |cs|
      ensures a.children[i].node == cs[i]
      ensures if IsDirectory(cs[i]) then Snapshot(files, a.children[i]) else a.children[i].children == []
    {
      assert !IsDirectory(files[1]) by {
        assert CsvMime != FolderMime;
      }
    }
  }

  /** The example tree is the store's picture below the root. */
  lemma ExampleIsSnapshot()
    ensures Snapshot(ExampleStore(), ExampleTree())
  {
    var files := ExampleStore();
    var t := ExampleTree();
    ExampleRootChildren();
    ExampleFolderIsSnapshot(files, t.children[0]);
    var cs := Children(files, t.node.id);
    assert cs == [files[0], files[2]];
    forall i | 0 <= i < |cs|
      ensures t.children[i].node == cs[i]
      ensures if IsDirectory(cs[i]) then Snapshot(files, t.children[i]) else t.children[i].children == []
    {
      if i == 1 {
        assert !IsDirectory(files[2]) by {
          assert CsvMime != FolderMime;
        }
      }
    }
  }

  /**
   * The early exit is per folder: a file inside a first sub-folder and a file
   * next to that sub-folder are both reported, so the early-exit result holds
   * two entries.
   */
  lemma FirstWalkKeepsEarlierEntries()
    ensures WalkSpec(ExampleTree(), "/", true) == [Entry("/A/x.csv", 3, None), Entry("/y.csv", 4, None)]
  {
    var t := ExampleTree();
    var ta := t.children[0];
    assert !IsDirectory(ta.children[0].node) && !IsDirectory(t.children[1].node) by {
      assert CsvMime != FolderMime;
    }
    assert "/A/x.csv" == "/A" + "/" + "x.csv" && "/y.csv" == "" + "/" + "y.csv";
    assert LevelSpec(ta, 0, "/A", true) == [Entry("/A/x.csv", 3, None)];
    assert "" + "/" + "A" == "/A" && WalkPrefix("/A") == "/A";
    assert WalkSpec(ta, "/A", true) == [Entry("/A/x.csv", 3, None)];
    assert LevelSpec(t, 1, "", true) == [Entry("/y.csv", 4, None)];
  }
}
