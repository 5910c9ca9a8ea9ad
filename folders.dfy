/**
 * What the two writing operations of the session do to the store on a
 * reliable remote: `create_directory_from_path` (resolve every prefix of the
 * path, create a folder for each one missing) and the decision part of
 * `googledrive_upload` (metadata, media type, create or update).
 */
module Folders {
  import opened Wrappers
  import opened Nodes
  import opened Remote
  import opened Calls
  import opened Errors
  import opened Paths
  import opened Resolver

  // ---------------------------------------------------------------------------
  // create_directory_from_path
  // ---------------------------------------------------------------------------

  /** The metadata of `create_directory`: the name, the parent ids, the folder type. */
  function FolderMeta(name: string, parentIds: seq<Id>): Metadata {
    Metadata(name, Some(FolderMime), Some(parentIds))
  }

  /** How a variant of `get_item_from_path` answers for a path in a given store. */
  type Lookup = (seq<Node>, string) -> Result<Option<Node>, Error>

  /** The lookup of the first-match or of the legacy variant. */
  function LookupOf(rootId: Id, legacy: bool): Lookup {
    (files: seq<Node>, path: string) => ResolveItem(files, rootId, path, legacy)
  }

  /**
   * The loop from token i on: `currentPath` is the joined prefix so far,
   * `parentIds` the parent of the next folder, `newId` the id of the last one
   * (the Python `new_directory_id`, unbound before the first token).
   */
  function CreateDirsFrom(lookup: Lookup, files: seq<Node>, tokens: seq<string>, i: nat, currentPath: string, parentIds: seq<Id>, newId: Option<Id>): (r: (Result<Id, Error>, seq<Node>))
    requires i <= |tokens|
    decreases |tokens| - i
  {
    if i == |tokens| then
      (if newId.Some? then Ok(newId.value)
       else Err(Crash("UnboundLocalError: local variable 'new_directory_id' referenced before assignment")), files)
    else
      var cp := Join(currentPath, tokens[i]);
      var item := lookup(files, cp);
      if item.Err? then (Err(item.error), files)
      else if item.value.None? then
        var id := FreshId(files);
        CreateDirsFrom(lookup, Created(files, FolderMeta(tokens[i], parentIds), None), tokens, i + 1, cp, [id], Some(id))
      else
        CreateDirsFrom(lookup, files, tokens, i + 1, cp, [item.value.value.id], Some(item.value.value.id))
  }

  function CreateDirs(files: seq<Node>, rootId: Id, legacy: bool, path: string): (Result<Id, Error>, seq<Node>) {
    CreateDirsFrom(LookupOf(rootId, legacy), files, SplitPathSpec(path), 0, "", [rootId], None)
  }

  /** One turn of the loop, by what the lookup of the next prefix answers. */
  lemma CreateDirsFromStep(lookup: Lookup, files: seq<Node>, tokens: seq<string>, i: nat, currentPath: string, parentIds: seq<Id>, newId: Option<Id>)
    requires i < |tokens|
    ensures var cp := Join(currentPath, tokens[i]);
      var item := lookup(files, cp);
      var r := CreateDirsFrom(lookup, files, tokens, i, currentPath, parentIds, newId);
      && (item.Err? ==> r == (Err(item.error), files))
      && (item == Ok(None) ==>
            r == CreateDirsFrom(lookup, Created(files, FolderMeta(tokens[i], parentIds), None), tokens, i + 1, cp, [FreshId(files)], Some(FreshId(files))))
      && (item.Ok? && item.value.Some? ==>
            r == CreateDirsFrom(lookup, files, tokens, i + 1, cp, [item.value.value.id], Some(item.value.value.id)))
  {
  }

  /** `after` is `before` with only folders appended. */
  predicate AddsFolders(before: seq<Node>, after: seq<Node>) {
    |before| <= |after| && after[..|before|] == before
    && forall j :: |before| <= j < |after| ==> IsDirectory(after[j])
  }

  lemma AddsFoldersTrans(a: seq<Node>, b: seq<Node>, c: seq<Node>)
    requires AddsFolders(a, b) && AddsFolders(b, c)
    ensures AddsFolders(a, c)
  {
    assert c[..|a|] == c[..|b|][..|a|];
  }

  /**
   * One prefix on its own: the id the prefix ends up with (found, or a new
   * folder under `parentIds`) and the store after it.
   */
  function FolderStep(lookup: Lookup, files: seq<Node>, cp: string, name: string, parentIds: seq<Id>): (r: (Result<Id, Error>, seq<Node>))
    ensures r.0.Err? ==> r.1 == files
    ensures AddsFolders(files, r.1)
  {
    var item := lookup(files, cp);
    if item.Err? then (Err(item.error), files)
    else if item.value.None? then (Ok(FreshId(files)), Created(files, FolderMeta(name, parentIds), None))
    else (Ok(item.value.value.id), files)
  }

  /** The loop turn through `FolderStep`: stop on its error, otherwise carry on from its id and store. */
  lemma CreateDirsFromByStep(lookup: Lookup, files: seq<Node>, tokens: seq<string>, i: nat, currentPath: string, parentIds: seq<Id>, newId: Option<Id>)
    requires i < |tokens|
    ensures var cp := Join(currentPath, tokens[i]);
      var s := FolderStep(lookup, files, cp, tokens[i], parentIds);
      CreateDirsFrom(lookup, files, tokens, i, currentPath, parentIds, newId)
        == if s.0.Err? then (Err(s.0.error), files)
           else CreateDirsFrom(lookup, s.1, tokens, i + 1, cp, [s.0.value], Some(s.0.value))
  {
    CreateDirsFromStep(lookup, files, tokens, i, currentPath, parentIds, newId);
  }

  predicate NonEmptyIds(files: seq<Node>) {
    forall n :: n in files ==> n.id != ""
  }

  /** A single prefix keeps ids distinct and non-empty. */
  lemma FolderStepKeepsIds(lookup: Lookup, files: seq<Node>, cp: string, name: string, parentIds: seq<Id>)
    ensures var r := FolderStep(lookup, files, cp, name, parentIds).1;
      (UniqueIds(files) ==> UniqueIds(r)) && (NonEmptyIds(files) ==> NonEmptyIds(r))
  {
    var r := FolderStep(lookup, files, cp, name, parentIds).1;
    if r != files {
      assert r == Created(files, FolderMeta(name, parentIds), None);
      assert |FreshId(files)| > 0;
      assert forall n :: n in r ==> n in files || n == r[|files|];
    }
  }

  /**
   * Folder synthesis only appends, everything it appends is a folder, and the
   * new ids are non-empty and distinct from all others.
   */
  lemma {:induction false} CreateDirsOnlyAddsFolders(lookup: Lookup, files: seq<Node>, tokens: seq<string>, i: nat, currentPath: string, parentIds: seq<Id>, newId: Option<Id>)
    requires i <= |tokens|
    ensures var r := CreateDirsFrom(lookup, files, tokens, i, currentPath, parentIds, newId).1;
      |files| <= |r| && r[..|files|] == files && forall j :: |files| <= j < |r| ==> IsDirectory(r[j])
    ensures var r := CreateDirsFrom(lookup, files, tokens, i, currentPath, parentIds, newId).1;
      (UniqueIds(files) ==> UniqueIds(r)) && (NonEmptyIds(files) ==> NonEmptyIds(r))
    decreases |tokens| - i
  {
    if i < |tokens| {
      var cp := Join(currentPath, tokens[i]);
      var s := FolderStep(lookup, files, cp, tokens[i], parentIds);
      CreateDirsFromByStep(lookup, files, tokens, i, currentPath, parentIds, newId);
      if s.0.Ok? {
        FolderStepKeepsIds(lookup, files, cp, tokens[i], parentIds);
        CreateDirsOnlyAddsFolders(lookup, s.1, tokens, i + 1, cp, [s.0.value], Some(s.0.value));
        AddsFoldersTrans(files, s.1, CreateDirsFrom(lookup, s.1, tokens, i + 1, cp, [s.0.value], Some(s.0.value)).1);
      }
    }
  }

  /** The root path needs nothing: its one token resolves to the root id. */
  lemma CreateDirsRoot(files: seq<Node>, rootId: Id, legacy: bool)
    ensures CreateDirs(files, rootId, legacy, "/") == (Ok(rootId), files)
  {
    SplitRoot();
    RootPathIsRoot(files, rootId, legacy);
    assert Join("", "/") == "/";
    var L := LookupOf(rootId, legacy);
    assert L(files, "/") == Ok(Some(RootNode(rootId)));
    assert CreateDirsFrom(L, files, ["/"], 0, "", [rootId], None) == CreateDirsFrom(L, files, ["/"], 1, "/", [rootId], Some(rootId));
  }

  /** The empty path has no token, so `new_directory_id` is never bound and the call raises. */
  lemma CreateDirsEmptyRaises(files: seq<Node>, rootId: Id, legacy: bool)
    ensures CreateDirs(files, rootId, legacy, "").0.Err?
  {
    assert Split("") == ("", "");
  }

  predicate PlainSegments(segs: seq<string>) {
    forall i :: 0 <= i < |segs| ==> segs[i] != [] && NoSlash(segs[i])
  }

  /** Every prefix of the token list from i + 1 on already names a node. */
  predicate PrefixesResolve(lookup: Lookup, files: seq<Node>, tokens: seq<string>, i: nat)
    requires i <= |tokens|
  {
    forall j :: i < j <= |tokens| ==> lookup(files, JoinTokens(tokens[..j])).Ok? && lookup(files, JoinTokens(tokens[..j])).value.Some?
  }

  lemma {:induction false} CreateDirsFromExisting(lookup: Lookup, files: seq<Node>, tokens: seq<string>, i: nat, currentPath: string, parentIds: seq<Id>, newId: Option<Id>)
    requires i < |tokens| && currentPath == JoinTokens(tokens[..i])
    requires PrefixesResolve(lookup, files, tokens, i)
    ensures var last := lookup(files, JoinTokens(tokens));
      last.Ok? && last.value.Some? && CreateDirsFrom(lookup, files, tokens, i, currentPath, parentIds, newId) == (Ok(last.value.value.id), files)
    decreases |tokens| - i
  {
    var cp := Join(currentPath, tokens[i]);
    assert tokens[..i + 1][..i] == tokens[..i];
    assert cp == JoinTokens(tokens[..i + 1]);
    var item := lookup(files, cp);
    if i + 1 < |tokens| {
      CreateDirsFromExisting(lookup, files, tokens, i + 1, cp, [item.value.value.id], Some(item.value.value.id));
    } else {
      assert tokens[..i + 1] == tokens;
    }
  }

  /** When every prefix of the path already resolves, nothing is created and the whole path's id is returned. */
  lemma CreateDirsExisting(files: seq<Node>, rootId: Id, legacy: bool, path: string)
    requires SplitPathSpec(path) != []
    requires PrefixesResolve(LookupOf(rootId, legacy), files, SplitPathSpec(path), 0)
    ensures var item := ResolveItem(files, rootId, JoinTokens(SplitPathSpec(path)), legacy);
      item.Ok? && item.value.Some? && CreateDirs(files, rootId, legacy, path) == (Ok(item.value.value.id), files)
  {
    var L := LookupOf(rootId, legacy);
    var tokens := SplitPathSpec(path);
    CreateDirsFromExisting(L, files, tokens, 0, "", [rootId], None);
    assert L(files, JoinTokens(tokens)) == ResolveItem(files, rootId, JoinTokens(tokens), legacy);
  }

  /** After token i of "/s1/.../sn": the last id is the root's (i = 1) or ends a chain for s1..s(i-1). */
  ghost predicate Progress(files: seq<Node>, rootId: Id, segs: seq<string>, i: nat, parentIds: seq<Id>, newId: Option<Id>)
    requires 1 <= i <= |segs| + 1
  {
    && |parentIds| == 1 && newId == Some(parentIds[0])
    && (i == 1 ==> parentIds[0] == rootId)
    && (i >= 2 ==> exists n :: n in files && n.id == parentIds[0] && Reachable(files, {rootId}, segs[..i - 1], n))
  }

  lemma AbsoluteSnoc(segs: seq<string>, i: nat)
    requires 1 <= i <= |segs|
    ensures Join(Absolute(segs[..i - 1]), segs[i - 1]) == Absolute(segs[..i])
  {
    var ts := ["/"] + segs[..i];
    assert ts[..|ts| - 1] == ["/"] + segs[..i - 1];
  }

  /** The folder created for segment i ends a chain for s1..si. */
  lemma NewFolderChains(files: seq<Node>, rootId: Id, segs: seq<string>, i: nat, parentIds: seq<Id>, newId: Option<Id>)
    requires 1 <= i <= |segs|
    requires Progress(files, rootId, segs, i, parentIds, newId)
    ensures var grown := Created(files, FolderMeta(segs[i - 1], parentIds), None);
      Reachable(grown, {rootId}, segs[..i], grown[|files|])
  {
    var x := NewNode(FreshId(files), FolderMeta(segs[i - 1], parentIds), None);
    var grown := files + [x];
    assert grown[|files|] == x;
    assert x in grown;
    if i == 1 {
      assert segs[..1] == [segs[0]];
      assert rootId in x.parents.value;
      assert NodeStep(grown, {rootId}, segs[0], x);
    } else {
      var p :| p in files && p.id == parentIds[0] && Reachable(files, {rootId}, segs[..i - 1], p);
      ReachableGrows(files, x, {rootId}, segs[..i - 1], p);
      assert p.id in x.parents.value;
      assert NodeStep(grown, {p.id}, segs[i - 1], x);
      ReachableExtends(grown, {rootId}, segs[..i - 1], p, segs[i - 1], x);
      assert segs[..i - 1] + [segs[i - 1]] == segs[..i];
    }
  }

  lemma ProgressGrows(files: seq<Node>, x: Node, rootId: Id, segs: seq<string>, i: nat, parentIds: seq<Id>, newId: Option<Id>)
    requires 1 <= i <= |segs| + 1
    requires Progress(files, rootId, segs, i, parentIds, newId)
    ensures Progress(files + [x], rootId, segs, i, parentIds, newId)
  {
    if i >= 2 {
      var p :| p in files && p.id == parentIds[0] && Reachable(files, {rootId}, segs[..i - 1], p);
      ReachableGrows(files, x, {rootId}, segs[..i - 1], p);
      assert p in files + [x];
    }
  }

  /** One turn of the loop on "/s1/.../sn" when s1..si names nothing yet: folder si is created under the last id. */
  lemma ChainCreateStep(files: seq<Node>, rootId: Id, segs: seq<string>, i: nat, currentPath: string, parentIds: seq<Id>, newId: Option<Id>)
    requires PlainSegments(segs) && 1 <= i <= |segs|
    requires currentPath == Absolute(segs[..i - 1])
    requires Progress(files, rootId, segs, i, parentIds, newId)
    requires Resolve(files, rootId, SplitPathSpec(Absolute(segs[..i]))).NotFound?
    ensures var id := FreshId(files);
      var grown := Created(files, FolderMeta(segs[i - 1], parentIds), None);
      && Progress(grown, rootId, segs, i + 1, [id], Some(id))
      && CreateDirsFrom(LookupOf(rootId, false), files, ["/"] + segs, i, currentPath, parentIds, newId)
         == CreateDirsFrom(LookupOf(rootId, false), grown, ["/"] + segs, i + 1, Absolute(segs[..i]), [id], Some(id))
  {
    var L := LookupOf(rootId, false);
    var tokens := ["/"] + segs;
    assert tokens[i] == segs[i - 1];
    AbsoluteSnoc(segs, i);
    var cp := Absolute(segs[..i]);
    var grown := Created(files, FolderMeta(segs[i - 1], parentIds), None);
    NewFolderChains(files, rootId, segs, i, parentIds, newId);
    assert grown[|files|] in grown;
    assert L(files, cp) == Ok(None);
  }

  /** One turn of the loop on "/s1/.../sn" when s1..si already names a node: its first match becomes the last id. */
  lemma ChainFoundStep(files: seq<Node>, rootId: Id, segs: seq<string>, i: nat, currentPath: string, parentIds: seq<Id>, newId: Option<Id>) returns (m: Node)
    requires PlainSegments(segs) && 1 <= i <= |segs|
    requires currentPath == Absolute(segs[..i - 1])
    requires AgreesWithChains(files, {rootId}, segs[..i], Resolve(files, rootId, SplitPathSpec(Absolute(segs[..i]))))
    requires Resolve(files, rootId, SplitPathSpec(Absolute(segs[..i]))).Found?
    ensures m == Resolve(files, rootId, SplitPathSpec(Absolute(segs[..i]))).matches[0]
    ensures Progress(files, rootId, segs, i + 1, [m.id], Some(m.id))
    ensures CreateDirsFrom(LookupOf(rootId, false), files, ["/"] + segs, i, currentPath, parentIds, newId)
      == CreateDirsFrom(LookupOf(rootId, false), files, ["/"] + segs, i + 1, Absolute(segs[..i]), [m.id], Some(m.id))
  {
    var tokens := ["/"] + segs;
    assert tokens[i] == segs[i - 1];
    AbsoluteSnoc(segs, i);
    var cp := Absolute(segs[..i]);
    var res := Resolve(files, rootId, SplitPathSpec(cp));
    m := res.matches[0];
    assert m in res.matches;
    ReachableInStore(files, {rootId}, segs[..i], m);
    assert ResolveItem(files, rootId, cp, false) == Ok(Some(m));
    assert i + 1 - 1 == i;
  }

  /**
   * From token i of "/s1/.../sn" on, the first-match loop returns normally,
   * and its id ends a chain s1..sn under the root in the store it leaves.
   */
  lemma {:induction false} CreatedChainFrom(files: seq<Node>, rootId: Id, segs: seq<string>, i: nat, currentPath: string, parentIds: seq<Id>, newId: Option<Id>)
    requires PlainSegments(segs)
    requires 1 <= i <= |segs| + 1
    requires currentPath == Absolute(segs[..i - 1])
    requires Progress(files, rootId, segs, i, parentIds, newId)
    ensures var r := CreateDirsFrom(LookupOf(rootId, false), files, ["/"] + segs, i, currentPath, parentIds, newId);
      r.0.Ok? && (segs != [] ==> exists n :: n in r.1 && n.id == r.0.value && Reachable(r.1, {rootId}, segs, n))
    decreases |segs| + 1 - i
  {
    if i == |segs| + 1 {
      assert segs[..i - 1] == segs;
    } else {
      var grown, id := ChainNext(files, rootId, segs, i, currentPath, parentIds, newId);
      CreatedChainFrom(grown, rootId, segs, i + 1, Absolute(segs[..i]), [id], Some(id));
    }
  }

  /** One turn along a chain of plain segments: the prefix is found or created, and the progress moves on. */
  lemma ChainNext(files: seq<Node>, rootId: Id, segs: seq<string>, i: nat, currentPath: string, parentIds: seq<Id>, newId: Option<Id>)
    returns (grown: seq<Node>, id: Id)
    requires PlainSegments(segs)
    requires 1 <= i <= |segs|
    requires currentPath == Absolute(segs[..i - 1])
    requires Progress(files, rootId, segs, i, parentIds, newId)
    ensures Progress(grown, rootId, segs, i + 1, [id], Some(id))
    ensures CreateDirsFrom(LookupOf(rootId, false), files, ["/"] + segs, i, currentPath, parentIds, newId)
      == CreateDirsFrom(LookupOf(rootId, false), grown, ["/"] + segs, i + 1, Absolute(segs[..i]), [id], Some(id))
  {
    assert PlainSegments(segs[..i]);
    ResolveAbsolute(files, rootId, segs[..i]);
    if Resolve(files, rootId, SplitPathSpec(Absolute(segs[..i]))).NotFound? {
      ChainCreateStep(files, rootId, segs, i, currentPath, parentIds, newId);
      id := FreshId(files);
      grown := Created(files, FolderMeta(segs[i - 1], parentIds), None);
    } else {
      var m := ChainFoundStep(files, rootId, segs, i, currentPath, parentIds, newId);
      grown, id := files, m.id;
    }
  }

  /** The first token of "/s1/.../sn" is the root: the loop goes on from token 1 with the root id. */
  lemma StartAtRoot(files: seq<Node>, rootId: Id, segs: seq<string>)
    requires PlainSegments(segs)
    ensures Absolute(segs[..0]) == "/"
    ensures Progress(files, rootId, segs, 1, [rootId], Some(rootId))
    ensures CreateDirs(files, rootId, false, Absolute(segs))
      == CreateDirsFrom(LookupOf(rootId, false), files, ["/"] + segs, 1, "/", [rootId], Some(rootId))
  {
    SplitAbsolute(segs);
    assert Join("", "/") == "/";
    RootPathIsRoot(files, rootId, false);
    assert Absolute(segs[..0]) == "/" by {
      assert segs[..0] == [];
      assert (["/"] + [])[..0] == [];
    }
  }

  /**
   * With the first-match resolver, `create_directory_from_path("/s1/.../sn")`
   * returns the id of a node that ends a chain s1..sn under the root, so the
   * path resolves to a node afterwards.
   */
  lemma CreatedPathResolves(files: seq<Node>, rootId: Id, segs: seq<string>)
    requires segs != [] && PlainSegments(segs)
    ensures var r := CreateDirs(files, rootId, false, Absolute(segs));
      && r.0.Ok?
      && (exists n :: n in r.1 && n.id == r.0.value && Reachable(r.1, {rootId}, segs, n))
      && ResolveItem(r.1, rootId, Absolute(segs), false).Ok?
      && ResolveItem(r.1, rootId, Absolute(segs), false).value.Some?
  {
    StartAtRoot(files, rootId, segs);
    CreatedChainFrom(files, rootId, segs, 1, "/", [rootId], Some(rootId));
    var r := CreateDirs(files, rootId, false, Absolute(segs));
    ResolveAbsolute(r.1, rootId, segs);
  }

  // ---------------------------------------------------------------------------
  // Calling create_directory_from_path again
  // ---------------------------------------------------------------------------

  /** A chain for a path passes through a chain for each of the path's non-empty prefixes. */
  lemma {:induction false} ReachablePrefix(files: seq<Node>, P: set<Id>, names: seq<string>, n: Node, k: nat) returns (m: Node)
    requires Reachable(files, P, names, n) && 1 <= k <= |names|
    ensures Reachable(files, P, names[..k], m)
    decreases |names|
  {
    if k == |names| {
      assert names[..k] == names;
      m := n;
    } else {
      var m0 :| NodeStep(files, P, names[0], m0) && Reachable(files, {m0.id}, names[1..], n);
      if k == 1 {
        assert names[..1] == [names[0]];
        m := m0;
      } else {
        m := ReachablePrefix(files, {m0.id}, names[1..], n, k - 1);
        assert names[..k][0] == names[0] && names[..k][1..] == names[1..][..k - 1];
      }
    }
  }

  /** When no node names x's id as a parent, nothing but x itself is reached from x's id. */
  lemma {:induction false} NothingBelowNew(files: seq<Node>, x: Node, names: seq<string>, y: Node)
    requires forall n :: n in files && n.parents.Some? ==> x.id !in n.parents.value
    requires y != x
    ensures !Reachable(files + [x], {x.id}, names, y)
    decreases |names|
  {
    if names != [] {
      assert forall m :: NodeStep(files + [x], {x.id}, names[0], m) ==> m == x by {
        forall m | NodeStep(files + [x], {x.id}, names[0], m)
          ensures m == x
        {
          assert m in files || m == x;
        }
      }
      if |names| >= 2 && Reachable(files + [x], {x.id}, names, y) {
        NothingBelowNew(files, x, names[1..], y);
      }
    }
  }

  /** A chain in the grown store that ends elsewhere than at the new node x was there before, when no node names x's id as a parent. */
  lemma {:induction false} ReachableWithoutNew(files: seq<Node>, x: Node, P: set<Id>, names: seq<string>, y: Node)
    requires forall n :: n in files && n.parents.Some? ==> x.id !in n.parents.value
    requires y != x && Reachable(files + [x], P, names, y)
    ensures Reachable(files, P, names, y)
    decreases |names|
  {
    if |names| == 1 {
      assert y in files;
    } else {
      var m :| NodeStep(files + [x], P, names[0], m) && Reachable(files + [x], {m.id}, names[1..], y);
      if m == x {
        NothingBelowNew(files, x, names[1..], y);
      } else {
        assert m in files && NodeStep(files, P, names[0], m);
        ReachableWithoutNew(files, x, {m.id}, names[1..], y);
      }
    }
  }

  /** The last turn on "/s1/.../sn": found or created, the id it returns is the first match of the whole path in the store it leaves. */
  lemma LastStepIsFirstMatch(files: seq<Node>, rootId: Id, segs: seq<string>, currentPath: string, parentIds: seq<Id>, newId: Option<Id>)
    requires segs != [] && PlainSegments(segs)
    requires currentPath == Absolute(segs[..|segs| - 1])
    requires Progress(files, rootId, segs, |segs|, parentIds, newId)
    ensures var r := CreateDirsFrom(LookupOf(rootId, false), files, ["/"] + segs, |segs|, currentPath, parentIds, newId);
      var item := ResolveItem(r.1, rootId, Absolute(segs), false);
      r.0.Ok? && item.Ok? && item.value.Some? && item.value.value.id == r.0.value
  {
    var i := |segs|;
    assert segs[..i] == segs;
    ResolveAbsolute(files, rootId, segs);
    if Resolve(files, rootId, SplitPathSpec(Absolute(segs))).NotFound? {
      ChainCreateStep(files, rootId, segs, i, currentPath, parentIds, newId);
      NewFolderChains(files, rootId, segs, i, parentIds, newId);
      var x := NewNode(FreshId(files), FolderMeta(segs[i - 1], parentIds), None);
      var grown := files + [x];
      assert grown[|files|] == x;
      FreshIdNotAParent(files);
      ResolveAbsolute(grown, rootId, segs);
      var res := Resolve(grown, rootId, SplitPathSpec(Absolute(segs)));
      assert x in res.matches;
      var m := res.matches[0];
      assert m == x by {
        if m != x {
          assert m in res.matches;
          ReachableWithoutNew(files, x, {rootId}, segs, m);
        }
      }
      assert ResolveItem(grown, rootId, Absolute(segs), false) == Ok(Some(x));
    } else {
      var m := ChainFoundStep(files, rootId, segs, i, currentPath, parentIds, newId);
      assert ResolveItem(files, rootId, Absolute(segs), false) == Ok(Some(m));
    }
  }

  /** From token i on, the first-match loop returns the id of the whole path's first match in the store it leaves. */
  lemma {:induction false} CreatedIdFrom(files: seq<Node>, rootId: Id, segs: seq<string>, i: nat, currentPath: string, parentIds: seq<Id>, newId: Option<Id>)
    requires segs != [] && PlainSegments(segs)
    requires 1 <= i <= |segs|
    requires currentPath == Absolute(segs[..i - 1])
    requires Progress(files, rootId, segs, i, parentIds, newId)
    ensures var r := CreateDirsFrom(LookupOf(rootId, false), files, ["/"] + segs, i, currentPath, parentIds, newId);
      var item := ResolveItem(r.1, rootId, Absolute(segs), false);
      r.0.Ok? && item.Ok? && item.value.Some? && item.value.value.id == r.0.value
    decreases |segs| - i
  {
    if i == |segs| {
      LastStepIsFirstMatch(files, rootId, segs, currentPath, parentIds, newId);
    } else {
      var grown, id := ChainNext(files, rootId, segs, i, currentPath, parentIds, newId);
      CreatedIdFrom(grown, rootId, segs, i + 1, Absolute(segs[..i]), [id], Some(id));
    }
  }

  /** Once the whole path ends a chain, its prefix of j tokens resolves to a node. */
  lemma PrefixFromChain(files: seq<Node>, rootId: Id, segs: seq<string>, n: Node, j: nat)
    requires segs != [] && PlainSegments(segs)
    requires Reachable(files, {rootId}, segs, n)
    requires 0 < j <= |segs| + 1
    ensures var item := ResolveItem(files, rootId, JoinTokens((["/"] + segs)[..j]), false);
      item.Ok? && item.value.Some?
  {
    PrefixTokens(segs, j);
    if j == 1 {
      RootTokenResolves(files, rootId);
    } else {
      var m := ReachablePrefix(files, {rootId}, segs, n, j - 1);
      ChainResolves(files, rootId, segs[..j - 1], m);
    }
  }

  /** The first j tokens of "/s1/.../sn" are "/" and the first j - 1 segments, themselves plain. */
  lemma PrefixTokens(segs: seq<string>, j: nat)
    requires PlainSegments(segs) && 0 < j <= |segs| + 1
    ensures (["/"] + segs)[..j] == ["/"] + segs[..j - 1]
    ensures PlainSegments(segs[..j - 1])
  {
  }

  lemma RootTokenResolves(files: seq<Node>, rootId: Id)
    ensures ResolveItem(files, rootId, JoinTokens(["/"]), false) == Ok(Some(RootNode(rootId)))
  {
    assert JoinTokens(["/"]) == "/" by {
      assert ["/"][..0] == [];
    }
    RootPathIsRoot(files, rootId, false);
  }

  /** A path that ends a chain resolves to a node with the first-match resolver. */
  lemma ChainResolves(files: seq<Node>, rootId: Id, segs: seq<string>, m: Node)
    requires segs != [] && PlainSegments(segs)
    requires Reachable(files, {rootId}, segs, m)
    ensures var item := ResolveItem(files, rootId, Absolute(segs), false);
      item.Ok? && item.value.Some?
  {
    ResolveAbsolute(files, rootId, segs);
    assert m in Resolve(files, rootId, SplitPathSpec(Absolute(segs))).matches;
  }

  /** Once the whole path ends a chain, every prefix of it resolves to a node. */
  lemma PrefixesFromChain(files: seq<Node>, rootId: Id, segs: seq<string>, n: Node)
    requires segs != [] && PlainSegments(segs)
    requires Reachable(files, {rootId}, segs, n)
    ensures PrefixesResolve(LookupOf(rootId, false), files, ["/"] + segs, 0)
  {
    forall j | 0 < j <= |segs| + 1
      ensures var item := ResolveItem(files, rootId, JoinTokens((["/"] + segs)[..j]), false);
        item.Ok? && item.value.Some?
    {
      PrefixFromChain(files, rootId, segs, n, j);
    }
  }

  /**
   * With the first-match resolver, `create_directory_from_path("/s1/.../sn")`
   * leaves every prefix of the path resolvable, so calling it again creates
   * nothing and returns the same id.
   */
  lemma CreateDirsIdempotent(files: seq<Node>, rootId: Id, segs: seq<string>)
    requires segs != [] && PlainSegments(segs)
    ensures var r := CreateDirs(files, rootId, false, Absolute(segs));
      && r.0.Ok?
      && PrefixesResolve(LookupOf(rootId, false), r.1, SplitPathSpec(Absolute(segs)), 0)
      && CreateDirs(r.1, rootId, false, Absolute(segs)) == r
  {
    SplitAbsolute(segs);
    StartAtRoot(files, rootId, segs);
    CreatedIdFrom(files, rootId, segs, 1, "/", [rootId], Some(rootId));
    var r := CreateDirs(files, rootId, false, Absolute(segs));
    var n := ResolveItem(r.1, rootId, Absolute(segs), false).value.value;
    ResolveAbsolute(r.1, rootId, segs);
    assert n in Resolve(r.1, rootId, SplitPathSpec(Absolute(segs))).matches;
    PrefixesFromChain(r.1, rootId, segs, n);
    CreateDirsExisting(r.1, rootId, false, Absolute(segs));
  }

  // ---------------------------------------------------------------------------
  // googledrive_upload
  // ---------------------------------------------------------------------------

  /** The metadata dictionary of an upload, before any `parents` entry. */
  function UploadMetadata(writeAsGoogleDoc: bool, filename: string, guessed: Option<string>): (m: Metadata)
    ensures m.name == filename && m.parents.None?
    ensures m.mimeType == Some(SpreadsheetMime) <==> writeAsGoogleDoc && guessed == Some(CsvMime)
    ensures m.mimeType.None? || m.mimeType == Some(SpreadsheetMime)
  {
    var m := Metadata(filename, None, None);
    if writeAsGoogleDoc && guessed == Some(CsvMime) then m.(mimeType := Some(SpreadsheetMime)) else m
  }

  /** The media sent along: the guessed type, or the generic binary type when there is no guess. */
  function UploadMedia(guessed: Option<string>, size: nat): (m: Media)
    ensures guessed.None? ==> m.mimeType == BinaryStream
    ensures guessed.Some? ==> m.mimeType == guessed.value
    ensures m.size == size
  {
    Media(if guessed.None? then BinaryStream else guessed.value, size)
  }

  /** The id as it appears in the query text: a missing id renders as "None". */
  function RenderId(parentId: Option<Id>): Id {
    if parentId.None? then "None" else parentId.value
  }

  predicate Truthy(parentId: Option<Id>) {
    parentId.Some? && parentId.value != ""
  }

  function UploadQuery(filename: string, parentId: Option<Id>): Query {
    Query([RenderId(parentId)], Some(filename), None, Some(false))
  }

  /** An upload on a reliable remote: create when nothing of that name is under the parent, otherwise update the first match. */
  function UploadSpec(files: seq<Node>, writeAsGoogleDoc: bool, filename: string, guessed: Option<string>, size: nat, parentId: Option<Id>): (Result<(), Error>, seq<Node>) {
    var meta := UploadMetadata(writeAsGoogleDoc, filename, guessed);
    var media := UploadMedia(guessed, size);
    var existing := Listed(files, UploadQuery(filename, parentId));
    if existing == [] then
      (Ok(()), Created(files, if Truthy(parentId) then meta.(parents := Some([parentId.value])) else meta, Some(media)))
    else
      UpdateSpec(files, existing[0].id, meta, Some(media))
  }

  /**
   * The upload always succeeds on a reliable remote; it adds exactly one node
   * when no non-trashed node of that name sits under the parent, and otherwise
   * rewrites the first such node in place.
   */
  lemma UploadCreatesIffAbsent(files: seq<Node>, w: bool, filename: string, guessed: Option<string>, size: nat, parentId: Option<Id>)
    ensures var r := UploadSpec(files, w, filename, guessed, size, parentId);
      && r.0.Ok?
      && ((forall n :: n in files ==> !Matches(n, UploadQuery(filename, parentId))) <==> |r.1| == |files| + 1)
      && (|r.1| == |files| || |r.1| == |files| + 1)
  {
    var existing := Listed(files, UploadQuery(filename, parentId));
    if existing != [] {
      assert existing[0] in files;
      assert IndexOf(files, existing[0].id).Some?;
    }
  }

  /** Under a truthy parent id, what was uploaded is found by the same query afterwards. */
  lemma UploadedIsFound(files: seq<Node>, w: bool, filename: string, guessed: Option<string>, size: nat, parentId: Option<Id>)
    requires Truthy(parentId) && UniqueIds(files)
    ensures Listed(UploadSpec(files, w, filename, guessed, size, parentId).1, UploadQuery(filename, parentId)) != []
  {
    var q := UploadQuery(filename, parentId);
    var r := UploadSpec(files, w, filename, guessed, size, parentId).1;
    var existing := Listed(files, q);
    if existing == [] {
      var x := r[|files|];
      assert x in r;
      assert parentId.value in x.parents.value;
      assert Matches(x, q);
    } else {
      var n := existing[0];
      assert n in files;
      var i := IndexOf(files, n.id).value;
      assert r[i] in r;
      assert files[i] == n;
      assert r[i] == UpdatedNode(n, UploadMetadata(w, filename, guessed), Some(UploadMedia(guessed, size)));
      assert Matches(r[i], q);
    }
  }

  /** Uploading the same name twice under a truthy parent creates at most one node. */
  lemma UploadTwiceCreatesOnce(files: seq<Node>, w: bool, filename: string, guessed: Option<string>, s1: nat, s2: nat, parentId: Option<Id>)
    requires Truthy(parentId) && UniqueIds(files)
    ensures var once := UploadSpec(files, w, filename, guessed, s1, parentId).1;
      |UploadSpec(once, w, filename, guessed, s2, parentId).1| == |once|
  {
    var once := UploadSpec(files, w, filename, guessed, s1, parentId).1;
    UploadedIsFound(files, w, filename, guessed, s1, parentId);
    UploadCreatesIffAbsent(once, w, filename, guessed, s2, parentId);
    var e := Listed(once, UploadQuery(filename, parentId));
    assert e[0] in once;
  }

  /** A CSV written as a Google Sheet into an empty spot is stored without a size, so it later reports size 1. */
  lemma SheetReportsSizeOne(files: seq<Node>, filename: string, size: nat, parentId: Option<Id>)
    requires forall n :: n in files ==> !Matches(n, UploadQuery(filename, parentId))
    ensures var r := UploadSpec(files, true, filename, Some(CsvMime), size, parentId).1;
      |r| == |files| + 1 && r[|files|].mimeType == SpreadsheetMime && FileSize(r[|files|]) == 1
  {
    ListedNothing(files, UploadQuery(filename, parentId));
    var meta := UploadMetadata(true, filename, Some(CsvMime));
    var media := UploadMedia(Some(CsvMime), size);
    var meta' := if Truthy(parentId) then meta.(parents := Some([parentId.value])) else meta;
    assert meta'.mimeType == Some(SpreadsheetMime);
    SpreadsheetIsGoogleDoc();
    var n := NewNode(FreshId(files), meta', Some(media));
    assert n.mimeType == SpreadsheetMime && n.size.None?;
    assert UploadSpec(files, true, filename, Some(CsvMime), size, parentId).1 == files + [n];
  }

  lemma SpreadsheetIsGoogleDoc()
    ensures Contains(SpreadsheetMime, GoogleApps) && SpreadsheetMime != FolderMime
  {
    assert SpreadsheetMime == "application/vnd." + GoogleApps + ".spreadsheet";
    assert OccursAt(SpreadsheetMime, GoogleApps, 16);
  }
}
