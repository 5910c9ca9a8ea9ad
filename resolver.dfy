/**
 * Path-to-node resolution (`get_item_from_path`) on a reliable remote.
 *
 * The walk filters one path segment at a time: list the non-trashed nodes
 * with a parent in the candidate set whose name contains the segment, keep
 * those whose name starts with it, then those whose name equals it; the
 * deduplicated ids of what is left are the next candidate set.
 *
 * `Reachable` is an independent reading of what the walk finds: a chain of
 * non-trashed nodes, each named after its segment and each a child of the
 * previous one (the first a child of the root).
 */
module Resolver {
  import opened Wrappers
  import opened Nodes
  import opened Remote
  import opened Errors
  import opened Paths

  datatype Resolution = NotFound | Found(matches: seq<Node>) | Unbound

  /** The query of one step: parents among the candidates, name contains the segment, not trashed. */
  function StepQuery(parentIds: seq<Id>, token: string): Query {
    Query(parentIds, None, Some(token), Some(false))
  }

  /** One step: list, keep names starting with the segment, then keep names equal to it. */
  function StepMatches(files: seq<Node>, parentIds: seq<Id>, token: string): seq<Node> {
    KeepSpec(KeepSpec(Listed(files, StepQuery(parentIds, token)), None, Some(token)), Some(token), None)
  }

  /** The loop over the tokens; `last` stands for the Python variable `files` (unbound before the first step). */
  function Walk(files: seq<Node>, parentIds: seq<Id>, tokens: seq<string>, last: Resolution): (r: Resolution)
    ensures r.Found? ==> r == last || r.matches != []
    decreases |tokens|
  {
    if tokens == [] then last
    else if tokens[0] == "/" then Walk(files, parentIds, tokens[1..], last)
    else
      var ms := StepMatches(files, parentIds, tokens[0]);
      if ms == [] then NotFound
      else Walk(files, RemoveDuplicates(IdsOf(ms)), tokens[1..], Found(ms))
  }

  /** A single token resolves to the synthetic root without any call; otherwise walk from the root id. */
  function Resolve(files: seq<Node>, rootId: Id, tokens: seq<string>): (r: Resolution)
    ensures r.Found? ==> r.matches != []
  {
    if |tokens| == 1 then Found([RootNode(rootId)]) else Walk(files, [rootId], tokens, Unbound)
  }

  /**
   * What `get_item_from_path` returns: the first match, None, or (legacy
   * provider only) an error when the last step leaves several matches.
   */
  function ItemOf(res: Resolution, legacy: bool): (r: Result<Option<Node>, Error>)
    ensures res.NotFound? <==> r == Ok(None)
    ensures res.Found? && res.matches != [] && !legacy ==> r == Ok(Some(res.matches[0]))
    ensures res.Found? && legacy ==> (r == Err(Ambiguous) <==> |res.matches| > 1)
  {
    match res
    case NotFound => Ok(None)
    case Unbound => Err(Crash("UnboundLocalError: local variable 'files' referenced before assignment"))
    case Found(ms) =>
      if legacy && |ms| > 1 then Err(Ambiguous)
      else if ms == [] then Err(Crash("IndexError: list index out of range"))
      else Ok(Some(ms[0]))
  }

  function ResolveItem(files: seq<Node>, rootId: Id, path: string, legacy: bool): Result<Option<Node>, Error> {
    ItemOf(Resolve(files, rootId, SplitPathSpec(path)), legacy)
  }

  // ---------------------------------------------------------------------------
  // Special inputs
  // ---------------------------------------------------------------------------

  /** Any path split into a single token, "/" and bare names alike, is the synthetic root, in both variants. */
  lemma SingleTokenIsRoot(files: seq<Node>, rootId: Id, path: string, legacy: bool)
    requires |SplitPathSpec(path)| == 1
    ensures ResolveItem(files, rootId, path, legacy) == Ok(Some(RootNode(rootId)))
  {
  }

  lemma RootPathIsRoot(files: seq<Node>, rootId: Id, legacy: bool)
    ensures ResolveItem(files, rootId, "/", legacy) == Ok(Some(RootNode(rootId)))
  {
    SplitRoot();
  }

  /** The empty path splits into no tokens, so the loop never binds `files` and the lookup raises. */
  lemma EmptyPathRaises(files: seq<Node>, rootId: Id, legacy: bool)
    ensures ResolveItem(files, rootId, "", legacy).Err?
  {
    assert Split("") == ("", "");
  }

  // ---------------------------------------------------------------------------
  // What one step keeps
  // ---------------------------------------------------------------------------

  function ToSet(ids: seq<Id>): set<Id> {
    set p | p in ids
  }

  /** n is a non-trashed node named `name` with a parent in P. */
  ghost predicate NodeStep(files: seq<Node>, P: set<Id>, name: string, n: Node) {
    n in files && !n.trashed && n.name == name && n.parents.Some? && exists p :: p in n.parents.value && p in P
  }

  /** The prefix and exact-name filters together keep exactly the exact-name matches of the listing. */
  lemma StepMatchesExact(files: seq<Node>, parentIds: seq<Id>, token: string)
    ensures StepMatches(files, parentIds, token) == NamedExactly(Listed(files, StepQuery(parentIds, token)), token)
  {
    var l := Listed(files, StepQuery(parentIds, token));
    KeepByPrefix(l, token);
    KeepByName(NamedStartingWith(l, token), token);
    TwoPhaseFilter(l, token);
  }

  /** A step keeps exactly the non-trashed nodes of that name under one of the candidates. */
  lemma StepMatchesMembers(files: seq<Node>, parentIds: seq<Id>, token: string)
    ensures forall n :: n in StepMatches(files, parentIds, token) <==> NodeStep(files, ToSet(parentIds), token, n)
  {
    StepMatchesExact(files, parentIds, token);
    forall n: Node | n.name == token
      ensures Contains(n.name, token)
    {
      assert OccursAt(n.name, token, 0);
    }
  }

  /** The listing depends on the candidate ids only as a set. */
  lemma {:induction false} ListedSameParents(files: seq<Node>, q1: Query, q2: Query)
    requires ToSet(q1.parents) == ToSet(q2.parents)
    requires q1.name == q2.name && q1.nameContains == q2.nameContains && q1.trashed == q2.trashed
    ensures Listed(files, q1) == Listed(files, q2)
    decreases |files|
  {
    if files != [] {
      ListedSameParents(files[1..], q1, q2);
      var n := files[0];
      assert HasParentIn(n, q1.parents) <==> HasParentIn(n, q2.parents) by {
        assert forall p :: p in q1.parents <==> p in ToSet(q1.parents);
        assert forall p :: p in q2.parents <==> p in ToSet(q2.parents);
      }
    }
  }

  /** The ids `get_files_ids` returns walk on exactly as the deduplicated ids of the matches. */
  lemma WalkFromIds(files: seq<Node>, ids: seq<Id>, found: seq<Node>, tokens: seq<string>)
    requires forall id :: id in ids <==> exists f :: f in found && f.id == id
    ensures Walk(files, ids, tokens, Found(found)) == Walk(files, RemoveDuplicates(IdsOf(found)), tokens, Found(found))
  {
    IdsOfMembers(found);
    assert ToSet(ids) == ToSet(RemoveDuplicates(IdsOf(found)));
    WalkSameSet(files, ids, RemoveDuplicates(IdsOf(found)), tokens, Found(found));
  }

  /**
   * The walk depends on the candidate ids only as a set, so the order in which
   * `remove_duplicates` returns them does not matter.
   */
  lemma {:induction false} WalkSameSet(files: seq<Node>, p1: seq<Id>, p2: seq<Id>, tokens: seq<string>, last: Resolution)
    requires ToSet(p1) == ToSet(p2)
    ensures Walk(files, p1, tokens, last) == Walk(files, p2, tokens, last)
    decreases |tokens|
  {
    if tokens != [] {
      if tokens[0] == "/" {
        WalkSameSet(files, p1, p2, tokens[1..], last);
      } else {
        ListedSameParents(files, StepQuery(p1, tokens[0]), StepQuery(p2, tokens[0]));
      }
    }
  }

  // ---------------------------------------------------------------------------
  // Reachability
  // ---------------------------------------------------------------------------

  /** n ends a chain of nodes named `names`, the first of them under one of P. */
  ghost predicate Reachable(files: seq<Node>, P: set<Id>, names: seq<string>, n: Node)
    decreases |names|
  {
    if names == [] then false
    else if |names| == 1 then NodeStep(files, P, names[0], n)
    else exists m :: NodeStep(files, P, names[0], m) && Reachable(files, {m.id}, names[1..], n)
  }

  /** Reaching from a set of candidates is reaching from one of them. */
  lemma ReachableFromOne(files: seq<Node>, P: set<Id>, names: seq<string>, n: Node)
    requires names != []
    ensures Reachable(files, P, names, n) <==> exists s :: s in P && Reachable(files, {s}, names, n)
  {
    if |names| == 1 {
      if NodeStep(files, P, names[0], n) {
        var p :| p in n.parents.value && p in P;
        assert NodeStep(files, {p}, names[0], n);
      }
    } else {
      if Reachable(files, P, names, n) {
        var m :| NodeStep(files, P, names[0], m) && Reachable(files, {m.id}, names[1..], n);
        var p :| p in m.parents.value && p in P;
        assert NodeStep(files, {p}, names[0], m);
        assert Reachable(files, {p}, names, n);
      }
      if exists s :: s in P && Reachable(files, {s}, names, n) {
        var s :| s in P && Reachable(files, {s}, names, n);
        var m :| NodeStep(files, {s}, names[0], m) && Reachable(files, {m.id}, names[1..], n);
        assert NodeStep(files, P, names[0], m);
      }
    }
  }

  lemma IdsOfMembers(ms: seq<Node>)
    ensures forall s :: s in ToSet(RemoveDuplicates(IdsOf(ms))) <==> exists m :: m in ms && m.id == s
  {
    var ids := IdsOf(ms);
    forall s
      ensures s in ids <==> exists m :: m in ms && m.id == s
    {
      if s in ids {
        var k :| 0 <= k < |ids| && ids[k] == s;
        assert ms[k] in ms;
      }
      if exists m :: m in ms && m.id == s {
        var m :| m in ms && m.id == s;
        var k :| 0 <= k < |ms| && ms[k] == m;
        assert ids[k] == s;
      }
    }
  }

  predicate PlainNames(names: seq<string>) {
    forall i :: 0 <= i < |names| ==> names[i] != "/"
  }

  /** A step that keeps nothing leaves no chain through it. */
  lemma NoMatchNoChain(files: seq<Node>, parentIds: seq<Id>, names: seq<string>, n: Node)
    requires names != [] && StepMatches(files, parentIds, names[0]) == []
    ensures !Reachable(files, ToSet(parentIds), names, n)
  {
    StepMatchesMembers(files, parentIds, names[0]);
  }

  /** Chains from the ids a step keeps are the chains through that step. */
  lemma ChainThroughStep(files: seq<Node>, parentIds: seq<Id>, names: seq<string>, n: Node)
    requires |names| > 1
    ensures var ms := StepMatches(files, parentIds, names[0]);
      Reachable(files, ToSet(RemoveDuplicates(IdsOf(ms))), names[1..], n) <==> Reachable(files, ToSet(parentIds), names, n)
  {
    var P := ToSet(parentIds);
    var tok, rest := names[0], names[1..];
    var ms := StepMatches(files, parentIds, tok);
    var S := ToSet(RemoveDuplicates(IdsOf(ms)));
    StepMatchesMembers(files, parentIds, tok);
    IdsOfMembers(ms);
    ReachableFromOne(files, S, rest, n);
    if Reachable(files, S, rest, n) {
      var s :| s in S && Reachable(files, {s}, rest, n);
      var m :| m in ms && m.id == s;
      assert NodeStep(files, P, tok, m);
    }
    if Reachable(files, P, names, n) {
      var m :| NodeStep(files, P, tok, m) && Reachable(files, {m.id}, rest, n);
      assert m in ms;
      assert m.id in S;
    }
  }

  /**
   * The walk's result agrees with reachability: never unbound, the matches
   * are exactly the chain ends, and None exactly when there is no chain.
   */
  ghost predicate AgreesWithChains(files: seq<Node>, P: set<Id>, names: seq<string>, r: Resolution) {
    && (r.Found? || r.NotFound?)
    && (r.Found? ==> forall n :: n in r.matches <==> Reachable(files, P, names, n))
    && (r.NotFound? <==> forall n :: !Reachable(files, P, names, n))
  }

  lemma AgreementTransfers(files: seq<Node>, S: set<Id>, rest: seq<string>, P: set<Id>, names: seq<string>, r: Resolution)
    requires AgreesWithChains(files, S, rest, r)
    requires forall n :: Reachable(files, S, rest, n) <==> Reachable(files, P, names, n)
    ensures AgreesWithChains(files, P, names, r)
  {
  }

  /** Over plain names the walk agrees with reachability. */
  lemma {:induction false} WalkFindsReachable(files: seq<Node>, parentIds: seq<Id>, names: seq<string>, last: Resolution)
    requires names != [] && PlainNames(names)
    ensures AgreesWithChains(files, ToSet(parentIds), names, Walk(files, parentIds, names, last))
    decreases |names|
  {
    var ms := StepMatches(files, parentIds, names[0]);
    assert names[0] != "/";
    if ms == [] {
      assert Walk(files, parentIds, names, last) == NotFound;
      forall n
        ensures !Reachable(files, ToSet(parentIds), names, n)
      {
        NoMatchNoChain(files, parentIds, names, n);
      }
    } else if |names| == 1 {
      StepMatchesMembers(files, parentIds, names[0]);
      assert Walk(files, parentIds, names, last) == Found(ms);
      assert Reachable(files, ToSet(parentIds), names, ms[0]);
    } else {
      var rest := names[1..];
      var ids := RemoveDuplicates(IdsOf(ms));
      assert Walk(files, parentIds, names, last) == Walk(files, ids, rest, Found(ms));
      assert PlainNames(rest) by {
        forall i | 0 <= i < |rest| ensures rest[i] != "/" { assert rest[i] == names[i + 1]; }
      }
      WalkFindsReachable(files, ids, rest, Found(ms));
      forall n
        ensures Reachable(files, ToSet(ids), rest, n) <==> Reachable(files, ToSet(parentIds), names, n)
      {
        ChainThroughStep(files, parentIds, names, n);
      }
      AgreementTransfers(files, ToSet(ids), rest, ToSet(parentIds), names, Walk(files, ids, rest, Found(ms)));
    }
  }

  /**
   * An absolute path "/s1/.../sn" resolves to None exactly when no chain of
   * nodes named s1, ..., sn hangs under the root id; otherwise every match
   * ends such a chain and every such chain's end is a match.
   */
  lemma ResolveAbsolute(files: seq<Node>, rootId: Id, segs: seq<string>)
    requires segs != [] && forall i :: 0 <= i < |segs| ==> segs[i] != [] && NoSlash(segs[i])
    ensures AgreesWithChains(files, {rootId}, segs, Resolve(files, rootId, SplitPathSpec(Absolute(segs))))
  {
    SplitAbsolute(segs);
    var ts := ["/"] + segs;
    assert ts[1..] == segs;
    assert PlainNames(segs) by {
      forall i | 0 <= i < |segs| ensures segs[i] != "/" {
        assert segs[i][0] != '/' by { assert NoSlash(segs[i]); }
      }
    }
    assert ToSet([rootId]) == {rootId};
    WalkFindsReachable(files, [rootId], segs, Unbound);
  }

  /** `get_item_from_path("/s1/.../sn")` returns None exactly when no chain s1..sn hangs under the root id, in both variants. */
  lemma ResolveItemNoneIffNoChain(files: seq<Node>, rootId: Id, legacy: bool, segs: seq<string>)
    requires segs != [] && forall i :: 0 <= i < |segs| ==> segs[i] != [] && NoSlash(segs[i])
    ensures ResolveItem(files, rootId, Absolute(segs), legacy) == Ok(None) <==> forall n :: !Reachable(files, {rootId}, segs, n)
  {
    ResolveAbsolute(files, rootId, segs);
    var r := Resolve(files, rootId, SplitPathSpec(Absolute(segs)));
    assert ResolveItem(files, rootId, Absolute(segs), legacy) == ItemOf(r, legacy);
    if r.Found? {
      var m := r.matches[0];
      assert m in r.matches;
      assert Reachable(files, {rootId}, segs, m);
    } else {
      forall n
        ensures !Reachable(files, {rootId}, segs, n)
      {
      }
    }
  }

  lemma TwoMembers(ms: seq<Node>, a: Node, b: Node)
    requires a != b && a in ms && b in ms
    ensures |ms| > 1
  {
  }

  /** The legacy variant raises as soon as two different nodes end a chain for the path; the new one returns the first. */
  lemma LegacyRaisesOnTwoChains(files: seq<Node>, rootId: Id, segs: seq<string>, a: Node, b: Node)
    requires segs != [] && forall i :: 0 <= i < |segs| ==> segs[i] != [] && NoSlash(segs[i])
    requires a != b && Reachable(files, {rootId}, segs, a) && Reachable(files, {rootId}, segs, b)
    ensures ResolveItem(files, rootId, Absolute(segs), true) == Err(Ambiguous)
    ensures ResolveItem(files, rootId, Absolute(segs), false).Ok?
  {
    ResolveAbsolute(files, rootId, segs);
    var r := Resolve(files, rootId, SplitPathSpec(Absolute(segs)));
    assert !r.NotFound?;
    assert a in r.matches && b in r.matches;
    TwoMembers(r.matches, a, b);
    assert ResolveItem(files, rootId, Absolute(segs), true) == ItemOf(r, true);
  }

  // ---------------------------------------------------------------------------
  // Growing the store
  // ---------------------------------------------------------------------------

  /** A chain ends at a node of the store. */
  lemma {:induction false} ReachableInStore(files: seq<Node>, P: set<Id>, names: seq<string>, n: Node)
    requires Reachable(files, P, names, n)
    ensures n in files && !n.trashed
    decreases |names|
  {
    if |names| > 1 {
      var m :| NodeStep(files, P, names[0], m) && Reachable(files, {m.id}, names[1..], n);
      ReachableInStore(files, {m.id}, names[1..], n);
    }
  }

  /** A chain ends at a node carrying the chain's last name. */
  lemma {:induction false} ReachableEndsNamed(files: seq<Node>, P: set<Id>, names: seq<string>, n: Node)
    requires Reachable(files, P, names, n)
    ensures n.name == names[|names| - 1]
    decreases |names|
  {
    if |names| > 1 {
      var m :| NodeStep(files, P, names[0], m) && Reachable(files, {m.id}, names[1..], n);
      ReachableEndsNamed(files, {m.id}, names[1..], n);
    }
  }

  /** Adding a node keeps every chain. */
  lemma {:induction false} ReachableGrows(files: seq<Node>, x: Node, P: set<Id>, names: seq<string>, n: Node)
    requires Reachable(files, P, names, n)
    ensures Reachable(files + [x], P, names, n)
    decreases |names|
  {
    if |names| > 1 {
      var m :| NodeStep(files, P, names[0], m) && Reachable(files, {m.id}, names[1..], n);
      ReachableGrows(files, x, {m.id}, names[1..], n);
      assert NodeStep(files + [x], P, names[0], m);
    }
  }

  /** A chain ending at m extends by a node named `name` under m. */
  lemma {:induction false} ReachableExtends(files: seq<Node>, P: set<Id>, names: seq<string>, m: Node, name: string, n: Node)
    requires Reachable(files, P, names, m) && NodeStep(files, {m.id}, name, n)
    ensures Reachable(files, P, names + [name], n)
    decreases |names|
  {
    var ext := names + [name];
    assert ext[0] == names[0];
    if |names| == 1 {
      assert ext[1..] == [name];
    } else {
      var m' :| NodeStep(files, P, names[0], m') && Reachable(files, {m'.id}, names[1..], m);
      ReachableExtends(files, {m'.id}, names[1..], m, name, n);
      assert ext[1..] == names[1..] + [name];
    }
  }

  /** The node at index i after a rename that keeps its name; every other node as it was. */
  function AfterUpdate(files: seq<Node>, i: nat, meta: Metadata, media: Option<Media>, n: Node): Node
    requires i < |files|
  {
    if n == files[i] then Updated(files, i, meta, media)[i] else n
  }

  lemma NodeStepUpdated(files: seq<Node>, i: nat, meta: Metadata, media: Option<Media>, P: set<Id>, name: string, m: Node)
    requires i < |files| && meta.name == files[i].name
    requires NodeStep(files, P, name, m)
    ensures NodeStep(Updated(files, i, meta, media), P, name, AfterUpdate(files, i, meta, media, m))
    ensures AfterUpdate(files, i, meta, media, m).id == m.id
  {
    var u := Updated(files, i, meta, media);
    if m != files[i] {
      var j :| 0 <= j < |files| && files[j] == m;
      assert u[j] == m;
    } else {
      assert u[i] in u;
    }
  }

  /** An update that keeps the node's name keeps every chain (it never touches ids, parents or the trash flag). */
  lemma {:induction false} ReachableUpdated(files: seq<Node>, i: nat, meta: Metadata, media: Option<Media>, P: set<Id>, names: seq<string>, n: Node)
    requires i < |files| && meta.name == files[i].name
    requires Reachable(files, P, names, n)
    ensures Reachable(Updated(files, i, meta, media), P, names, AfterUpdate(files, i, meta, media, n))
    decreases |names|
  {
    if |names| == 1 {
      NodeStepUpdated(files, i, meta, media, P, names[0], n);
    } else {
      var m :| NodeStep(files, P, names[0], m) && Reachable(files, {m.id}, names[1..], n);
      ReachableUpdated(files, i, meta, media, {m.id}, names[1..], n);
      NodeStepUpdated(files, i, meta, media, P, names[0], m);
      var m' := AfterUpdate(files, i, meta, media, m);
      assert {m'.id} == {m.id};
    }
  }
}
