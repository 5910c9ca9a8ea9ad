/**
 * The remote store the provider talks to, reduced to what the provider
 * observes: an ordered list of nodes (the order `files().list` returns them
 * in) and an oracle of transport outcomes, one per remote call.
 *
 * The pure functions say what one successful call does to the list; the
 * `Drive` class is the client object whose calls consume the oracle.
 */
module Remote {
  import opened Wrappers
  import opened Nodes
  import opened Retry

  /** The parent a node created without a `parents` entry is placed under. */
  const MyDrive := "root"

  /** The answer of a call on an id the store does not hold. */
  const NotFound := HttpError(404, "notFound")

  /** The metadata dictionary a create or update sends. */
  datatype Metadata = Metadata(name: string, mimeType: Option<string>, parents: Option<seq<Id>>)

  /** The uploaded content: the media type it is sent with and its length. */
  datatype Media = Media(mimeType: string, size: nat)

  predicate UniqueIds(files: seq<Node>) {
    forall i, j :: 0 <= i < j < |files| ==> files[i].id != files[j].id
  }

  // ---------------------------------------------------------------------------
  // Listing
  // ---------------------------------------------------------------------------

  predicate HasParentIn(n: Node, ids: seq<Id>) {
    n.parents.Some? && exists p :: p in n.parents.value && p in ids
  }

  /** What the query text asks for: a parent among the ids, then the optional filters. */
  predicate Matches(n: Node, q: Query) {
    && HasParentIn(n, q.parents)
    && (q.trashed.None? || n.trashed == q.trashed.value)
    && (q.name.None? || n.name == q.name.value)
    && (q.nameContains.None? || Contains(n.name, q.nameContains.value))
  }

  /** A list call: the matching nodes in store order. */
  function Listed(files: seq<Node>, q: Query): (r: seq<Node>)
    ensures forall n :: n in r <==> n in files && Matches(n, q)
    ensures |r| <= |files|
  {
    if files == [] then []
    else (if Matches(files[0], q) then [files[0]] else []) + Listed(files[1..], q)
  }

  lemma ListedNothing(files: seq<Node>, q: Query)
    requires forall n :: n in files ==> !Matches(n, q)
    ensures Listed(files, q) == []
  {
  }

  // ---------------------------------------------------------------------------
  // Mutations
  // ---------------------------------------------------------------------------

  function MaxLength(ids: seq<Id>): (r: nat)
    ensures forall p :: p in ids ==> |p| <= r
  {
    if ids == [] then 0
    else
      var rest := MaxLength(ids[1..]);
      assert forall p :: p in ids ==> p == ids[0] || p in ids[1..];
      if |ids[0]| > rest then |ids[0]| else rest
  }

  /** The longest id the store holds or names as a parent. */
  function MaxIdLength(files: seq<Node>): (r: nat)
    ensures forall n :: n in files ==> |n.id| <= r
  {
    if files == [] then 0
    else
      var rest := MaxIdLength(files[1..]);
      var own := if files[0].parents.Some? then MaxLength(files[0].parents.value) else 0;
      var here := if |files[0].id| > own then |files[0].id| else own;
      assert forall n :: n in files ==> n == files[0] || n in files[1..];
      if here > rest then here else rest
  }

  /** The id the store gives a new node: longer than every id it already holds or names as a parent. */
  function FreshId(files: seq<Node>): (r: Id)
    ensures forall n :: n in files ==> n.id != r
  {
    seq(MaxIdLength(files) + 1, _ => 'x')
  }

  lemma {:induction false} MaxIdLengthCoversParents(files: seq<Node>)
    ensures forall n, p :: n in files && n.parents.Some? && p in n.parents.value ==> |p| <= MaxIdLength(files)
  {
    if files != [] {
      MaxIdLengthCoversParents(files[1..]);
      assert forall n :: n in files ==> n == files[0] || n in files[1..];
    }
  }

  /** No node of the store names the fresh id as a parent. */
  lemma FreshIdNotAParent(files: seq<Node>)
    ensures forall n :: n in files && n.parents.Some? ==> FreshId(files) !in n.parents.value
  {
    MaxIdLengthCoversParents(files);
  }

  /** The store keeps sizes for uploaded content, but not for native Google documents or folders. */
  function StoredSize(mimeType: string, media: Option<Media>): Option<nat> {
    if media.Some? && !Contains(mimeType, GoogleApps) then Some(media.value.size) else None
  }

  function NewNode(id: Id, meta: Metadata, media: Option<Media>): Node {
    var mime :=
      if meta.mimeType.Some? then meta.mimeType.value
      else if media.Some? then media.value.mimeType
      else BinaryStream;
    Node(id, meta.name, mime, StoredSize(mime, media),
         if meta.parents.Some? then meta.parents else Some([MyDrive]), false, None)
  }

  /** A successful create appends the new node under a fresh id. */
  function Created(files: seq<Node>, meta: Metadata, media: Option<Media>): (r: seq<Node>)
    ensures UniqueIds(files) ==> UniqueIds(r)
    ensures |r| == |files| + 1
    ensures r[..|files|] == files && r[|files|].id == FreshId(files) && r[|files|].name == meta.name
  {
    files + [NewNode(FreshId(files), meta, media)]
  }

  /** Where the node with this id sits, if anywhere. */
  function IndexOf(files: seq<Node>, id: Id): (r: Option<nat>)
    ensures r.Some? ==> r.value < |files| && files[r.value].id == id
    ensures r.None? <==> forall n :: n in files ==> n.id != id
  {
    if files == [] then None
    else if files[0].id == id then Some(0)
    else
      var rest := IndexOf(files[1..], id);
      assert forall n :: n in files ==> n == files[0] || n in files[1..];
      if rest.Some? then Some(rest.value + 1) else None
  }

  function UpdatedNode(n: Node, meta: Metadata, media: Option<Media>): Node {
    var mime := if meta.mimeType.Some? then meta.mimeType.value else n.mimeType;
    n.(name := meta.name, mimeType := mime,
       size := if media.Some? then StoredSize(mime, media) else n.size)
  }

  /** A successful update rewrites the node in place: same id, same parents, same position. */
  function Updated(files: seq<Node>, i: nat, meta: Metadata, media: Option<Media>): (r: seq<Node>)
    requires i < |files|
    ensures |r| == |files| && r[i].id == files[i].id && r[i].parents == files[i].parents
    ensures forall j :: 0 <= j < |files| && j != i ==> r[j] == files[j]
    ensures UniqueIds(files) ==> UniqueIds(r)
  {
    files[i := UpdatedNode(files[i], meta, media)]
  }

  /** A successful delete drops the node. */
  function Removed(files: seq<Node>, i: nat): (r: seq<Node>)
    requires i < |files|
    ensures |r| == |files| - 1
    ensures UniqueIds(files) ==> forall n :: n in r <==> n in files && n.id != files[i].id
  {
    files[..i] + files[i + 1..]
  }

  /** The parent list without `p`. */
  function Without(ps: seq<Id>, p: Id): (r: seq<Id>)
    ensures forall x :: x in r <==> x in ps && x != p
  {
    if ps == [] then []
    else (if ps[0] == p then [] else [ps[0]]) + Without(ps[1..], p)
  }

  /** A successful `removeParents` drops one parent of the node and changes nothing else. */
  function Unlinked(files: seq<Node>, i: nat, p: Id): (r: seq<Node>)
    requires i < |files|
    ensures |r| == |files| && r[i].id == files[i].id && r[i].name == files[i].name
    ensures files[i].parents.Some? ==> r[i].parents.Some? && forall x :: x in r[i].parents.value <==> x in files[i].parents.value && x != p
    ensures forall j :: 0 <= j < |files| && j != i ==> r[j] == files[j]
  {
    var n := files[i];
    files[i := n.(parents := if n.parents.Some? then Some(Without(n.parents.value, p)) else None)]
  }

  lemma {:induction false} WithoutIdempotent(ps: seq<Id>, p: Id)
    ensures Without(Without(ps, p), p) == Without(ps, p)
    decreases |ps|
  {
    if ps != [] {
      WithoutIdempotent(ps[1..], p);
      var w := Without(ps[1..], p);
      if ps[0] != p {
        assert ([ps[0]] + w)[0] == ps[0];
        assert ([ps[0]] + w)[1..] == w;
      } else {
        assert [] + w == w;
      }
    }
  }

  /** Removing a parent that is already gone changes nothing. */
  lemma UnlinkedIdempotent(files: seq<Node>, i: nat, p: Id)
    requires i < |files|
    ensures Unlinked(Unlinked(files, i, p), i, p) == Unlinked(files, i, p)
  {
    if files[i].parents.Some? {
      WithoutIdempotent(files[i].parents.value, p);
    }
  }

  lemma UnlinkedKeepsUnique(files: seq<Node>, i: nat, p: Id)
    requires i < |files| && UniqueIds(files)
    ensures UniqueIds(Unlinked(files, i, p))
  {
  }

  lemma RemovedKeepsUnique(files: seq<Node>, i: nat)
    requires i < |files| && UniqueIds(files)
    ensures UniqueIds(Removed(files, i))
  {
    var r := Removed(files, i);
    forall a, b | 0 <= a < b < |r|
      ensures r[a].id != r[b].id
    {
      var a', b' := if a < i then a else a + 1, if b < i then b else b + 1;
      assert r[a] == files[a'] && r[b] == files[b'];
    }
  }

  // ---------------------------------------------------------------------------
  // The client
  // ---------------------------------------------------------------------------

  /**
   * The answer to one call on the node with index `found`: the transport
   * outcome if that is an error, otherwise success if the node exists and 404
   * if it does not.
   */
  function Answer(transport: Outcome, found: Option<nat>): Outcome {
    if transport.HttpError? then transport else if found.Some? then Success else NotFound
  }

  /**
   * The Drive client. `files` is the store; `pending` is the oracle of
   * transport outcomes, one consumed per call (an empty oracle answers
   * every call successfully).
   */
  class Drive {
    var files: seq<Node>
    var pending: seq<Outcome>

    constructor(files: seq<Node>, pending: seq<Outcome>)
      ensures this.files == files && this.pending == pending
    {
      this.files := files;
      this.pending := pending;
    }

    /** Consume the transport outcome of one call. */
    method Transport() returns (o: Outcome)
      modifies this
      ensures o == OutcomeAt(old(pending), 0) && pending == Drop(old(pending), 1)
      ensures files == old(files)
    {
      o := OutcomeAt(pending, 0);
      pending := Drop(pending, 1);
    }

    /** `files().list(q=...)`: the store answers the query that the text spells. */
    method List(q: Query, text: string) returns (o: Outcome, r: seq<Node>)
      requires text == QueryText(q)
      modifies this
      ensures o == OutcomeAt(old(pending), 0) && pending == Drop(old(pending), 1)
      ensures files == old(files)
      ensures o.Success? ==> r == Listed(files, q)
    {
      o := Transport();
      r := if o.Success? then Listed(files, q) else [];
    }

    /** `files().create(body=..., media_body=...)`. */
    method Create(meta: Metadata, media: Option<Media>) returns (o: Outcome, id: Id)
      modifies this
      ensures o == OutcomeAt(old(pending), 0) && pending == Drop(old(pending), 1)
      ensures o.Success? ==> id == FreshId(old(files)) && files == Created(old(files), meta, media)
      ensures o.HttpError? ==> files == old(files)
    {
      o := Transport();
      id := FreshId(files);
      if o.Success? {
        files := Created(files, meta, media);
      }
    }

    /** `files().update(fileId=..., body=..., media_body=...)`. */
    method Update(id: Id, meta: Metadata, media: Option<Media>) returns (o: Outcome)
      modifies this
      ensures pending == Drop(old(pending), 1)
      ensures o == Answer(OutcomeAt(old(pending), 0), IndexOf(old(files), id))
      ensures o.Success? ==> files == Updated(old(files), IndexOf(old(files), id).value, meta, media)
      ensures o.HttpError? ==> files == old(files)
    {
      var t := Transport();
      var i := IndexOf(files, id);
      o := Answer(t, i);
      if o.Success? {
        files := Updated(files, i.value, meta, media);
      }
    }

    /** `files().delete(fileId=...)`. */
    method Delete(id: Id) returns (o: Outcome)
      modifies this
      ensures pending == Drop(old(pending), 1)
      ensures o == Answer(OutcomeAt(old(pending), 0), IndexOf(old(files), id))
      ensures o.Success? ==> files == Removed(old(files), IndexOf(old(files), id).value)
      ensures o.HttpError? ==> files == old(files)
    {
      var t := Transport();
      var i := IndexOf(files, id);
      o := Answer(t, i);
      if o.Success? {
        files := Removed(files, i.value);
      }
    }

    /** `files().update(fileId=..., removeParents=...)`. */
    method RemoveParent(id: Id, parent: Id) returns (o: Outcome)
      modifies this
      ensures pending == Drop(old(pending), 1)
      ensures o == Answer(OutcomeAt(old(pending), 0), IndexOf(old(files), id))
      ensures o.Success? ==> files == Unlinked(old(files), IndexOf(old(files), id).value, parent)
      ensures o.HttpError? ==> files == old(files)
    {
      var t := Transport();
      var i := IndexOf(files, id);
      o := Answer(t, i);
      if o.Success? {
        files := Unlinked(files, i.value, parent);
      }
    }
  }
}
