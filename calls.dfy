/**
 * The four retrying remote operations of the session, as pure functions of the
 * store and the transport oracle: `googledrive_list`, `googledrive_create`,
 * `googledrive_update` and `googledrive_delete`.
 *
 * `googledrive_delete` does not leave its loop after a successful call; the
 * as-written loop is `DeleteAsWritten`, the intended one (leave on success) is
 * `DeleteCall`, and the rest of the model uses the latter.
 */
module Calls {
  import opened Wrappers
  import opened Nodes
  import opened Retry
  import opened Remote
  import opened Errors

  /** An error that a retry loop of operation `op` raises on its own: a non-transient status or a spent budget. */
  predicate RemoteFailure(e: Error, op: string) {
    e == RetryExhausted(op) || (e.Fatal? && e.context == op && !Transient(e.status))
  }

  /** The error a retry loop of `op` raises when it ends with verdict `v` without succeeding. */
  function LoopError(v: Verdict, op: string): Error
    requires !v.Succeeded?
  {
    if v.Failed? then Fatal(op, v.status, v.reason) else RetryExhausted(op)
  }

  lemma LoopErrorIsRemoteFailure(outs: seq<Outcome>, max: nat, op: string)
    requires !RunRetry(outs, max).Succeeded?
    ensures RemoteFailure(LoopError(RunRetry(outs, max), op), op)
  {
    RetryFromCharacterised(outs, 0, max);
  }

  // ---------------------------------------------------------------------------
  // list / create / update
  // ---------------------------------------------------------------------------

  /** `googledrive_list`: the listing when some attempt succeeds, the loop's error otherwise. */
  function ListCall(files: seq<Node>, pending: seq<Outcome>, q: Query, max: nat): (r: Result<seq<Node>, Error>)
    ensures r.Ok? <==> RunRetry(pending, max).Succeeded?
    ensures r.Ok? ==> r.value == Listed(files, q)
    ensures r.Err? ==> RemoteFailure(r.error, "list")
  {
    var v := RunRetry(pending, max);
    if v.Succeeded? then Ok(Listed(files, q))
    else
      LoopErrorIsRemoteFailure(pending, max, "list");
      Err(LoopError(v, "list"))
  }

  /** `googledrive_create`: the new node's id and the grown store, or the loop's error and the store untouched. */
  function CreateCall(files: seq<Node>, pending: seq<Outcome>, meta: Metadata, media: Option<Media>, max: nat): (r: (Result<Id, Error>, seq<Node>))
    ensures r.0.Ok? <==> RunRetry(pending, max).Succeeded?
    ensures r.0.Ok? ==> r.0.value == FreshId(files) && r.1 == Created(files, meta, media)
    ensures r.0.Err? ==> RemoteFailure(r.0.error, "create") && r.1 == files
  {
    var v := RunRetry(pending, max);
    if v.Succeeded? then (Ok(FreshId(files)), Created(files, meta, media))
    else
      LoopErrorIsRemoteFailure(pending, max, "create");
      (Err(LoopError(v, "create")), files)
  }

  /** One update on a reliable remote: the node rewritten, or a fatal 404 when the id is gone. */
  function UpdateSpec(files: seq<Node>, id: Id, meta: Metadata, media: Option<Media>): (r: (Result<(), Error>, seq<Node>))
    ensures r.0.Ok? <==> IndexOf(files, id).Some?
    ensures r.0.Ok? ==> r.1 == Updated(files, IndexOf(files, id).value, meta, media)
    ensures r.0.Err? ==> r.0.error == Fatal("update", 404, "notFound") && r.1 == files
  {
    var i := IndexOf(files, id);
    if i.Some? then (Ok(()), Updated(files, i.value, meta, media))
    else (Err(Fatal("update", NotFound.status, NotFound.reason)), files)
  }

  /** `googledrive_update`: the reliable-remote result once an attempt gets through, the loop's error otherwise. */
  function UpdateCall(files: seq<Node>, pending: seq<Outcome>, id: Id, meta: Metadata, media: Option<Media>, max: nat): (r: (Result<(), Error>, seq<Node>))
    ensures RunRetry(pending, max).Succeeded? ==> r == UpdateSpec(files, id, meta, media)
    ensures !RunRetry(pending, max).Succeeded? ==> r.0.Err? && RemoteFailure(r.0.error, "update") && r.1 == files
  {
    var v := RunRetry(pending, max);
    if v.Succeeded? then UpdateSpec(files, id, meta, media)
    else
      LoopErrorIsRemoteFailure(pending, max, "update");
      (Err(LoopError(v, "update")), files)
  }

  // ---------------------------------------------------------------------------
  // delete
  // ---------------------------------------------------------------------------

  /** How a delete loop ends: the result, the store, and the number of remote calls. */
  datatype DeleteEnd = DeleteEnd(result: Result<(), Error>, files: seq<Node>, calls: nat)

  /** A full delete when the listed node has exactly one parent or no parent id is given; otherwise an unlink. */
  predicate FullDelete(item: Node, parentId: Option<Id>)
    requires item.parents.Some?
  {
    |item.parents.value| == 1 || parentId.None?
  }

  /** The store after the one call of a delete that reaches the node at index i. */
  function DeleteEffect(files: seq<Node>, i: nat, item: Node, parentId: Option<Id>): seq<Node>
    requires i < |files| && item.parents.Some?
  {
    if FullDelete(item, parentId) then Removed(files, i) else Unlinked(files, i, parentId.value)
  }

  /**
   * The delete loop from attempt k on. A 404 ends it normally, a transient
   * status goes round again, any other status raises. With `leaveOnSuccess`
   * a successful call ends it; without, the loop goes on calling.
   */
  function DeleteFrom(files: seq<Node>, pending: seq<Outcome>, k: nat, max: nat, item: Node, parentId: Option<Id>, leaveOnSuccess: bool): (r: DeleteEnd)
    ensures r.calls <= max || (k > max && r.calls == k)
    decreases max - k
  {
    if k >= max then DeleteEnd(Err(RetryExhausted("delete")), files, k)
    else if item.parents.None? then DeleteEnd(Err(Crash("KeyError: 'parents'")), files, k)
    else
      var i := IndexOf(files, item.id);
      match Answer(OutcomeAt(pending, k), i)
      case HttpError(s, reason) =>
        if s == 404 then DeleteEnd(Ok(()), files, k + 1)
        else if Transient(s) then DeleteFrom(files, pending, k + 1, max, item, parentId, leaveOnSuccess)
        else DeleteEnd(Err(Fatal("delete", s, reason)), files, k + 1)
      case Success =>
        var after := DeleteEffect(files, i.value, item, parentId);
        if leaveOnSuccess then DeleteEnd(Ok(()), after, k + 1)
        else DeleteFrom(after, pending, k + 1, max, item, parentId, leaveOnSuccess)
  }

  /** A turn of the delete loop that meets an error other than 404: retry on a transient status, raise otherwise. */
  lemma DeleteFromOnError(files: seq<Node>, pending: seq<Outcome>, k: nat, max: nat, item: Node, parentId: Option<Id>, leaveOnSuccess: bool)
    requires k < max && item.parents.Some?
    requires Answer(OutcomeAt(pending, k), IndexOf(files, item.id)).HttpError?
    requires Answer(OutcomeAt(pending, k), IndexOf(files, item.id)).status != 404
    ensures var a := Answer(OutcomeAt(pending, k), IndexOf(files, item.id));
      DeleteFrom(files, pending, k, max, item, parentId, leaveOnSuccess)
      == if Transient(a.status) then DeleteFrom(files, pending, k + 1, max, item, parentId, leaveOnSuccess)
         else DeleteEnd(Err(Fatal("delete", a.status, a.reason)), files, k + 1)
  {
  }

  /** `googledrive_delete` as written: a successful call does not leave the loop. */
  function DeleteAsWritten(files: seq<Node>, pending: seq<Outcome>, item: Node, parentId: Option<Id>, max: nat): (r: DeleteEnd)
    ensures r.calls <= max
  {
    DeleteFrom(files, pending, 0, max, item, parentId, false)
  }

  /** `googledrive_delete` as intended: leave the loop once the call succeeds. */
  function DeleteCall(files: seq<Node>, pending: seq<Outcome>, item: Node, parentId: Option<Id>, max: nat): (r: DeleteEnd)
    ensures r.calls <= max
  {
    DeleteFrom(files, pending, 0, max, item, parentId, true)
  }

  /** One delete on a reliable remote: the node removed or unlinked, nothing when it is already gone. */
  function DeleteSpec(files: seq<Node>, item: Node, parentId: Option<Id>): (r: (Result<(), Error>, seq<Node>))
    ensures item.parents.None? ==> r.0.Err? && r.1 == files
    ensures item.parents.Some? ==> r.0.Ok?
    ensures IndexOf(files, item.id).None? ==> r.1 == files
    ensures item.parents.Some? && IndexOf(files, item.id).Some? && FullDelete(item, parentId) && UniqueIds(files) ==>
      |r.1| == |files| - 1 && forall n :: n in r.1 <==> n in files && n.id != item.id
    ensures item.parents.Some? && IndexOf(files, item.id).Some? && !FullDelete(item, parentId) ==>
      var i := IndexOf(files, item.id).value;
      && |r.1| == |files| && r.1[i].id == item.id && r.1[i].name == files[i].name
      && (files[i].parents.Some? ==> r.1[i].parents.Some? && forall x :: x in r.1[i].parents.value <==> x in files[i].parents.value && x != parentId.value)
      && forall j :: 0 <= j < |files| && j != i ==> r.1[j] == files[j]
  {
    if item.parents.None? then (Err(Crash("KeyError: 'parents'")), files)
    else
      var i := IndexOf(files, item.id);
      if i.Some? then (Ok(()), DeleteEffect(files, i.value, item, parentId)) else (Ok(()), files)
  }

  /** On a reliable remote the intended loop does exactly one delete and makes one call. */
  lemma DeleteCallReliable(files: seq<Node>, item: Node, parentId: Option<Id>, max: nat)
    requires max > 0 && item.parents.Some?
    ensures DeleteCall(files, [], item, parentId, max) == DeleteEnd(DeleteSpec(files, item, parentId).0, DeleteSpec(files, item, parentId).1, 1)
  {
  }

  /** Whatever the oracle, the intended loop either does the reliable-remote delete or raises a loop error with the store untouched. */
  lemma {:induction false} DeleteCallOutcome(files: seq<Node>, pending: seq<Outcome>, k: nat, max: nat, item: Node, parentId: Option<Id>)
    requires item.parents.Some? && k <= max
    ensures var r := DeleteFrom(files, pending, k, max, item, parentId, true);
      (r.result.Ok? && r.files == DeleteSpec(files, item, parentId).1)
      || (r.result.Ok? && r.files == files)
      || (r.result.Err? && RemoteFailure(r.result.error, "delete") && r.files == files)
    decreases max - k
  {
    if k < max {
      var i := IndexOf(files, item.id);
      var a := Answer(OutcomeAt(pending, k), i);
      if a.HttpError? && a.status != 404 && Transient(a.status) {
        DeleteCallOutcome(files, pending, k + 1, max, item, parentId);
      }
    }
  }

  /** Stores that agree on every id agree on where an id sits. */
  lemma {:induction false} IndexOfSameIds(a: seq<Node>, b: seq<Node>, id: Id)
    requires |a| == |b| && forall j :: 0 <= j < |a| ==> a[j].id == b[j].id
    ensures IndexOf(a, id) == IndexOf(b, id)
    decreases |a|
  {
    if a != [] {
      IndexOfSameIds(a[1..], b[1..], id);
    }
  }

  /** Once the unlink has been done, every further as-written turn succeeds and changes nothing, until the budget runs out. */
  lemma {:induction false} UnlinkLoopRuns(files: seq<Node>, i: nat, k: nat, max: nat, item: Node, p: Id)
    requires item.parents.Some? && |item.parents.value| != 1
    requires IndexOf(files, item.id) == Some(i)
    requires Unlinked(files, i, p) == files
    requires k <= max
    ensures DeleteFrom(files, [], k, max, item, Some(p), false) == DeleteEnd(Err(RetryExhausted("delete")), files, max)
    decreases max - k
  {
    if k < max {
      UnlinkLoopRuns(files, i, k + 1, max, item, p);
    }
  }

  /**
   * The as-written loop unlinks a node with several parents on the first call,
   * then keeps unlinking (each call succeeds) until the attempts run out and
   * raises "Max number of attempts reached", although the unlink was done.
   */
  lemma UnlinkAsWrittenExhausts(files: seq<Node>, item: Node, p: Id)
    requires item.parents.Some? && |item.parents.value| >= 2
    requires IndexOf(files, item.id).Some?
    ensures var i := IndexOf(files, item.id).value;
      DeleteAsWritten(files, [], item, Some(p), 5) == DeleteEnd(Err(RetryExhausted("delete")), Unlinked(files, i, p), 5)
  {
    var i := IndexOf(files, item.id).value;
    var after := Unlinked(files, i, p);
    IndexOfSameIds(after, files, item.id);
    UnlinkedIdempotent(files, i, p);
    UnlinkLoopRuns(after, i, 1, 5, item, p);
  }

  /** The as-written full delete only ends because the second call finds the node gone and gets a 404. */
  lemma FullDeleteAsWrittenEndsOn404(files: seq<Node>, item: Node, parentId: Option<Id>)
    requires UniqueIds(files)
    requires item.parents.Some? && FullDelete(item, parentId)
    requires IndexOf(files, item.id).Some?
    ensures DeleteAsWritten(files, [], item, parentId, 5) == DeleteEnd(Ok(()), Removed(files, IndexOf(files, item.id).value), 2)
  {
    var i := IndexOf(files, item.id).value;
    assert files[i] in files;
    assert IndexOf(Removed(files, i), item.id).None?;
  }

  /** The intended loop, on the same input, unlinks once and returns normally. */
  lemma UnlinkCorrectedSucceeds(files: seq<Node>, item: Node, p: Id)
    requires item.parents.Some? && |item.parents.value| >= 2
    requires IndexOf(files, item.id).Some?
    ensures DeleteCall(files, [], item, Some(p), 5) == DeleteEnd(Ok(()), Unlinked(files, IndexOf(files, item.id).value, p), 1)
  {
  }
}
