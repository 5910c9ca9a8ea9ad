/**
 * `GoogleDriveSession`: the object both providers resolve paths and change the
 * store through. Its remote operations are bounded retry loops over the
 * `Drive` client; each is proved equal to the pure function of the store and
 * the transport oracle that `Calls` defines, and the composite operations are
 * proved equal to the reliable-remote functions of `Resolver` and `Folders`
 * whenever they return normally.
 *
 * `legacy` selects the self-contained provider's behaviour, which raises when
 * the last step of a resolution leaves several nodes.
 */
module Session {
  import opened Wrappers
  import opened Nodes
  import opened Retry
  import opened Remote
  import opened Calls
  import opened Errors
  import opened Paths
  import opened Resolver
  import opened Folders

  /** What `sleep(5 + randrange(5))` may wait. */
  predicate ValidDelay(d: int) {
    5 <= d <= 9
  }

  /** Every delay of `now` from index i on is a valid one. */
  predicate ValidFrom(now: seq<int>, i: nat)
    decreases |now| - i
  {
    i >= |now| || (ValidDelay(now[i]) && ValidFrom(now, i + 1))
  }

  /** `now` is `before` followed by valid delays only. */
  predicate ExtendsByDelays(before: seq<int>, now: seq<int>) {
    before <= now && ValidFrom(now, |before|)
  }

  /** Validity from index i on is kept by a sequence that agrees from i on. */
  lemma {:induction false} ValidFromAgree(b: seq<int>, c: seq<int>, i: nat)
    requires ValidFrom(b, i) && i <= |b| <= |c| && c[..|b|] == b && ValidFrom(c, |b|)
    ensures ValidFrom(c, i)
    decreases |b| - i
  {
    if i < |b| {
      assert c[i] == c[..|b|][i];
      ValidFromAgree(b, c, i + 1);
    }
  }

  lemma ExtendsByDelaysTrans(a: seq<int>, b: seq<int>, c: seq<int>)
    requires ExtendsByDelays(a, b) && ExtendsByDelays(b, c)
    ensures ExtendsByDelays(a, c)
  {
    ValidFromAgree(b, c, |a|);
  }

  class GoogleDriveSession {
    const rootId: Id
    const writeAsGoogleDoc: bool
    const legacy: bool
    const drive: Drive
    const maxAttempts: nat := 5
    /** The delays slept so far, oldest first. */
    var slept: seq<int>

    constructor(drive: Drive, rootId: Id, writeAsGoogleDoc: bool, legacy: bool)
      ensures this.drive == drive && this.rootId == rootId
      ensures this.writeAsGoogleDoc == writeAsGoogleDoc && this.legacy == legacy
      ensures slept == []
    {
      this.drive := drive;
      this.rootId := rootId;
      this.writeAsGoogleDoc := writeAsGoogleDoc;
      this.legacy := legacy;
      slept := [];
    }

    /** The delays recorded before are kept, and every later one is a valid delay. */
    ghost predicate SleptSince(before: seq<int>)
      reads this
    {
      ExtendsByDelays(before, slept)
    }

    /** `handle_googledrive_errors`: sleep on a transient status, otherwise the error to raise. */
    method HandleErrors(status: int, reason: string, context: string) returns (raised: Option<Error>)
      modifies this
      ensures Transient(status) ==> raised.None? && |slept| == |old(slept)| + 1
      ensures !Transient(status) ==> raised == Some(Fatal(context, status, reason)) && slept == old(slept)
      ensures SleptSince(old(slept))
    {
      if Transient(status) {
        assert ValidDelay(5);
        var d :| ValidDelay(d);
        slept := slept + [d];
        raised := None;
      } else {
        raised := Some(Fatal(context, status, reason));
      }
    }

    /** `googledrive_list`. */
    method List(q: Query, text: string) returns (r: Result<seq<Node>, Error>)
      requires text == QueryText(q)
      modifies this, drive
      ensures drive.files == old(drive.files)
      ensures r == ListCall(old(drive.files), old(drive.pending), q, maxAttempts)
      ensures var v := RunRetry(old(drive.pending), maxAttempts);
        drive.pending == Drop(old(drive.pending), CallCount(v, maxAttempts))
        && |slept| == |old(slept)| + Sleeps(v, maxAttempts)
      ensures SleptSince(old(slept))
    {
      ghost var outs := drive.pending;
      var attempts := 0;
      while attempts < maxAttempts
        invariant attempts <= maxAttempts
        invariant drive.files == old(drive.files)
        invariant drive.pending == Drop(outs, attempts)
        invariant RetryFrom(outs, attempts, maxAttempts) == RunRetry(outs, maxAttempts)
        invariant |slept| == |old(slept)| + attempts && SleptSince(old(slept))
        decreases maxAttempts - attempts
      {
        var o, files := drive.List(q, text);
        DropDrop(outs, attempts, 1);
        if o.Success? {
          return Ok(files);
        }
        ghost var mid := slept;
        var raised := HandleErrors(o.status, o.reason, "list");
        ExtendsByDelaysTrans(old(slept), mid, slept);
        if raised.Some? {
          return Err(raised.value);
        }
        attempts := attempts + 1;
      }
      r := Err(RetryExhausted("list"));
    }

    /** `googledrive_create`: the new node's id. */
    method Create(meta: Metadata, media: Option<Media>) returns (r: Result<Id, Error>)
      modifies this, drive
      ensures (r, drive.files) == CreateCall(old(drive.files), old(drive.pending), meta, media, maxAttempts)
      ensures var v := RunRetry(old(drive.pending), maxAttempts);
        drive.pending == Drop(old(drive.pending), CallCount(v, maxAttempts))
        && |slept| == |old(slept)| + Sleeps(v, maxAttempts)
      ensures SleptSince(old(slept))
    {
      ghost var outs := drive.pending;
      var attempts := 0;
      while attempts < maxAttempts
        invariant attempts <= maxAttempts
        invariant drive.files == old(drive.files)
        invariant drive.pending == Drop(outs, attempts)
        invariant RetryFrom(outs, attempts, maxAttempts) == RunRetry(outs, maxAttempts)
        invariant |slept| == |old(slept)| + attempts && SleptSince(old(slept))
        decreases maxAttempts - attempts
      {
        var o, id := drive.Create(meta, media);
        DropDrop(outs, attempts, 1);
        if o.Success? {
          return Ok(id);
        }
        ghost var mid := slept;
        var raised := HandleErrors(o.status, o.reason, "create");
        ExtendsByDelaysTrans(old(slept), mid, slept);
        if raised.Some? {
          return Err(raised.value);
        }
        attempts := attempts + 1;
      }
      r := Err(RetryExhausted("create"));
    }

    /** `googledrive_update`. A missing id is the remote's 404, which is not retried. */
    method Update(id: Id, meta: Metadata, media: Option<Media>) returns (r: Result<(), Error>)
      modifies this, drive
      ensures (r, drive.files) == UpdateCall(old(drive.files), old(drive.pending), id, meta, media, maxAttempts)
      ensures var v := RunRetry(old(drive.pending), maxAttempts);
        drive.pending == Drop(old(drive.pending), CallCount(v, maxAttempts))
        && |slept| == |old(slept)| + Sleeps(v, maxAttempts)
      ensures SleptSince(old(slept))
    {
      ghost var outs := drive.pending;
      var attempts := 0;
      while attempts < maxAttempts
        invariant attempts <= maxAttempts
        invariant drive.files == old(drive.files)
        invariant drive.pending == Drop(outs, attempts)
        invariant RetryFrom(outs, attempts, maxAttempts) == RunRetry(outs, maxAttempts)
        invariant |slept| == |old(slept)| + attempts && SleptSince(old(slept))
        decreases maxAttempts - attempts
      {
        var o := drive.Update(id, meta, media);
        DropDrop(outs, attempts, 1);
        if o.Success? {
          return Ok(());
        }
        ghost var mid := slept;
        var raised := HandleErrors(o.status, o.reason, "update");
        ExtendsByDelaysTrans(old(slept), mid, slept);
        if raised.Some? {
          return Err(raised.value);
        }
        attempts := attempts + 1;
      }
      r := Err(RetryExhausted("update"));
    }

    /**
     * `googledrive_delete`, leaving the loop once a call succeeds (the loop
     * as written goes on calling; see `Calls.DeleteAsWritten`).
     */
    method Delete(item: Node, parentId: Option<Id>) returns (r: Result<(), Error>)
      modifies this, drive
      ensures var e := DeleteCall(old(drive.files), old(drive.pending), item, parentId, maxAttempts);
        r == e.result && drive.files == e.files && drive.pending == Drop(old(drive.pending), e.calls)
      ensures SleptSince(old(slept))
    {
      ghost var outs := drive.pending;
      ghost var files := drive.files;
      ghost var e := DeleteCall(files, outs, item, parentId, maxAttempts);
      var attempts := 0;
      while attempts < maxAttempts
        invariant attempts <= maxAttempts
        invariant drive.files == files
        invariant drive.pending == Drop(outs, attempts)
        invariant DeleteFrom(files, outs, attempts, maxAttempts, item, parentId, true) == e
        invariant SleptSince(old(slept))
        decreases maxAttempts - attempts
      {
        if item.parents.None? {
          return Err(Crash("KeyError: 'parents'"));
        }
        ghost var i := IndexOf(files, item.id);
        ghost var a := Answer(OutcomeAt(outs, attempts), i);
        var o;
        if FullDelete(item, parentId) {
          o := drive.Delete(item.id);
        } else {
          o := drive.RemoveParent(item.id, parentId.value);
        }
        assert o == a;
        DropDrop(outs, attempts, 1);
        if o.Success? {
          assert e == DeleteEnd(Ok(()), DeleteEffect(files, i.value, item, parentId), attempts + 1);
          return Ok(());
        }
        if o.status == 404 {
          assert e == DeleteEnd(Ok(()), files, attempts + 1);
          return Ok(());
        }
        DeleteFromOnError(files, outs, attempts, maxAttempts, item, parentId, true);
        ghost var mid := slept;
        var raised := HandleErrors(o.status, o.reason, "delete");
        ExtendsByDelaysTrans(old(slept), mid, slept);
        if raised.Some? {
          return Err(raised.value);
        }
        attempts := attempts + 1;
      }
      r := Err(RetryExhausted("delete"));
    }
      /** `directory`: the non-trashed children of the node. */
    method Directory(item: Node) returns (r: Result<seq<Node>, Error>)
      modifies this, drive
      ensures drive.files == old(drive.files)
      ensures r == ListCall(old(drive.files), old(drive.pending), Query([item.id], None, None, Some(false)), maxAttempts)
      ensures old(drive.pending) == [] ==> drive.pending == [] && r == Ok(Listed(old(drive.files), Query([item.id], None, None, Some(false))))
      ensures SleptSince(old(slept))
    {
      var q := Query([item.id], None, None, Some(false));
      var text := QueryParentsIn(q);
      ReliableSucceedsAtOnce(maxAttempts);
      r := List(q, text);
    }

    /** `get_item_from_path`: the walk from the root id, one listing per segment. */
    method GetItemFromPath(path: string) returns (r: Result<Option<Node>, Error>)
      modifies this, drive
      ensures drive.files == old(drive.files)
      ensures old(drive.pending) == [] ==> r == ResolveItem(old(drive.files), rootId, path, legacy) && drive.pending == []
      ensures r.Ok? ==> r == ResolveItem(old(drive.files), rootId, path, legacy)
      ensures r.Err? ==> r == ResolveItem(old(drive.files), rootId, path, legacy) || RemoteFailure(r.error, "list")
      ensures |SplitPathSpec(path)| == 1 ==> r == Ok(Some(RootNode(rootId))) && drive.pending == old(drive.pending)
      ensures SleptSince(old(slept))
    {
      var tokens := SplitPath(path);
      if |tokens| == 1 {
        SingleTokenIsRoot(drive.files, rootId, path, legacy);
        return Ok(Some(RootNode(rootId)));
      }
      ReliableSucceedsAtOnce(maxAttempts);
      ghost var files := drive.files;
      ghost var reliable := drive.pending == [];
      ghost var goal := Resolve(files, rootId, tokens);
      var parentIds := [rootId];
      var last: Resolution := Unbound;
      var i := 0;
      while i < |tokens|
        invariant i <= |tokens|
        invariant drive.files == files
        invariant reliable ==> drive.pending == []
        invariant Walk(files, parentIds, tokens[i..], last) == goal
        invariant SleptSince(old(slept))
        decreases |tokens| - i
      {
        var token := tokens[i];
        assert tokens[i..][1..] == tokens[i + 1..];
        if token != "/" {
          var q := StepQuery(parentIds, token);
          var text := QueryParentsIn(q);
          ghost var mid := slept;
          var listed := List(q, text);
          ExtendsByDelaysTrans(old(slept), mid, slept);
          if listed.Err? {
            return Err(listed.error);
          }
          var found := KeepFilesWith(listed.value, None, Some(token));
          found := KeepFilesWith(found, Some(token), None);
          if found == [] {
            return Ok(None);
          }
          var ids := GetFilesIds(found);
          WalkFromIds(files, ids, found, tokens[i + 1..]);
          parentIds := ids;
          last := Found(found);
        }
        i := i + 1;
      }
      r := ItemOf(last, legacy);
    }

    /** `create_directory`: a folder named `name` under the given parents; its id. */
    method CreateDirectory(name: string, parentIds: seq<Id>) returns (r: Result<Id, Error>)
      modifies this, drive
      ensures (r, drive.files) == CreateCall(old(drive.files), old(drive.pending), FolderMeta(name, parentIds), None, maxAttempts)
      ensures old(drive.pending) == [] ==> drive.pending == [] && r == Ok(FreshId(old(drive.files)))
      ensures SleptSince(old(slept))
    {
      ReliableSucceedsAtOnce(maxAttempts);
      r := Create(Metadata(name, Some(FolderMime), Some(parentIds)), None);
    }

    /**
     * One turn of `create_directory_from_path`: resolve the prefix `cp` and,
     * when nothing is there, create the folder `name` under `parentIds`.
     */
    method ResolveOrCreate(cp: string, name: string, parentIds: seq<Id>) returns (r: Result<Id, Error>)
      modifies this, drive
      ensures var spec := FolderStep(LookupOf(rootId, legacy), old(drive.files), cp, name, parentIds);
        && (old(drive.pending) == [] ==> (r, drive.files) == spec && drive.pending == [])
        && (r.Ok? ==> (r, drive.files) == spec)
        && (r.Err? ==> drive.files == old(drive.files))
        && (r.Err? ==> r == spec.0 || RemoteFailure(r.error, "list") || RemoteFailure(r.error, "create"))
      ensures SleptSince(old(slept))
    {
      ghost var before := drive.files;
      assert LookupOf(rootId, legacy)(before, cp) == ResolveItem(before, rootId, cp, legacy);
      var item := GetItemFromPath(cp);
      if item.Err? {
        return Err(item.error);
      }
      if item.value.None? {
        ghost var mid := slept;
        r := CreateDirectory(name, parentIds);
        ExtendsByDelaysTrans(old(slept), mid, slept);
      } else {
        r := Ok(item.value.value.id);
      }
    }

    /** `create_directory_from_path`: resolve every prefix, create each missing folder, return the last id. */
    method CreateDirectoryFromPath(path: string) returns (r: Result<Id, Error>)
      modifies this, drive
      ensures var spec := CreateDirs(old(drive.files), rootId, legacy, path);
        && (old(drive.pending) == [] ==> (r, drive.files) == spec && drive.pending == [])
        && (r.Ok? ==> (r, drive.files) == spec)
        && (r.Err? ==> (r, drive.files) == spec || RemoteFailure(r.error, "list") || RemoteFailure(r.error, "create"))
      ensures AddsFolders(old(drive.files), drive.files)
      ensures SleptSince(old(slept))
    {
      var tokens := SplitPath(path);
      r := CreateAlong(tokens);
    }

    /** The loop of `create_directory_from_path` over the tokens of the path. */
    method CreateAlong(tokens: seq<string>) returns (r: Result<Id, Error>)
      modifies this, drive
      ensures var spec := CreateDirsFrom(LookupOf(rootId, legacy), old(drive.files), tokens, 0, "", [rootId], None);
        && (old(drive.pending) == [] ==> (r, drive.files) == spec && drive.pending == [])
        && (r.Ok? ==> (r, drive.files) == spec)
        && (r.Err? ==> (r, drive.files) == spec || RemoteFailure(r.error, "list") || RemoteFailure(r.error, "create"))
      ensures AddsFolders(old(drive.files), drive.files)
      ensures SleptSince(old(slept))
    {
      ghost var F0 := drive.files;
      ghost var reliable := drive.pending == [];
      ghost var L := LookupOf(rootId, legacy);
      ghost var spec := CreateDirsFrom(L, F0, tokens, 0, "", [rootId], None);
      var parentIds := [rootId];
      var currentPath := "";
      var newId: Option<Id> := None;
      var i := 0;
      while i < |tokens|
        invariant i <= |tokens|
        invariant CreateDirsFrom(L, drive.files, tokens, i, currentPath, parentIds, newId) == spec
        invariant reliable ==> drive.pending == []
        invariant AddsFolders(F0, drive.files)
        invariant SleptSince(old(slept))
        decreases |tokens| - i
      {
        ghost var before := drive.files;
        CreateDirsFromByStep(L, before, tokens, i, currentPath, parentIds, newId);
        currentPath := Join(currentPath, tokens[i]);
        ghost var mid := slept;
        var id := ResolveOrCreate(currentPath, tokens[i], parentIds);
        ExtendsByDelaysTrans(old(slept), mid, slept);
        if id.Err? {
          return Err(id.error);
        }
        AddsFoldersTrans(F0, before, drive.files);
        newId := Some(id.value);
        parentIds := [id.value];
        i := i + 1;
      }
      if newId.None? {
        return Err(Crash("UnboundLocalError: local variable 'new_directory_id' referenced before assignment"));
      }
      r := Ok(newId.value);
    }

    /**
     * `googledrive_upload`, with the guessed media type as an input: create
     * the file under the parent when no non-trashed node of that name is
     * there, otherwise update the first one.
     */
    method Upload(filename: string, guessed: Option<string>, size: nat, parentId: Option<Id>) returns (r: Result<(), Error>)
      modifies this, drive
      ensures var spec := UploadSpec(old(drive.files), writeAsGoogleDoc, filename, guessed, size, parentId);
        && (old(drive.pending) == [] ==> (r, drive.files) == spec && drive.pending == [])
        && (r.Ok? ==> (r, drive.files) == spec)
        && (r.Err? ==> drive.files == old(drive.files))
        && (r.Err? ==> RemoteFailure(r.error, "list") || RemoteFailure(r.error, "create") || RemoteFailure(r.error, "update"))
      ensures SleptSince(old(slept))
    {
      ReliableSucceedsAtOnce(maxAttempts);
      var meta := Metadata(filename, None, None);
      if writeAsGoogleDoc && guessed == Some(CsvMime) {
        meta := meta.(mimeType := Some(SpreadsheetMime));
      }
      var mediaType := if guessed.None? then BinaryStream else guessed.value;
      var media := Media(mediaType, size);
      assert meta == UploadMetadata(writeAsGoogleDoc, filename, guessed) && media == UploadMedia(guessed, size);
      var q := Query([if parentId.None? then "None" else parentId.value], Some(filename), None, Some(false));
      assert q == UploadQuery(filename, parentId);
      var text := QueryParentsIn(q);
      ghost var mid := slept;
      var existing := List(q, text);
      ExtendsByDelaysTrans(old(slept), mid, slept);
      if existing.Err? {
        return Err(existing.error);
      }
      mid := slept;
      r := CreateOrUpdate(filename, guessed, size, parentId, existing.value, meta, media);
      ExtendsByDelaysTrans(old(slept), mid, slept);
    }

    /** The second half of `googledrive_upload`: create the file when the listing came back empty, otherwise update its first node. */
    method CreateOrUpdate(filename: string, guessed: Option<string>, size: nat, parentId: Option<Id>, existing: seq<Node>, meta: Metadata, media: Media)
      returns (r: Result<(), Error>)
      requires existing == Listed(drive.files, UploadQuery(filename, parentId))
      requires meta == UploadMetadata(writeAsGoogleDoc, filename, guessed) && media == UploadMedia(guessed, size)
      modifies this, drive
      ensures var spec := UploadSpec(old(drive.files), writeAsGoogleDoc, filename, guessed, size, parentId);
        && (old(drive.pending) == [] ==> (r, drive.files) == spec && drive.pending == [])
        && (r.Ok? ==> (r, drive.files) == spec)
        && (r.Err? ==> drive.files == old(drive.files))
        && (r.Err? ==> RemoteFailure(r.error, "create") || RemoteFailure(r.error, "update"))
      ensures SleptSince(old(slept))
    {
      ReliableSucceedsAtOnce(maxAttempts);
      ghost var files := drive.files;
      var meta := meta;
      if existing == [] {
        if parentId.Some? && parentId.value != "" {
          meta := meta.(parents := Some([parentId.value]));
        }
        var created := Create(meta, Some(media));
        if created.Err? {
          return Err(created.error);
        }
        r := Ok(());
      } else {
        var first := existing[0];
        assert first in files;
        assert IndexOf(files, first.id).Some?;
        r := Update(first.id, meta, Some(media));
      }
    }
  }
}
