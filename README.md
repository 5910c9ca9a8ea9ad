# Google Drive file-system provider: path resolution, modelled in Dafny

This project models the core of a Google Drive file-system provider: how a
slash-separated path becomes a node of the drive, and what the provider's
operations do with it. Two variants of the provider exist side by side, a
newer one built on a shared session object and an older self-contained one;
one model covers both, and a `legacy` flag selects the older behaviour where
they differ (the ambiguous-match error, the missing root guard on delete,
the "no directory" upload mode).

The drive is a store of nodes (`Remote.Node`: id, name, MIME type, optional
size, optional parent list, trashed flag, optional modification time) held
by a `Drive` object whose `files` field the create, update, delete and
unlink calls change in place. Every remote call also consumes one answer of
an oracle `pending` (a transport outcome: success or an HTTP status); an
empty oracle answers every call successfully, so `old(drive.pending) == []`
means "the remote is reliable".

The modules follow the program:

- `Paths`: `split_path`, `os.path.split`/`join`, `strip('/')`, and the
  provider's relative, normalised, root and full paths.
- `Nodes`: node predicates, sizes, dates, query text and the name filters.
- `Retry`, `Calls`: the five-attempt retry loop shared by list, create,
  update and delete, as functions of the oracle.
- `Remote`: the store and the `Drive` client class.
- `Resolver`: the path walk of `get_item_from_path` and its
  characterisation by chains of exactly named, non-trashed nodes hanging
  under the root id.
- `Folders`: `create_directory_from_path` and the upload decision.
- `Walker`: the recursive listing.
- `Operations`: the reliable-remote meaning of stat, browse, enumerate,
  delete and write.
- `Session`, `Provider`: the session and provider classes.

Each class method is proved against a function of those modules. On a
reliable remote it returns exactly what the function says, and leaves the
store as the function says. Whenever it returns normally, its answer is the
function's. When it raises, the error is the function's error or a failure
of one of the remote calls.

The helper module shows only `split_path` and `is_directory`. The other
helpers the session imports (`query_parents_in`, `keep_files_with`,
`get_files_ids`, `file_size`, `format_date`, …) are modelled after the
same-named methods of the self-contained provider
(python-fs-providers/googledrive_googledrive/fs-provider.py).

Where the code does other than its own comments say, the model follows the
code:

- The docstring of `enumerate`
  (python-fs-providers/googledrive-googledrive/fs-provider.py:139-140) says
  that with `first_non_empty` it stops at the first non-empty file. The
  recursive listing stops only the loop of the
  folder where a file is found. Entries already collected from earlier
  sub-folders are kept, so the result can hold more than one entry
  (`Walker.FirstWalkKeepsEarlierEntries`).
- The newer lookup returns the first match of an ambiguous path. The older
  one raises instead (`Resolver.LegacyRaisesOnTwoChains`).

Source paths in the table below are relative to the repository root.

## Model

| member | source | states |
|---|---|---|
| Retry.RetryFromCharacterised | python-lib/dku_googledrive/session.py:96-107 | A retry loop succeeds at call c exactly when attempt c-1 succeeds after transient failures only; it fails at call c exactly when attempt c-1 is a non-transient status after transient ones; it runs out exactly when every attempt within the budget fails transiently (403, 500, 503). |
| Retry.RetryBounded | python-lib/dku_googledrive/session.py:97-105 | A loop never makes more than `max_attempts` calls, and it sleeps once per failed call before the one that ends it. |
| Retry.ReliableSucceedsAtOnce | python-lib/dku_googledrive/session.py:98-102 | On a remote that answers every call, a loop returns after its first call. |
| Retry.FatalFirstFailsAtOnce | python-lib/dku_googledrive/session.py:221-228 | A non-transient status on the first attempt ends the loop after that one call, whatever the remote would answer next. |
| Retry.UnavailableExhausts | python-lib/dku_googledrive/session.py:47 | A remote that answers 503 five times in a row spends the whole budget of 5 attempts. |
| Calls.LoopErrorIsRemoteFailure | python-lib/dku_googledrive/session.py:221-228 | A loop that does not succeed raises either "Googledrive <op> error : <reason>" for a non-transient status or "Max number of attempts reached …", both tagged with its operation. |
| Calls.ListCall | python-lib/dku_googledrive/session.py:96-107 | `googledrive_list` returns the listing exactly when some attempt gets through; the listing is the store's answer to the query; otherwise it raises a loop error of "list". |
| Calls.CreateCall | python-lib/dku_googledrive/session.py:135-149 | `googledrive_create` returns the id of the one node it appends exactly when some attempt gets through; otherwise it raises a loop error of "create" and the store is untouched. |
| Calls.UpdateSpec | python-lib/dku_googledrive/session.py:188-198 | On a reliable remote an update succeeds exactly when the id is in the store, rewrites that node in place, and otherwise fails with a 404 leaving the store as it was. |
| Calls.UpdateCall | python-lib/dku_googledrive/session.py:188-203 | `googledrive_update` behaves as the reliable-remote update once an attempt gets through, and otherwise raises a loop error of "update" with the store untouched. |
| Calls.DeleteFrom | python-lib/dku_googledrive/session.py:205-219 | The delete loop never makes more calls than its budget. |
| Calls.DeleteFromOnError | python-lib/dku_googledrive/session.py:213-216 | A turn of the delete loop that sees a status other than 404 goes round again on a transient status and raises on any other. |
| Calls.DeleteAsWritten | python-lib/dku_googledrive/session.py:205-219 | `googledrive_delete` as written (a successful call stays in the loop) makes at most `max_attempts` calls. |
| Calls.DeleteCall | python-lib/dku_googledrive/session.py:205-219 | `googledrive_delete` as intended (leave on success) makes at most `max_attempts` calls. |
| Calls.DeleteSpec | python-lib/dku_googledrive/session.py:209-212 | One delete on a reliable remote: a node without a `parents` key raises; otherwise it returns normally. A node the store no longer holds leaves the store unchanged. A full delete (one parent, or no `parent_id`) drops exactly the node of that id. Otherwise only that node changes, losing `parent_id` from its parents and keeping its id and name. |
| Calls.DeleteCallReliable | python-lib/dku_googledrive/session.py:209-215 | On a reliable remote the intended delete makes exactly one call and does the full delete or the unlink that `DeleteSpec` describes. |
| Calls.DeleteCallOutcome | python-lib/dku_googledrive/session.py:205-219 | Whatever the remote answers, the intended delete ends in one of three ways: it does the reliable-remote delete; it returns normally with the store unchanged (the node was already gone, 404); or it raises a loop error of "delete" with the store untouched. |
| Calls.UnlinkLoopRuns | python-lib/dku_googledrive/session.py:207-219 | Once the unlink is done, every further as-written turn succeeds without changing anything until the budget runs out. |
| Calls.UnlinkAsWrittenExhausts | python-lib/dku_googledrive/session.py:207-219 | As written, unlinking a node with two or more parents on a reliable remote keeps calling and raises "Max number of attempts reached" after 5 calls, although the unlink was done on the first one. |
| Calls.FullDeleteAsWrittenEndsOn404 | python-lib/dku_googledrive/session.py:207-215 | As written, a full delete only ends because the second call finds the node gone and gets a 404: two calls, the node removed. |
| Calls.UnlinkCorrectedSucceeds | python-lib/dku_googledrive/session.py:205-219 | The intended loop unlinks the same node with one call and returns normally. |
| Nodes.FileIffNotDirectory | python-fs-providers/googledrive_googledrive/fs-provider.py:178-182 | `is_file` is exactly the negation of `is_directory`. |
| Nodes.FolderIsGoogleDoc | python-fs-providers/googledrive_googledrive/fs-provider.py:418-419 | `is_file_google_doc` is a substring test on "google-apps", so it holds for every folder too. |
| Nodes.FileSize | python-fs-providers/googledrive_googledrive/fs-provider.py:166-173 | `file_size` is 0 for a folder whatever size it declares, the declared size for a file that has one, and 1 for a file without a size. |
| Nodes.ZeroSizeMeansFolderOrEmpty | python-fs-providers/googledrive_googledrive/fs-provider.py:166-173 | A reported size of 0 only ever comes from a folder or from a file that declares size 0. |
| Nodes.FormatDate | python-fs-providers/googledrive_googledrive/fs-provider.py:107-111 | For a time given to the millisecond, as the store reports it: the result is a multiple of 1000; it is the whole epoch seconds times 1000 from the epoch on and for any time with no fraction; before the epoch a non-zero fraction rounds the seconds toward zero, as Python's `int` does. |
| Nodes.LastModified | python-fs-providers/googledrive_googledrive/fs-provider.py:102-105 | `get_last_modified` is None exactly when `modifiedTime` is absent, and otherwise a multiple of 1000. |
| Nodes.SubSecondDropped | python-fs-providers/googledrive_googledrive/fs-provider.py:109-111 | From the epoch on, two times that differ only in their milliseconds give the same value. |
| Nodes.FormatDateKnownValues | python-fs-providers/googledrive_googledrive/fs-provider.py:107-111 | The epoch gives 0 and 2019-01-01T00:00:00 gives 1546300800000, whatever the milliseconds. |
| Nodes.OrdinalMonthStep | python-fs-providers/googledrive_googledrive/fs-provider.py:109-110 | The day count used for `utc_time - datetime(1970, 1, 1)` has no gap between the last day of a month and the first day of the next. |
| Nodes.QueryParentsIn | python-fs-providers/googledrive_googledrive/fs-provider.py:225-241 | `query_parents_in` yields "(" + the "'id' in parents" clauses joined by " or " + ")", then the trashed, name and name-contains filters in that order, each only when given. |
| Nodes.ParentClausesSnoc | python-fs-providers/googledrive_googledrive/fs-provider.py:228-233 | One turn of the flag loop adds the next parent clause, preceded by " or " except for the first. |
| Nodes.QueryTextSingleParent | python-fs-providers/googledrive_googledrive/fs-provider.py:225-241 | A one-parent query without filters is "('id' in parents)". |
| Nodes.KeepFilesWith | python-fs-providers/googledrive_googledrive/fs-provider.py:214-223 | `keep_files_with` appends each item once per filter it passes, in item order. |
| Nodes.NamedExactly | python-fs-providers/googledrive_googledrive/fs-provider.py:220-222 | The items kept by the exact-name filter are exactly the items of that name. |
| Nodes.NamedStartingWith | python-fs-providers/googledrive_googledrive/fs-provider.py:217-219 | The items kept by the prefix filter are exactly the items whose name starts with the prefix. |
| Nodes.KeepByName | python-fs-providers/googledrive_googledrive/fs-provider.py:214-223 | With only `name`, `keep_files_with` keeps exactly the items of that name, in their original order. |
| Nodes.KeepByPrefix | python-fs-providers/googledrive_googledrive/fs-provider.py:214-223 | With only `name_starting_with`, `keep_files_with` keeps exactly the items starting with it, in their original order. |
| Nodes.TwoPhaseFilter | python-fs-providers/googledrive_googledrive/fs-provider.py:197-198 | The resolver's prefix filter followed by its exact-name filter keeps exactly the exact-name matches. |
| Nodes.IdsOf | python-fs-providers/googledrive_googledrive/fs-provider.py:243-246 | The ids collected by the append loop, one per item, position by position. |
| Nodes.RemoveDuplicates | python-fs-providers/googledrive_googledrive/fs-provider.py:249-250 | `remove_duplicates` returns a list without duplicates holding exactly the ids of its input. |
| Nodes.GetFilesIds | python-fs-providers/googledrive_googledrive/fs-provider.py:243-247 | `get_files_ids` returns a duplicate-free list whose members are exactly the ids of the given items. |
| Remote.Listed | python-lib/dku_googledrive/session.py:100-101 | A list call returns the nodes of the store that match the query, and no more of them than the store holds. |
| Remote.ListedNothing | python-lib/dku_googledrive/session.py:100-101 | A query no node matches lists nothing. |
| Remote.FreshId | python-lib/dku_googledrive/session.py:139-143 | The id the store gives a created node is held by no node yet. |
| Remote.FreshIdNotAParent | python-lib/dku_googledrive/session.py:139-143 | No node of the store names the fresh id as a parent. |
| Remote.Created | python-lib/dku_googledrive/session.py:139-143 | A create appends one node, under a fresh id and with the requested name, and keeps ids unique. |
| Remote.IndexOf | python-lib/dku_googledrive/session.py:192-197 | The position of the node with a given id, None exactly when no node has that id. |
| Remote.Updated | python-lib/dku_googledrive/session.py:192-197 | An update rewrites one node in place, keeping its id and parents, and leaves every other node as it was. |
| Remote.Removed | python-lib/dku_googledrive/session.py:210 | A delete drops exactly the node of that id. |
| Remote.Without | python-lib/dku_googledrive/session.py:212 | `removeParents` keeps exactly the other parents. |
| Remote.Unlinked | python-lib/dku_googledrive/session.py:212 | `removeParents` changes only that node's parents, and drops exactly the removed parent from them. |
| Remote.WithoutIdempotent | python-lib/dku_googledrive/session.py:212 | Removing the same parent twice is removing it once. |
| Remote.UnlinkedIdempotent | python-lib/dku_googledrive/session.py:212 | A second unlink of the same parent changes nothing. |
| Remote.UnlinkedKeepsUnique | python-lib/dku_googledrive/session.py:212 | An unlink keeps ids unique. |
| Remote.RemovedKeepsUnique | python-lib/dku_googledrive/session.py:210 | A delete keeps ids unique. |
| Remote.Drive.constructor | python-lib/dku_googledrive/session.py:49 | The client starts on the given store and remote answers. |
| Remote.Drive.Transport | python-lib/dku_googledrive/session.py:100 | One call consumes one answer of the remote. |
| Remote.Drive.List | python-lib/dku_googledrive/session.py:100 | `files().list` answers the query the text spells, consumes one answer and changes nothing. |
| Remote.Drive.Create | python-lib/dku_googledrive/session.py:139-143 | `files().create` appends the node under a fresh id when the call gets through, and changes nothing otherwise. |
| Remote.Drive.Update | python-lib/dku_googledrive/session.py:192-197 | `files().update` consumes one answer; when the call gets through it rewrites the node in place if the id exists and answers 404 if it does not; a transport error changes nothing. |
| Remote.Drive.Delete | python-lib/dku_googledrive/session.py:210 | `files().delete` consumes one answer; when the call gets through it removes the node if the id exists and answers 404 if it does not; a transport error changes nothing. |
| Remote.Drive.RemoveParent | python-lib/dku_googledrive/session.py:212 | `files().update(removeParents=…)` consumes one answer; when the call gets through it unlinks the parent if the id exists and answers 404 if it does not; a transport error changes nothing. |
| Paths.RStrip | python-fs-providers/googledrive-googledrive/fs-provider.py:299 | `rstrip('/')` leaves a prefix that does not end in '/' and removes only slashes. |
| Paths.LStrip | python-fs-providers/googledrive-googledrive/fs-provider.py:299 | `lstrip('/')` leaves a suffix that does not start with '/' and removes only slashes. |
| Paths.StripEmptyIff | python-fs-providers/googledrive-googledrive/fs-provider.py:299 | `path.strip("/") == ""` holds exactly when the path is made of slashes only (the empty path included). |
| Paths.AfterLastSlash | python-lib/dku_googledrive/googledrive_helpers.py:24 | The cut point of `os.path.split`: after the last slash, with no slash beyond it. |
| Paths.Split | python-lib/dku_googledrive/googledrive_helpers.py:24 | `os.path.split` gives a tail without '/' and a head that is empty, only slashes, or not ending in '/'; a non-empty tail shortens the path; a path that already looks like a head is its own head. |
| Paths.ComponentsStep | python-lib/dku_googledrive/googledrive_helpers.py:26-33 | One turn of `split_path`'s loop either splits off a non-empty tail and goes on with the head, or keeps the remaining non-empty head as the last component, or ends with nothing left. |
| Paths.SplitPath | python-lib/dku_googledrive/googledrive_helpers.py:23-37 | `split_path` returns the path's components in path order followed by the file name, and its tokens are well formed. |
| Paths.ComponentsWellFormed | python-lib/dku_googledrive/googledrive_helpers.py:26-34 | The components the loop collects from a head are non-empty; the first is a slash marker or a plain name; all later ones are plain names. |
| Paths.SplitPathWellFormed | python-lib/dku_googledrive/googledrive_helpers.py:28-36 | Every token is non-empty and every token after the first has no '/'; the first is either a plain name or the slashes of an absolute path. |
| Paths.SplitPathOfHead | python-lib/dku_googledrive/googledrive_helpers.py:23-37 | On a path that does not end in '/' the file part adds nothing beyond the loop's components. |
| Paths.SplitJoin | python-lib/dku_googledrive/googledrive_helpers.py:24 | `os.path.split` undoes `os.path.join` of a head and a plain name. |
| Paths.SingleTokenComponents | python-lib/dku_googledrive/googledrive_helpers.py:23-37 | A single well-formed token joins to itself and splits back to itself. |
| Paths.JoinTokensComponents | python-lib/dku_googledrive/googledrive_helpers.py:23-37 | Joining well-formed tokens with `os.path.join` yields a path whose components are exactly those tokens. |
| Paths.JoinThenSplit | python-lib/dku_googledrive/googledrive_helpers.py:23-37 | `split_path` undoes `os.path.join` on well-formed tokens. |
| Paths.SplitAbsolute | python-lib/dku_googledrive/googledrive_helpers.py:24-37 | `split_path("/s1/…/sn")` with non-empty plain segments is `["/", s1, …, sn]`. |
| Paths.SplitRelative | python-lib/dku_googledrive/googledrive_helpers.py:24-37 | A relative path "s1/…/sn" has no slash marker: `split_path` gives `[s1, …, sn]`, and a bare name gives a one-token list. |
| Paths.SplitRoot | python-lib/dku_googledrive/googledrive_helpers.py:23-37 | `split_path("/")` is exactly `["/"]`. |
| Paths.TrailingSlashIgnored | python-lib/dku_googledrive/googledrive_helpers.py:24-36 | A trailing slash is ignored by `split_path` for any path with a non-slash character. |
| Paths.RelPath | python-fs-providers/googledrive-googledrive/fs-provider.py:41-44 | `get_rel_path` removes exactly one leading '/' when there is one and otherwise returns the path unchanged. |
| Paths.SplitOnSlash | python-fs-providers/googledrive-googledrive/fs-provider.py:49 | `str.split('/')` returns at least one piece, and no piece holds '/'. |
| Paths.NonEmpty | python-fs-providers/googledrive-googledrive/fs-provider.py:50 | The comprehension keeps only non-empty elements of the list. |
| Paths.SplitJoinWith | python-fs-providers/googledrive-googledrive/fs-provider.py:49-51 | Splitting on '/' undoes `'/'.join` of slash-free segments. |
| Paths.NormalizedShape | python-fs-providers/googledrive-googledrive/fs-provider.py:46-51 | `get_normalized_path` starts with '/', is "/" for "" and "/", and otherwise splits into a leading "" and exactly the non-empty segments of the input, so it has no empty segment. |
| Paths.NormalizedIdempotent | python-fs-providers/googledrive-googledrive/fs-provider.py:46-51 | `get_normalized_path` is idempotent. |
| Paths.NormalizedIgnoresRelPath | python-fs-providers/googledrive-googledrive/fs-provider.py:41-51 | Normalising the relative form of a path gives the same result as normalising the path. |
| Paths.RootPathSlash | python-fs-providers/googledrive-googledrive/fs-provider.py:59-62 | `get_root_path` starts with '/'. |
| Paths.FullPathShape | python-fs-providers/googledrive-googledrive/fs-provider.py:53-62 | `get_full_path("")` is `get_root_path()`; both start with '/'; a non-empty relative path is `os.path.join`ed onto the root path. |
| Resolver.Walk | python-lib/dku_googledrive/session.py:62-75 | The walk ends on the value it started with or on a non-empty set of matches. |
| Resolver.Resolve | python-lib/dku_googledrive/session.py:52-60 | A resolution that finds something has at least one match. |
| Resolver.ItemOf | python-fs-providers/googledrive_googledrive/fs-provider.py:198-205 | The lookup returns None exactly when some step matched nothing; the first-match variant returns the first match of the last step; the legacy variant raises exactly when that step left more than one match. |
| Resolver.SingleTokenIsRoot | python-lib/dku_googledrive/session.py:53-59 | Any path `split_path` turns into one token resolves to the synthetic root (folder, size 0, the root id, name "/"), in both variants. |
| Resolver.RootPathIsRoot | python-lib/dku_googledrive/session.py:52-59 | The path "/" resolves to the synthetic root. |
| Resolver.EmptyPathRaises | python-lib/dku_googledrive/session.py:62-75 | The empty path has no token, so the loop never binds `files` and the lookup raises. |
| Resolver.StepMatchesExact | python-lib/dku_googledrive/session.py:67-70 | One step keeps exactly the exact-name matches of the listing, in listing order. |
| Resolver.StepMatchesMembers | python-lib/dku_googledrive/session.py:67-70 | One step keeps exactly the non-trashed nodes of that name with a parent among the candidates. |
| Resolver.ListedSameParents | python-fs-providers/googledrive_googledrive/fs-provider.py:249-250 | The listing depends on the candidate ids only as a set. |
| Resolver.WalkFromIds | python-lib/dku_googledrive/session.py:74 | Walking on from the ids `get_files_ids` returns is walking on from the deduplicated ids of the matches. |
| Resolver.WalkSameSet | python-fs-providers/googledrive_googledrive/fs-provider.py:249-250 | The walk depends on the candidate ids only as a set, so the unspecified order of `list(set(…))` does not matter. |
| Resolver.ReachableFromOne | python-lib/dku_googledrive/session.py:74 | Reaching a node from a set of candidates is reaching it from one of them. |
| Resolver.IdsOfMembers | python-lib/dku_googledrive/session.py:74 | The next candidate set is exactly the set of the matches' ids. |
| Resolver.NoMatchNoChain | python-lib/dku_googledrive/session.py:72-73 | A step that matches nothing leaves no chain through it. |
| Resolver.ChainThroughStep | python-lib/dku_googledrive/session.py:67-74 | The chains from the ids a step keeps are exactly the chains through that step. |
| Resolver.WalkFindsReachable | python-lib/dku_googledrive/session.py:62-75 | Over plain names the walk never leaves `files` unbound; its matches are exactly the nodes that end a chain of non-trashed, exactly named nodes under the candidates; it finds nothing exactly when there is no such chain. |
| Resolver.ResolveAbsolute | python-lib/dku_googledrive/session.py:51-75 | For "/s1/…/sn" the matches are exactly the ends of chains s1..sn under the root id, and there are none exactly when no such chain exists. |
| Resolver.ResolveItemNoneIffNoChain | python-lib/dku_googledrive/session.py:51-75 | `get_item_from_path("/s1/…/sn")` returns None exactly when no chain s1..sn hangs under the root id, in both variants. |
| Resolver.LegacyRaisesOnTwoChains | python-fs-providers/googledrive_googledrive/fs-provider.py:203-204 | Two different nodes ending a chain for the path make the legacy lookup raise "There are several files with this path.", while the new lookup returns normally. |
| Resolver.ReachableInStore | python-lib/dku_googledrive/session.py:67-70 | A chain ends at a non-trashed node of the store. |
| Resolver.ReachableEndsNamed | python-lib/dku_googledrive/session.py:70 | A chain ends at a node named after the last segment. |
| Resolver.ReachableGrows | python-lib/dku_googledrive/session.py:126-133 | Adding a node keeps every chain. |
| Resolver.ReachableExtends | python-lib/dku_googledrive/session.py:116-120 | A chain ending at a folder extends by a node of the next name created under it. |
| Resolver.NodeStepUpdated | python-lib/dku_googledrive/session.py:188-198 | An update that keeps a node's name keeps it as a step of a chain. |
| Resolver.ReachableUpdated | python-lib/dku_googledrive/session.py:188-198 | An update that keeps the node's name keeps every chain. |
| Folders.CreateDirsFromStep | python-lib/dku_googledrive/session.py:115-123 | One turn of `create_directory_from_path`: stop on a lookup error, create a folder under the previous id when the prefix is missing, otherwise carry on from the id found. |
| Folders.FolderStep | python-lib/dku_googledrive/session.py:117-123 | One prefix only ever appends folders, and leaves the store untouched when its lookup fails. |
| Folders.CreateDirsFromByStep | python-lib/dku_googledrive/session.py:115-123 | The loop is the repetition of `FolderStep` on the joined prefixes. |
| Folders.FolderStepKeepsIds | python-lib/dku_googledrive/session.py:126-133 | A created folder keeps ids distinct and non-empty. |
| Folders.CreateDirsOnlyAddsFolders | python-lib/dku_googledrive/session.py:109-133 | Folder synthesis only appends, everything it appends is a folder, and ids stay distinct and non-empty. |
| Folders.CreateDirsRoot | python-lib/dku_googledrive/session.py:109-124 | `create_directory_from_path("/")` creates nothing and returns the root id. |
| Folders.CreateDirsEmptyRaises | python-lib/dku_googledrive/session.py:109-124 | For the empty path `new_directory_id` is never bound and the call raises. |
| Folders.CreateDirsFromExisting | python-lib/dku_googledrive/session.py:115-124 | From a token on, when every remaining prefix resolves, the loop creates nothing and returns the id of the whole path. |
| Folders.CreateDirsExisting | python-lib/dku_googledrive/session.py:109-124 | When every prefix of the path already resolves, nothing is created and the path's id is returned. |
| Folders.AbsoluteSnoc | python-lib/dku_googledrive/session.py:116 | Joining the next segment onto the prefix so far gives the next prefix. |
| Folders.NewFolderChains | python-lib/dku_googledrive/session.py:118-120 | The folder created for segment i under the previous id ends a chain s1..si. |
| Folders.ChainCreateStep | python-lib/dku_googledrive/session.py:118-120 | A missing prefix gets a new folder under the last id, and the loop goes on from that folder's id. |
| Folders.ChainFoundStep | python-lib/dku_googledrive/session.py:121-123 | A prefix that resolves makes its first match the last id, and the loop goes on from it. |
| Folders.CreatedChainFrom | python-lib/dku_googledrive/session.py:115-124 | From any token of "/s1/…/sn" on, the first-match loop returns normally and its id ends a chain s1..sn under the root. |
| Folders.ChainNext | python-lib/dku_googledrive/session.py:115-123 | One turn along plain segments: the prefix is found or created, and the chain grows by one. |
| Folders.ReachablePrefix | python-lib/dku_googledrive/session.py:115-124 | A chain for a path passes through a chain for each non-empty prefix of the path. |
| Folders.NothingBelowNew | python-lib/dku_googledrive/session.py:139-143 | A new node whose id no node names as a parent has nothing reached below it. |
| Folders.ReachableWithoutNew | python-lib/dku_googledrive/session.py:139-143 | A chain in the grown store that does not end at the new node was already there. |
| Folders.LastStepIsFirstMatch | python-lib/dku_googledrive/session.py:115-124 | The last turn of the loop, found or created, returns the id of the whole path's first match in the store it leaves. |
| Folders.CreatedIdFrom | python-lib/dku_googledrive/session.py:115-124 | From any token on, the first-match loop returns the id the whole path resolves to in the store it leaves. |
| Folders.ChainResolves | python-lib/dku_googledrive/session.py:117 | A path that ends a chain resolves to a node with the first-match lookup. |
| Folders.PrefixFromChain | python-lib/dku_googledrive/session.py:116-117 | Once the whole path ends a chain, each of its token prefixes resolves to a node. |
| Folders.PrefixesFromChain | python-lib/dku_googledrive/session.py:116-117 | Once the whole path ends a chain, every token prefix resolves to a node. |
| Folders.StartAtRoot | python-lib/dku_googledrive/session.py:110-117 | The first token "/" resolves to the root, and the loop goes on from token 1 with the root id. |
| Folders.CreateDirsIdempotent | python-lib/dku_googledrive/session.py:109-124 | With the first-match lookup, after `create_directory_from_path("/s1/…/sn")` every prefix of the path resolves, and a second call creates nothing and returns the same id. |
| Folders.CreatedPathResolves | python-lib/dku_googledrive/session.py:109-124 | With the first-match lookup, `create_directory_from_path("/s1/…/sn")` returns the id of a node that ends a chain s1..sn, and the path resolves afterwards. |
| Folders.UploadMetadata | python-lib/dku_googledrive/session.py:155-159 | The metadata carries the file name and no parents; it gets the spreadsheet type exactly when `write_as_google_doc` is set and the guessed type is "text/csv". |
| Folders.UploadMedia | python-lib/dku_googledrive/session.py:161-168 | The media type is the guessed type, or "binary/octet-stream" when there is no guess. |
| Folders.UploadCreatesIffAbsent | python-lib/dku_googledrive/session.py:170-186 | On a reliable remote an upload returns normally; it adds exactly one node exactly when no non-trashed node of that name sits under the parent, and otherwise keeps the node count (an update in place). |
| Folders.UploadedIsFound | python-lib/dku_googledrive/session.py:170-186 | Under a truthy parent id the same query finds the uploaded file afterwards. |
| Folders.UploadTwiceCreatesOnce | python-lib/dku_googledrive/session.py:151-186 | Uploading the same name twice under a truthy parent creates at most one node. |
| Folders.SheetReportsSizeOne | python-lib/dku_googledrive/session.py:158-159 | A CSV written as a Google Sheet into an empty spot is stored without a size, so `file_size` reports 1 for it. |
| Walker.FlatStoreIsAcyclic | python-fs-providers/googledrive-googledrive/fs-provider.py:186-202 | A store without folders can be walked from any node. |
| Walker.TreeOf | python-fs-providers/googledrive-googledrive/fs-provider.py:186-202 | Every walkable node has a finite picture of its subtree. |
| Walker.SnapshotChild | python-fs-providers/googledrive-googledrive/fs-provider.py:190-193 | Each listed child has its picture in the snapshot, and a child folder's picture is a snapshot itself. |
| Walker.LevelDirStep | python-fs-providers/googledrive-googledrive/fs-provider.py:192-193 | At a child folder the loop extends the result by the folder's own walk. |
| Walker.LevelFileStep | python-fs-providers/googledrive-googledrive/fs-provider.py:194-201 | At a child file the loop appends its entry; in first-non-empty mode the folder's loop ends there. |
| Walker.FilesOf | python-fs-providers/googledrive-googledrive/fs-provider.py:186-202 | The files of a subtree, depth first, contain no folder. |
| Walker.FilesFrom | python-fs-providers/googledrive-googledrive/fs-provider.py:191-202 | The files below the children from k on contain no folder. |
| Walker.FullWalkListsEveryFile | python-fs-providers/googledrive-googledrive/fs-provider.py:186-202 | Without `first_non_empty` the walk yields exactly one entry per file of the subtree, depth first, none per folder; each entry's path is the walk's prefix extended by "/" and the name of every folder above the file, then "/" and the file's name, and it carries the file's size and modification time. |
| Walker.FullLevelListsEveryFile | python-fs-providers/googledrive-googledrive/fs-provider.py:191-202 | The loop from child k on lists one entry per file below those children, at the path of the folders above it. |
| Walker.DescribesWithin | python-fs-providers/googledrive-googledrive/fs-provider.py:188-193 | A sub-folder's walk, which starts from the sub-folder's own path, lists its files at their paths as seen from the parent. |
| Walker.WalkPathsUnderPrefix | python-fs-providers/googledrive-googledrive/fs-provider.py:188-196 | Every entry path is the prefix ("" for "/") followed by '/' and more. |
| Walker.LevelPathsUnderPrefix | python-fs-providers/googledrive-googledrive/fs-provider.py:191-199 | Every entry the loop adds lies under the prefix. |
| Walker.FirstWalkWithinFull | python-fs-providers/googledrive-googledrive/fs-provider.py:200-201 | The early-exit walk reports nothing the full walk does not. |
| Walker.FirstLevelWithinFull | python-fs-providers/googledrive-googledrive/fs-provider.py:191-201 | The early-exit loop reports nothing the full loop does not. |
| Walker.FirstWalkNonEmptyIffFiles | python-fs-providers/googledrive-googledrive/fs-provider.py:186-202 | The early-exit walk finds something exactly when the subtree holds a file. |
| Walker.FirstLevelNonEmptyIffFiles | python-fs-providers/googledrive-googledrive/fs-provider.py:191-201 | The early-exit loop finds something exactly when the children from k on hold a file below them. |
| Walker.ExampleRootChildren | python-fs-providers/googledrive-googledrive/fs-provider.py:190 | Listing the example root gives folder "A", then file "y.csv". |
| Walker.ExampleFolderChildren | python-fs-providers/googledrive-googledrive/fs-provider.py:190 | Listing the example folder "A" gives file "x.csv" only. |
| Walker.ExampleFolderIsSnapshot | python-fs-providers/googledrive-googledrive/fs-provider.py:190-199 | The example folder's picture matches the store. |
| Walker.ExampleIsSnapshot | python-fs-providers/googledrive-googledrive/fs-provider.py:190-199 | The example tree matches the store below the root. |
| Walker.FirstWalkKeepsEarlierEntries | python-fs-providers/googledrive-googledrive/fs-provider.py:192-201 | The early exit is per folder: a file inside a first sub-folder and a file next to it are both reported, so the early-exit result can hold two entries. |
| Operations.StatReportsNormalPath | python-fs-providers/googledrive-googledrive/fs-provider.py:83-88 | A stat reports the path in normal form, starting with '/', and a folder with size 0. |
| Operations.StatMissingIffNoChain | python-fs-providers/googledrive-googledrive/fs-provider.py:78-81 | `stat` returns None exactly when no chain of the full path's segments hangs under the root id. |
| Operations.StatDriveRoot | python-fs-providers/googledrive-googledrive/fs-provider.py:75-88 | With an empty provider root, `stat("")` and `stat("/")` report the synthetic root: "/", size 0, no time, a directory. |
| Operations.ChildInfos | python-fs-providers/googledrive-googledrive/fs-provider.py:121-129 | One child entry per listed node, in listing order, each with its joined normal path, kind, size and time. |
| Operations.BrowseAgreesWithStat | python-fs-providers/googledrive-googledrive/fs-provider.py:96-136 | Unless the path starts with "//", `browse` and `stat` agree: the same error, the same absence, the same path, kind and time, and for a file the same size. |
| Operations.BrowseChildrenNormalized | python-fs-providers/googledrive-googledrive/fs-provider.py:118-129 | Every child `browse` lists has a normal path starting with '/', and a child folder has size 0. |
| Operations.RawEntries | python-fs-providers/googledrive-googledrive/fs-provider.py:159-165 | The fallback entries exist exactly when every listed node has a size; otherwise the raw `file['size']` raises a KeyError. |
| Operations.EnumerateFolderListsEveryFile | python-fs-providers/googledrive-googledrive/fs-provider.py:171-181 | `enumerate` of a folder without `first_non_empty` lists exactly one entry per file of its subtree, each at the path's prefix followed by the folders above the file and its name. |
| Operations.EnumerateFirstFindsIffFiles | python-fs-providers/googledrive-googledrive/fs-provider.py:138-181 | `enumerate` of a folder with `first_non_empty` finds something exactly when the subtree holds a file, and lists nothing the full enumeration does not. |
| Operations.EnumerateNoneMeansNothingThere | python-fs-providers/googledrive-googledrive/fs-provider.py:149-158 | `enumerate` returns None only when the path resolves to nothing and no non-trashed child of the provider root has a name containing the relative path. |
| Operations.FallbackNeedsSizes | python-fs-providers/googledrive-googledrive/fs-provider.py:149-166 | In the name-search fallback, the result lists one entry per matching child when all of them have a size, and raises a KeyError otherwise. |
| Operations.DeleteMissingRaisesAsWritten | python-fs-providers/googledrive-googledrive/fs-provider.py:213-218 | As written, `delete_recursive` on a path that resolves to nothing raises a TypeError (`is_directory(None)`); the intended result deletes nothing and returns 0. |
| Operations.SlashThenName | python-fs-providers/googledrive-googledrive/fs-provider.py:53-57 | Joining "/" and "a" gives "/a". |
| Operations.FullPathOfName | python-fs-providers/googledrive-googledrive/fs-provider.py:53-57 | With an empty provider root, the full path of "a" is "/a". |
| Operations.EmptyDriveResolvesNothing | python-lib/dku_googledrive/session.py:72-73 | In an empty store every absolute path of plain names resolves to None. |
| Operations.DeleteMissingExample | python-fs-providers/googledrive-googledrive/fs-provider.py:204-218 | `delete_recursive("a")` on an empty store with an empty provider root raises a TypeError as written, and returns 0 as intended. |
| Operations.DriveRootIsRefused | python-fs-providers/googledrive-googledrive/fs-provider.py:297-301 | With an empty provider root, `delete_recursive("")` and `delete_recursive("/")` raise "Cannot delete root path" and leave the store untouched. |
| Operations.NamedRootIsNotRefused | python-fs-providers/googledrive-googledrive/fs-provider.py:297-301 | With a named provider root, deleting at that root is not refused; it deletes the root folder's children. |
| Operations.LegacyRootDeletesNothing | python-fs-providers/googledrive_googledrive/fs-provider.py:329-341 | Without a guard, the legacy `delete_recursive` on the drive root reaches the synthetic root, which has no `parents` key, and returns 0 with the store untouched. |
| Operations.DeleteChildStep | python-fs-providers/googledrive-googledrive/fs-provider.py:222-224 | One turn of the delete loop returns normally; the child's node is gone or no longer under the folder, and every other node stays. |
| Operations.DeleteChildrenFromEmpties | python-fs-providers/googledrive-googledrive/fs-provider.py:220-224 | The delete loop returns the number of listed children, leaves no node under the folder, and keeps every node that was not listed. |
| Operations.DeleteFolderEmptiesIt | python-fs-providers/googledrive-googledrive/fs-provider.py:215-224 | Deleting a folder returns its number of children and leaves it without children; nodes that were not its children stay. |
| Operations.DeleteFileRemovesIt | python-fs-providers/googledrive-googledrive/fs-provider.py:225-227 | Deleting a file returns 1 and removes exactly that node. |
| Operations.DeleteChildrenCount | python-fs-providers/googledrive-googledrive/fs-provider.py:222-224 | The reliable-remote delete loop returns the number of listed children. |
| Operations.SplitAbsoluteFile | python-fs-providers/googledrive-googledrive/fs-provider.py:293 | `os.path.split` of "/s1/…/sn/name" is the folder path and the name. |
| Operations.UploadKeepsChain | python-lib/dku_googledrive/session.py:151-186 | An upload into a folder keeps the folder's chain. |
| Operations.WriteUploadsIntoFolder | python-fs-providers/googledrive-googledrive/fs-provider.py:283-295 | `write` to "/s1/…/sn/name" creates the folders as needed and uploads the file into the folder at "/s1/…/sn". |
| Operations.UploadedFileResolves | python-lib/dku_googledrive/session.py:151-186 | After uploading "name" into the folder at "/s1/…/sn", the path "/s1/…/sn/name" resolves to a node named "name". |
| Operations.WriteThenStat | python-fs-providers/googledrive-googledrive/fs-provider.py:283-295 | After a `write` to a path, `stat` of that path finds a node of that name. |
| Operations.StatFindsResolved | python-fs-providers/googledrive-googledrive/fs-provider.py:78-88 | `stat` finds something exactly when the full path resolves to a node. |
| Session.ExtendsByDelaysTrans | python-lib/dku_googledrive/session.py:223 | Sleeping 5..9 at each transient failure composes across consecutive calls. |
| Session.GoogleDriveSession.constructor | python-lib/dku_googledrive/session.py:29-49 | A session starts on the given client and root id, with 5 attempts and nothing slept. |
| Session.GoogleDriveSession.HandleErrors | python-lib/dku_googledrive/session.py:221-228 | A 403, 500 or 503 sleeps one delay of 5..9 and returns; any other status raises "Googledrive <context> error : <reason>". |
| Session.GoogleDriveSession.List | python-lib/dku_googledrive/session.py:96-107 | The loop returns what `ListCall` gives, consumes one remote answer per call, sleeps once per transient failure and changes no node. |
| Session.GoogleDriveSession.Create | python-lib/dku_googledrive/session.py:135-149 | The loop returns and leaves what `CreateCall` gives, with one remote answer per call and one sleep per transient failure. |
| Session.GoogleDriveSession.Update | python-lib/dku_googledrive/session.py:188-203 | The loop returns and leaves what `UpdateCall` gives, with one remote answer per call and one sleep per transient failure. |
| Session.GoogleDriveSession.Delete | python-lib/dku_googledrive/session.py:205-219 | The loop returns what the intended delete (`DeleteCall`) gives and leaves its store, consuming one answer per call. |
| Session.GoogleDriveSession.Directory | python-lib/dku_googledrive/session.py:91-94 | `directory` lists the non-trashed children of the item; on a reliable remote, exactly those. |
| Session.GoogleDriveSession.GetItemFromPath | python-lib/dku_googledrive/session.py:51-75 | On a reliable remote the loop returns `ResolveItem` of the store; whenever it returns normally it returns that; a single-token path returns the synthetic root without a call; any other error is a list failure. |
| Session.GoogleDriveSession.CreateDirectory | python-lib/dku_googledrive/session.py:126-133 | `create_directory` creates one folder with the given name and parents and returns its id. |
| Session.GoogleDriveSession.ResolveOrCreate | python-lib/dku_googledrive/session.py:116-123 | One prefix: on a reliable remote, the found id or a new folder's id; a failure leaves the store untouched. |
| Session.GoogleDriveSession.CreateDirectoryFromPath | python-lib/dku_googledrive/session.py:109-124 | On a reliable remote the method returns and leaves exactly `CreateDirs`; whenever it returns normally it agrees with it; it only ever appends folders. |
| Session.GoogleDriveSession.CreateAlong | python-lib/dku_googledrive/session.py:112-124 | The loop over the tokens agrees with `CreateDirsFrom` from the root id, and only appends folders. |
| Session.GoogleDriveSession.Upload | python-lib/dku_googledrive/session.py:151-186 | On a reliable remote the upload does exactly `UploadSpec`; whenever it returns normally it agrees with it; a failure leaves the store untouched. |
| Session.GoogleDriveSession.CreateOrUpdate | python-lib/dku_googledrive/session.py:173-186 | Create when the listing came back empty, otherwise update the first match, as `UploadSpec` says. |
| Provider.DescribeChildren | python-fs-providers/googledrive-googledrive/fs-provider.py:118-129 | The loop of `browse` builds one child entry per listed node, in order. |
| Provider.ReadEntries | python-fs-providers/googledrive-googledrive/fs-provider.py:159-166 | The loop of the fallback builds the raw entries, or raises a KeyError at the first node without a size. |
| Provider.GoogleDriveFSProvider.constructor | python-fs-providers/googledrive-googledrive/fs-provider.py:32-38 | The provider keeps its root with one leading '/' removed. |
| Provider.GoogleDriveFSProvider.Stat | python-fs-providers/googledrive-googledrive/fs-provider.py:70-88 | On a reliable remote `stat` returns exactly `StatSpec`; whenever it returns normally it agrees with it; it changes nothing. |
| Provider.GoogleDriveFSProvider.Browse | python-fs-providers/googledrive-googledrive/fs-provider.py:96-136 | On a reliable remote `browse` returns exactly `BrowseSpec`; whenever it returns normally it agrees with it; it changes nothing. |
| Provider.GoogleDriveFSProvider.ListRecursive | python-fs-providers/googledrive-googledrive/fs-provider.py:186-202 | On a snapshot of the folder's subtree, `list_recursive` returns exactly the walk `WalkSpec` whenever it returns normally, and raises only list failures. |
| Provider.GoogleDriveFSProvider.ListChildren | python-fs-providers/googledrive-googledrive/fs-provider.py:191-202 | The loop over a folder's listed children returns exactly the level walk `LevelSpec` on a reliable remote and whenever it returns normally; it raises only list failures and changes nothing. |
| Provider.GoogleDriveFSProvider.Enumerate | python-fs-providers/googledrive-googledrive/fs-provider.py:138-181 | On an acyclic store, `enumerate` returns exactly `EnumerateSpec` on a reliable remote and agrees with it whenever it returns normally. |
| Provider.GoogleDriveFSProvider.EnumerateByName | python-fs-providers/googledrive-googledrive/fs-provider.py:149-166 | When the path resolves to nothing, the name search under the provider root returns exactly the fallback of `EnumerateSpec` on a reliable remote and agrees with it whenever it returns normally; it changes nothing. |
| Provider.GoogleDriveFSProvider.DeleteChildren | python-fs-providers/googledrive-googledrive/fs-provider.py:222-224 | On a reliable remote the delete loop does what `DeleteChildrenFrom` says; a normal return counts every listed child. |
| Provider.GoogleDriveFSProvider.DeleteRecursive | python-fs-providers/googledrive-googledrive/fs-provider.py:204-229 | On a reliable remote `delete_recursive`, with both corrections listed under Findings, returns and leaves exactly `DeleteRecursiveSpec`; a path the guard refuses raises "Cannot delete root path" with no remote call. |
| Provider.GoogleDriveFSProvider.DeleteItem | python-fs-providers/googledrive-googledrive/fs-provider.py:215-227 | Deleting a found node: on a reliable remote it returns and leaves exactly `DeleteNode` (a folder's children deleted and counted, a file deleted and counted as 1); a normal return has that count; an error is that function's or a list or delete failure. |
| Provider.GoogleDriveFSProvider.Write | python-fs-providers/googledrive-googledrive/fs-provider.py:283-295 | On a reliable remote `write` does exactly `WriteSpec`; whenever it returns normally it agrees with it. |

## Left out

- Credentials, the Google API client construction and the connection
  settings: the session is built from a `Drive` value and a root id. `check_path_format` and `get_root_id` are not part of this model: the constructor does not check the root's format, and the root id is a parameter.
- `read`/`download` and `move` of both providers: they stream bytes or rename through calls whose payloads the model does not represent; their path lookup is `get_item_from_path`, which is modelled.
- `substract_path_base`, logging and `close`: no effect on the store or on results.
- `set_last_modified`: always answers False and changes nothing.
- Stream buffering in `write`/`upload`: the uploaded size is a parameter.
- MIME type guessing: the guessed type is a parameter (`guessed`).
- Parsing of the JSON error body: the reason is an opaque string.
- Result pagination of list calls: the code asks for `nextPageToken` (python-lib/dku_googledrive/googledrive_helpers.py:21) but never follows it, so the program sees only the first page of each listing. The model's list call returns every match at once, so it matches the program only for listings that fit on one page. `Operations.DeleteFolderEmptiesIt`, `Walker.FullWalkListsEveryFile` and `Operations.EnumerateFolderListsEveryFile` hold for such listings only.
- Parsing of timestamp strings: a node's time is a `Timestamp` record; the textual query quoting and escaping of names is not modelled (names are inserted as they are).
- The older provider's `browse` reports its time under the misspelt key 'lasModified'; the model reports it under one `lastModified` field.
- The raw `file['size']` string of the enumerate fallback is reported as a number.
- Sleeping: `sleep(5 + randrange(5))` is recorded as a delay in 5..9 (`Session.ValidDelay`); the actual waiting and the random choice are not modelled.
- `remove_duplicates` (`list(set(…))`) has no specified order; the model keeps first occurrences, and `Resolver.WalkSameSet` shows the order does not matter to the walk.
- The provider constructor takes the older provider's "no directory" setting. The newer provider has no such setting, and the model ignores it unless `legacy` is set.
- Provider.GoogleDriveFSProvider.ListRecursive: requires a ghost snapshot tree of the folder's subtree, because a parent graph with a cycle would make the source recurse without end; such stores are not modelled.
- Provider.GoogleDriveFSProvider.Enumerate: requires an acyclic store, for the same reason.
- Remote.Removed: a successful `files().delete` drops only the node with that id, and the nodes below a deleted folder stay in the store. The Drive service also deletes a folder's descendants that the user owns. The source relies on that when `delete_recursive` deletes only a folder's direct children. Whether and how far the service cascades is not pinned down by the code, so the model does not cascade. The "every other node stays" clauses of `Operations.DeleteChildStep`, `Operations.DeleteChildrenFromEmpties` and `Operations.DeleteFolderEmptiesIt` depend on this. So do the stores that `Provider.GoogleDriveFSProvider.DeleteItem`, `DeleteChildren` and `DeleteRecursive` are tied to: with a cascading service, the descendants of the deleted children are gone too.
- Remote.Drive.Delete: removes only the node with that id, without the cascade described for `Remote.Removed`.
- Remote.Listed: `name contains 'v'` is modelled as a substring test. The Drive service matches name prefixes only, so `name contains 'World'` does not find "HelloWorld". Path resolution does not depend on this, because the exact-name filter follows the query (`Nodes.TwoPhaseFilter`). The name-search fallback of `enumerate` returns the service's answer as it is. So `Operations.EnumerateNoneMeansNothingThere` holds only under the substring reading: with prefix matching, a child "xab.csv" and the path "ab.csv" give None although the child's name contains the path.
- Nodes.FormatDate: times are kept to the millisecond, as the store writes them. Python's `total_seconds` is a floating-point number, and a time with sub-millisecond microseconds near either end of the year range rounds up to the next second before `int` truncates it (9999-12-31T23:59:59.999999Z gives 253402300800000, not 253402300799000); such times are outside the model.
- Nodes.SubSecondDropped: stated for millisecond fractions only, for the same reason.
- Provider.GoogleDriveFSProvider.DeleteRecursive: follows the corrected behaviour of both Findings rows, not the code as written. A path that resolves to nothing returns 0, where the code raises a TypeError from `is_directory(None)` (`Operations.DeleteRecursiveAsWritten`). A child with several parents is unlinked by one successful call, where the code's delete loop keeps calling and raises "Max number of attempts reached" (`Calls.DeleteAsWritten`).
- Provider.GoogleDriveFSProvider.DeleteItem: unlinks a child with several parents by one successful call, as the corrected delete loop does, where the code as written raises after the loop is exhausted (`Calls.DeleteAsWritten`).
- Provider.GoogleDriveFSProvider.DeleteChildren: the same corrected delete loop, for the same reason.
- Provider.GoogleDriveFSProvider.DeleteRecursive: on an unreliable remote a normal return is tied to the count of the reliable-remote function but not to its store, because a delete that finds its node already gone (404) also returns normally.
- Provider.GoogleDriveFSProvider.DeleteItem: on an unreliable remote a normal return is tied to the count only, for the same reason.
- Provider.GoogleDriveFSProvider.DeleteChildren: on an unreliable remote a normal return is tied to the count only, for the same reason.
- Session.GoogleDriveSession.Delete: models `googledrive_delete` with the loop left on success (see Findings); the loop as written is `Calls.DeleteAsWritten`.

## Findings

| source | as written | input that shows it | evidently intended | confidence | as-written member | corrected member |
|---|---|---|---|---|---|---|
| python-lib/dku_googledrive/session.py:205-219 | `googledrive_delete` has no `break` or `return` after a successful call, so the loop keeps calling until a call fails | a node with two or more parents, deleted with a `parent_id` on a reliable remote: the first call unlinks it, the next four succeed too, and the call raises "Max number of attempts reached" | leave the loop after the first successful call | not executed | Calls.DeleteAsWritten (shown by Calls.UnlinkAsWrittenExhausts) | Calls.DeleteCall (shown by Calls.UnlinkCorrectedSucceeds) |
| python-fs-providers/googledrive-googledrive/fs-provider.py:213-218 | `delete_recursive` calls `is_directory(item)` before checking `item` for None | the empty store, provider root "", path "a": the lookup returns None and `is_directory(None)` raises a TypeError | a path that resolves to nothing deletes nothing and returns 0 | not executed | Operations.DeleteRecursiveAsWritten (shown by Operations.DeleteMissingExample) | Operations.DeleteRecursiveSpec (shown by Operations.DeleteMissingRaisesAsWritten) |
