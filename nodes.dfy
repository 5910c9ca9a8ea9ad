/**
 * Remote nodes and what the provider computes from them: classification
 * (`is_directory`, `is_file`, `is_file_google_doc`), the effective size
 * (`file_size`), the modification time in epoch milliseconds
 * (`format_date` / `get_last_modified`), the Drive query text
 * (`query_parents_in`), and the list filters (`keep_files_with`,
 * `get_files_ids` / `remove_duplicates`).
 */
module Nodes {
  import opened Wrappers

  type Id = string

  const FolderMime := "application/vnd.google-apps.folder"
  const SpreadsheetMime := "application/vnd.google-apps.spreadsheet"
  const CsvMime := "text/csv"
  const GoogleApps := "google-apps"
  const BinaryStream := "binary/octet-stream"

  /**
   * A `modifiedTime` value, already split into the fields of "%Y-%m-%dT%H:%M:%S.%fZ".
   * The store writes the fraction with three digits, so it is kept in milliseconds.
   */
  datatype Timestamp = Timestamp(year: int, month: int, day: int, hour: int, minute: int, second: int, millis: int)

  /**
   * A node as the remote lists it. `size` and `parents` are absent (None) when
   * the payload has no such key; `trashed` is only seen by the remote's query.
   */
  datatype Node = Node(
    id: Id,
    name: string,
    mimeType: string,
    size: Option<nat>,
    parents: Option<seq<Id>>,
    trashed: bool,
    modifiedTime: Option<ValidTime>)

  /** The synthetic root the resolver builds in memory: a folder named "/" with size "0" and no parents key. */
  function RootNode(rootId: Id): Node {
    Node(rootId, "/", FolderMime, Some(0), None, false, None)
  }

  // ---------------------------------------------------------------------------
  // Classification
  // ---------------------------------------------------------------------------

  predicate IsDirectory(n: Node) {
    n.mimeType == FolderMime
  }

  predicate IsFile(n: Node) {
    n.mimeType != FolderMime
  }

  /** `is_file` is exactly the negation of `is_directory`. */
  lemma FileIffNotDirectory(n: Node)
    ensures IsFile(n) <==> !IsDirectory(n)
  {
  }

  predicate StartsWith(s: string, prefix: string) {
    |prefix| <= |s| && s[..|prefix|] == prefix
  }

  predicate OccursAt(s: string, sub: string, i: int) {
    0 <= i <= |s| - |sub| && s[i..i + |sub|] == sub
  }

  /** Python's `sub in s`. */
  predicate Contains(s: string, sub: string) {
    exists i :: 0 <= i <= |s| && OccursAt(s, sub, i)
  }

  predicate IsGoogleDoc(n: Node) {
    Contains(n.mimeType, GoogleApps)
  }

  /** The "google-apps" test is a substring test, so it also holds for every folder. */
  lemma FolderIsGoogleDoc(n: Node)
    requires IsDirectory(n)
    ensures IsGoogleDoc(n)
  {
    assert OccursAt(n.mimeType, GoogleApps, 16);
  }

  /**
   * `file_size`: 0 for a folder whatever it declares, the declared size when
   * there is one, otherwise the sentinel 1 so that consumers never skip an
   * unsized file as empty.
   */
  function FileSize(n: Node): (r: nat)
    ensures IsDirectory(n) ==> r == 0
    ensures !IsDirectory(n) && n.size.Some? ==> r == n.size.value
    ensures !IsDirectory(n) && n.size.None? ==> r == 1
  {
    if IsDirectory(n) then 0
    else if n.size.Some? then n.size.value
    else 1
  }

  /** A zero size only ever comes from a folder or from a file that declares size 0. */
  lemma ZeroSizeMeansFolderOrEmpty(n: Node)
    requires FileSize(n) == 0
    ensures IsDirectory(n) || n.size == Some(0)
  {
  }

  // ---------------------------------------------------------------------------
  // Timestamps
  // ---------------------------------------------------------------------------

  predicate IsLeapYear(y: int) {
    (y % 4 == 0 && y % 100 != 0) || y % 400 == 0
  }

  function DaysInMonth(y: int, m: int): int {
    if m == 2 then (if IsLeapYear(y) then 29 else 28)
    else if m == 4 || m == 6 || m == 9 || m == 11 then 30
    else 31
  }

  /** What `strptime` accepts for the pattern, and `datetime` for its fields. */
  predicate ValidTimestamp(t: Timestamp) {
    && 1 <= t.year <= 9999
    && 1 <= t.month <= 12
    && 1 <= t.day <= DaysInMonth(t.year, t.month)
    && 0 <= t.hour < 24 && 0 <= t.minute < 60 && 0 <= t.second < 60
    && 0 <= t.millis < 1000
  }

  /** A time the store reports: one `strptime` accepts. */
  type ValidTime = t: Timestamp | ValidTimestamp(t) witness Timestamp(1970, 1, 1, 0, 0, 0, 0)

  function DaysBeforeMonth(y: int, m: int): int {
    var cumulative := [0, 31, 59, 90, 120, 151, 181, 212, 243, 273, 304, 334];
    (if 1 <= m <= 12 then cumulative[m - 1] else 0) + (if m > 2 && IsLeapYear(y) then 1 else 0)
  }

  /** Proleptic Gregorian day number, 1 for 0001-01-01 (Python's `toordinal`). */
  function Ordinal(y: int, m: int, d: int): int {
    var py := y - 1;
    365 * py + py / 4 - py / 100 + py / 400 + DaysBeforeMonth(y, m) + d
  }

  const EpochOrdinal := 719163

  /** Whole seconds from 1970-01-01T00:00:00 to `t`, ignoring the sub-second part. */
  function EpochSeconds(t: Timestamp): int {
    (Ordinal(t.year, t.month, t.day) - EpochOrdinal) * 86400 + t.hour * 3600 + t.minute * 60 + t.second
  }

  /** Whole seconds as milliseconds. */
  function Millis(seconds: int): (r: int)
    ensures r % 1000 == 0 && r == seconds * 1000
  {
    seconds * 1000
  }

  /**
   * `format_date`: `int(total_seconds) * 1000`. Python's `int` truncates toward
   * zero, so before the epoch a non-zero fraction rounds the seconds up. At
   * millisecond precision the fraction stays at least a thousandth away from a
   * whole second, far more than the rounding of the floating-point seconds for
   * years 1 to 9999, so the truncation sees the exact value.
   */
  function FormatDate(t: Timestamp): (r: int)
    requires ValidTimestamp(t)
    ensures r % 1000 == 0
    ensures EpochSeconds(t) >= 0 || t.millis == 0 ==> r == EpochSeconds(t) * 1000
    ensures EpochSeconds(t) < 0 && t.millis > 0 ==> r == (EpochSeconds(t) + 1) * 1000
  {
    var whole := EpochSeconds(t);
    var truncated := if whole < 0 && t.millis > 0 then whole + 1 else whole;
    Millis(truncated)
  }

  /** `get_last_modified`: absent time gives None, otherwise the epoch milliseconds. */
  function LastModified(n: Node): (r: Option<int>)
    ensures r.None? <==> n.modifiedTime.None?
    ensures r.Some? ==> r.value % 1000 == 0
  {
    if n.modifiedTime.Some? then Some(FormatDate(n.modifiedTime.value)) else None
  }

  /** From the epoch on, the sub-second part is dropped: two times that differ only in it give the same value. */
  lemma SubSecondDropped(t: Timestamp, millis: int)
    requires ValidTimestamp(t) && 0 <= millis < 1000
    requires EpochSeconds(t) >= 0
    ensures FormatDate(t.(millis := millis)) == FormatDate(t)
  {
  }

  /** The epoch itself is 0, and 2019-01-01T00:00:00Z is 1546300800000. */
  lemma FormatDateKnownValues(ms: int)
    requires 0 <= ms < 1000
    ensures FormatDate(Timestamp(1970, 1, 1, 0, 0, 0, ms)) == 0
    ensures FormatDate(Timestamp(2019, 1, 1, 0, 0, 0, ms)) == 1546300800000
  {
  }

  /** Days in a year are consecutive: the ordinal of the first day of a month follows the last day of the previous one. */
  lemma OrdinalMonthStep(y: int, m: int)
    requires 1 <= y && 1 <= m < 12
    ensures Ordinal(y, m + 1, 1) == Ordinal(y, m, DaysInMonth(y, m)) + 1
  {
  }

  // ---------------------------------------------------------------------------
  // Query text
  // ---------------------------------------------------------------------------

  /**
   * A lookup request: candidate parent ids, optional exact name, optional name
   * substring, optional trashed flag.
   */
  datatype Query = Query(parents: seq<Id>, name: Option<string>, nameContains: Option<string>, trashed: Option<bool>)

  function ParentClause(id: Id): string {
    "'" + id + "' in parents"
  }

  /** The parent clauses joined by " or ". */
  function ParentClauses(ids: seq<Id>): string {
    if ids == [] then ""
    else if |ids| == 1 then ParentClause(ids[0])
    else ParentClauses(ids[..|ids| - 1]) + " or " + ParentClause(ids[|ids| - 1])
  }

  function TrashedClause(trashed: Option<bool>): string {
    if trashed.None? then "" else " and trashed=" + (if trashed.value then "true" else "false")
  }

  function NameClause(name: Option<string>): string {
    if name.None? then "" else " and name='" + name.value + "'"
  }

  function ContainsClause(sub: Option<string>): string {
    if sub.None? then "" else " and name contains '" + sub.value + "'"
  }

  /** The query text: parenthesised parent clauses, then the trashed, name and contains filters in that order. */
  function QueryText(q: Query): string {
    "(" + ParentClauses(q.parents) + ")" + TrashedClause(q.trashed) + NameClause(q.name) + ContainsClause(q.nameContains)
  }

  /** `query_parents_in`: the flag loop that separates the parent clauses. */
  method QueryParentsIn(q: Query) returns (query: string)
    ensures query == QueryText(q)
  {
    query := "(";
    var isFirst := true;
    var i := 0;
    while i < |q.parents|
      invariant 0 <= i <= |q.parents|
      invariant isFirst <==> i == 0
      invariant query == "(" + ParentClauses(q.parents[..i])
    {
      if isFirst {
        isFirst := false;
      } else {
        query := query + " or ";
      }
      query := query + ParentClause(q.parents[i]);
      ParentClausesSnoc(q.parents, i);
      i := i + 1;
    }
    assert q.parents[..i] == q.parents;
    query := query + ")";
    ghost var head := query;
    if q.trashed.Some? {
      query := query + " and trashed=" + (if q.trashed.value then "true" else "false");
    }
    assert query == head + TrashedClause(q.trashed);
    ghost var withTrashed := query;
    if q.name.Some? {
      query := query + " and name='" + q.name.value + "'";
    }
    assert query == withTrashed + NameClause(q.name);
    ghost var withName := query;
    if q.nameContains.Some? {
      query := query + " and name contains '" + q.nameContains.value + "'";
    }
    assert query == withName + ContainsClause(q.nameContains);
  }

  lemma ParentClausesSnoc(ids: seq<Id>, i: int)
    requires 0 <= i < |ids|
    ensures ParentClauses(ids[..i + 1]) == if i == 0 then ParentClause(ids[0]) else ParentClauses(ids[..i]) + " or " + ParentClause(ids[i])
  {
    assert ids[..i + 1][..i] == ids[..i];
  }

  /** A one-parent query with no filters is just the single clause in parentheses. */
  lemma QueryTextSingleParent(id: Id)
    ensures QueryText(Query([id], None, None, None)) == "('" + id + "' in parents)"
  {
  }

  // ---------------------------------------------------------------------------
  // keep_files_with
  // ---------------------------------------------------------------------------

  /** What the loop of `keep_files_with` appends for one item: once per filter it passes. */
  function KeepStep(item: Node, name: Option<string>, prefix: Option<string>): seq<Node> {
    (if prefix.Some? && StartsWith(item.name, prefix.value) then [item] else [])
    + (if name.Some? && item.name == name.value then [item] else [])
  }

  function KeepSpec(items: seq<Node>, name: Option<string>, prefix: Option<string>): seq<Node> {
    if items == [] then []
    else KeepSpec(items[..|items| - 1], name, prefix) + KeepStep(items[|items| - 1], name, prefix)
  }

  /** `keep_files_with(items, name, name_starting_with)`. */
  method KeepFilesWith(items: seq<Node>, name: Option<string>, prefix: Option<string>) returns (ret: seq<Node>)
    ensures ret == KeepSpec(items, name, prefix)
  {
    ret := [];
    var i := 0;
    while i < |items|
      invariant 0 <= i <= |items|
      invariant ret == KeepSpec(items[..i], name, prefix)
    {
      var item := items[i];
      if prefix.Some? {
        if StartsWith(item.name, prefix.value) {
          ret := ret + [item];
        }
      }
      if name.Some? {
        if item.name == name.value {
          ret := ret + [item];
        }
      }
      assert items[..i + 1][..i] == items[..i];
      i := i + 1;
    }
    assert items[..i] == items;
  }

  /** The items named exactly `name`, in their original order. */
  function NamedExactly(items: seq<Node>, name: string): (r: seq<Node>)
    ensures forall x :: x in r ==> x in items && x.name == name
    ensures forall x :: x in items && x.name == name ==> x in r
  {
    if items == [] then []
    else (if items[0].name == name then [items[0]] else []) + NamedExactly(items[1..], name)
  }

  /** The items whose name starts with `prefix`, in their original order. */
  function NamedStartingWith(items: seq<Node>, prefix: string): (r: seq<Node>)
    ensures forall x :: x in r ==> x in items && StartsWith(x.name, prefix)
    ensures forall x :: x in items && StartsWith(x.name, prefix) ==> x in r
  {
    if items == [] then []
    else (if StartsWith(items[0].name, prefix) then [items[0]] else []) + NamedStartingWith(items[1..], prefix)
  }

  lemma {:induction false} NamedExactlySnoc(items: seq<Node>, x: Node, name: string)
    ensures NamedExactly(items + [x], name) == NamedExactly(items, name) + (if x.name == name then [x] else [])
    decreases |items|
  {
    if items == [] {
      assert [] + [x] == [x];
      assert [x][1..] == [];
    } else {
      assert (items + [x])[1..] == items[1..] + [x];
      NamedExactlySnoc(items[1..], x, name);
    }
  }

  lemma {:induction false} NamedStartingWithSnoc(items: seq<Node>, x: Node, prefix: string)
    ensures NamedStartingWith(items + [x], prefix) == NamedStartingWith(items, prefix) + (if StartsWith(x.name, prefix) then [x] else [])
    decreases |items|
  {
    if items == [] {
      assert [] + [x] == [x];
      assert [x][1..] == [];
    } else {
      assert (items + [x])[1..] == items[1..] + [x];
      NamedStartingWithSnoc(items[1..], x, prefix);
    }
  }

  /** With only a name filter, `keep_files_with` keeps exactly the items of that name, in order. */
  lemma {:induction false} KeepByName(items: seq<Node>, name: string)
    ensures KeepSpec(items, Some(name), None) == NamedExactly(items, name)
    decreases |items|
  {
    if items != [] {
      var pre, x := items[..|items| - 1], items[|items| - 1];
      KeepByName(pre, name);
      assert pre + [x] == items;
      assert KeepSpec(items, Some(name), None) == KeepSpec(pre, Some(name), None) + KeepStep(x, Some(name), None);
      NamedExactlySnoc(pre, x, name);
      assert KeepStep(x, Some(name), None) == (if x.name == name then [x] else []);
    }
  }

  /** With only a prefix filter, `keep_files_with` keeps exactly the items starting with it, in order. */
  lemma {:induction false} KeepByPrefix(items: seq<Node>, prefix: string)
    ensures KeepSpec(items, None, Some(prefix)) == NamedStartingWith(items, prefix)
    decreases |items|
  {
    if items != [] {
      var pre, x := items[..|items| - 1], items[|items| - 1];
      KeepByPrefix(pre, prefix);
      assert pre + [x] == items;
      assert KeepSpec(items, None, Some(prefix)) == KeepSpec(pre, None, Some(prefix)) + KeepStep(x, None, Some(prefix));
      NamedStartingWithSnoc(pre, x, prefix);
      assert KeepStep(x, None, Some(prefix)) == (if StartsWith(x.name, prefix) then [x] else []);
    }
  }

  /** The resolver's two-phase filter (prefix, then exact) keeps exactly the exact matches. */
  lemma {:induction false} TwoPhaseFilter(items: seq<Node>, token: string)
    ensures NamedExactly(NamedStartingWith(items, token), token) == NamedExactly(items, token)
    decreases |items|
  {
    if items != [] {
      TwoPhaseFilter(items[1..], token);
      var x := items[0];
      var rest := NamedStartingWith(items[1..], token);
      if StartsWith(x.name, token) {
        assert ([x] + rest)[0] == x && ([x] + rest)[1..] == rest;
      } else {
        assert [] + rest == rest;
      }
    }
  }

  // ---------------------------------------------------------------------------
  // get_files_ids / remove_duplicates
  // ---------------------------------------------------------------------------

  predicate NoDuplicates(s: seq<Id>) {
    forall i, j :: 0 <= i < j < |s| ==> s[i] != s[j]
  }

  function IdsOf(items: seq<Node>): (r: seq<Id>)
    ensures |r| == |items|
    ensures forall i :: 0 <= i < |items| ==> r[i] == items[i].id
  {
    if items == [] then [] else IdsOf(items[..|items| - 1]) + [items[|items| - 1].id]
  }

  /**
   * `remove_duplicates`, that is `list(set(to_filter))`. Python leaves the
   * order of the list unspecified; this keeps first occurrences, which is one
   * of the orders it may produce.
   */
  function RemoveDuplicates(s: seq<Id>): (r: seq<Id>)
    ensures NoDuplicates(r)
    ensures forall x :: x in r <==> x in s
  {
    if s == [] then []
    else
      var pre := RemoveDuplicates(s[..|s| - 1]);
      var x := s[|s| - 1];
      assert forall y :: y in s <==> y in s[..|s| - 1] || y == x by {
        assert s == s[..|s| - 1] + [x];
      }
      if x in pre then pre else pre + [x]
  }

  /** `get_files_ids`: collect the ids in a loop, then drop duplicates. */
  method GetFilesIds(files: seq<Node>) returns (ids: seq<Id>)
    ensures NoDuplicates(ids)
    ensures forall id :: id in ids <==> exists f :: f in files && f.id == id
  {
    var parents := [];
    var i := 0;
    while i < |files|
      invariant 0 <= i <= |files|
      invariant parents == IdsOf(files[..i])
    {
      parents := parents + [files[i].id];
      assert files[..i + 1][..i] == files[..i];
      i := i + 1;
    }
    assert files[..i] == files;
    ids := RemoveDuplicates(parents);
    forall id
      ensures id in ids <==> exists f :: f in files && f.id == id
    {
      if id in ids {
        var k :| 0 <= k < |parents| && parents[k] == id;
        assert files[k] in files;
      }
      if exists f :: f in files && f.id == id {
        var f :| f in files && f.id == id;
        var k :| 0 <= k < |files| && files[k] == f;
        assert parents[k] == id;
      }
    }
  }
}
