/**
  The task records of the tracker and the pure logic over them: loading the
  task file, choosing the next id, finding a task by id, filtering by status,
  and the value-level meaning of the four mutations (add, update description,
  change status, delete).  The store class in store.dfy performs these
  mutations step by step and is proved against the functions defined here.
 */
module TaskRecords {

  datatype Option<T> = None | Some(value: T)

  /** One record of the task file.  Timestamps are the ISO-8601 text that the
      clock produced when the record was written; they are not interpreted. */
  datatype Task = Task(
    id: int,
    description: string,
    status: string,
    createdAt: string,
    updatedAt: string)

  /** What the task file holds when an operation starts. */
  datatype FileState =
    | Absent                      // no file at that path
    | Malformed                   // the file does not decode as JSON
    | Contents(tasks: seq<Task>)  // a decoded list of well-formed records

  const Todo: string := "todo"
  const InProgress: string := "in-progress"
  const Done: string := "done"

  /** The ids in stored order. */
  function Ids(s: seq<Task>): seq<int>
  {
    seq(|s|, k requires 0 <= k < |s| => s[k].id)
  }

  /** No two records share an id. */
  predicate UniqueIds(s: seq<Task>)
  {
    forall i, j :: 0 <= i < j < |s| ==> s[i].id != s[j].id
  }

  // ---------------------------------------------------------------- loading

  /** Reading the task file: a missing file and a file that fails to decode
      both load as the empty list; otherwise the decoded list is returned. */
  function Load(f: FileState): (r: seq<Task>)
    ensures f.Contents? ==> r == f.tasks
    ensures f == Absent || f == Malformed ==> r == []
  {
    match f
    case Contents(tasks) => tasks
    case _ => []
  }

  // -------------------------------------------------------------------- ids

  /** The largest id in a non-empty list, scanned left to right. */
  function MaxId(s: seq<Task>): (r: int)
    requires s != []
    ensures forall k :: 0 <= k < |s| ==> s[k].id <= r
    ensures exists k :: 0 <= k < |s| && s[k].id == r
  {
    if |s| == 1 then s[0].id
    else
      var m := MaxId(s[..|s| - 1]);
      assert forall k :: 0 <= k < |s| - 1 ==> s[..|s| - 1][k] == s[k];
      if s[|s| - 1].id > m then s[|s| - 1].id else m
  }

  /** The id given to a new task: 1 for an empty list, otherwise one more
      than the largest id present.  It exceeds every id in the list, and it is
      the least such value, since some record holds id r - 1. */
  function NextId(s: seq<Task>): (r: int)
    ensures s == [] ==> r == 1
    ensures forall k :: 0 <= k < |s| ==> s[k].id < r
    ensures s != [] ==> exists k :: 0 <= k < |s| && s[k].id == r - 1
  {
    if s == [] then 1 else MaxId(s) + 1
  }

  // --------------------------------------------------------------- look-up

  /** The position of the first record whose id is `id`, if any. */
  function FirstIndex(s: seq<Task>, id: int): (r: Option<nat>)
    ensures r.None? <==> forall k :: 0 <= k < |s| ==> s[k].id != id
    ensures r.Some? ==> r.value < |s| && s[r.value].id == id
    ensures r.Some? ==> forall k :: 0 <= k < r.value ==> s[k].id != id
  {
    if s == [] then None
    else if s[0].id == id then Some(0)
    else
      match FirstIndex(s[1..], id)
      case None => None
      case Some(i) => Some(i + 1)
  }

  /** A position that holds `id` with no earlier record holding it is the
      position FirstIndex reports. */
  lemma FirstIndexIsUnique(s: seq<Task>, id: int, i: nat)
    requires i < |s| && s[i].id == id
    requires forall k :: 0 <= k < i ==> s[k].id != id
    ensures FirstIndex(s, id) == Some(i)
  {
  }

  // ------------------------------------------------------------- filtering

  /** The records whose status equals `status`, in stored order. */
  function WithStatus(s: seq<Task>, status: string): (r: seq<Task>)
    ensures |r| <= |s|
    ensures forall k :: 0 <= k < |r| ==> r[k].status == status
    ensures forall t :: t in r <==> t in s && t.status == status
  {
    if s == [] then []
    else
      var p := s[..|s| - 1];
      assert s == p + [s[|s| - 1]];
      WithStatus(p, status) + (if s[|s| - 1].status == status then [s[|s| - 1]] else [])
  }

  /** The positions of the records whose status equals `status`, ascending. */
  function MatchingPositions(s: seq<Task>, status: string): (idx: seq<nat>)
  {
    if s == [] then []
    else
      MatchingPositions(s[..|s| - 1], status)
        + (if s[|s| - 1].status == status then [|s| - 1] else [])
  }

  /** WithStatus selects exactly the matching records and keeps their
      relative order: its k-th result is the record at the k-th matching
      position, the positions ascend, and a position is among them exactly
      when its record has the status. */
  lemma {:induction false} WithStatusIsOrderedSelection(s: seq<Task>, status: string)
    ensures var idx := MatchingPositions(s, status);
      var r := WithStatus(s, status);
      && |idx| == |r|
      && (forall k :: 0 <= k < |idx| ==> idx[k] < |s| && r[k] == s[idx[k]])
      && (forall k, l :: 0 <= k < l < |idx| ==> idx[k] < idx[l])
      && (forall i :: 0 <= i < |s| ==> (s[i].status == status <==> i in idx))
  {
    if s != [] {
      var p := s[..|s| - 1];
      WithStatusIsOrderedSelection(p, status);
      assert forall k :: 0 <= k < |p| ==> p[k] == s[k];
    }
  }

  /** Filtering distributes over concatenation. */
  lemma {:induction false} WithStatusAppend(a: seq<Task>, b: seq<Task>, status: string)
    ensures WithStatus(a + b, status) == WithStatus(a, status) + WithStatus(b, status)
  {
    if b == [] {
      assert a + b == a;
    } else {
      var q, last := b[..|b| - 1], b[|b| - 1];
      var tail := if last.status == status then [last] else [];
      WithStatusAppend(a, q, status);
      assert (a + b)[..|a + b| - 1] == a + q;
      assert (a + b)[|a + b| - 1] == last;
      calc {
        WithStatus(a + b, status);
        WithStatus(a + q, status) + tail;
        (WithStatus(a, status) + WithStatus(q, status)) + tail;
        WithStatus(a, status) + (WithStatus(q, status) + tail);
        WithStatus(a, status) + WithStatus(b, status);
      }
    }
  }

  // --------------------------------------------------------------- listing

  /** What a listing shows: nothing because the store is empty, nothing
      because no record has the requested status, or a non-empty table. */
  datatype Listing =
    | NoTasks
    | NoneWithStatus(status: string)
    | Rows(tasks: seq<Task>)

  /** A status filter is in force only when it is present and not the empty
      string (an absent or empty filter is falsy in the source). */
  predicate FilterActive(statusFilter: Option<string>)
  {
    statusFilter.Some? && statusFilter.value != ""
  }

  /** The listing of a store under an optional status filter. */
  function Listed(s: seq<Task>, statusFilter: Option<string>): (r: Listing)
    ensures r == NoTasks <==> s == []
    ensures r.NoneWithStatus? ==>
      FilterActive(statusFilter) && r.status == statusFilter.value &&
      forall k :: 0 <= k < |s| ==> s[k].status != r.status
    ensures r.Rows? ==> r.tasks != []
    ensures r.Rows? && !FilterActive(statusFilter) ==> r.tasks == s
    ensures r.Rows? && FilterActive(statusFilter) ==>
      r.tasks == WithStatus(s, statusFilter.value) &&
      forall t :: t in r.tasks <==> t in s && t.status == statusFilter.value
  {
    if s == [] then NoTasks
    else if FilterActive(statusFilter) then
      var matching := WithStatus(s, statusFilter.value);
      if matching == [] then NoneWithStatus(statusFilter.value) else Rows(matching)
    else Rows(s)
  }

  // ------------------------------------------------------------- mutations

  /** The list after adding a task: one record appended at the end, with a
      fresh id, status todo and equal timestamps; the earlier records are
      kept as they were and in the same order. */
  function WithNewTask(s: seq<Task>, description: string, now: string): (r: seq<Task>)
    ensures |r| == |s| + 1 && r[..|s|] == s
    ensures r[|s|].id == NextId(s)
    ensures forall k :: 0 <= k < |s| ==> s[k].id < r[|s|].id
    ensures r[|s|].description == description && r[|s|].status == Todo
    ensures r[|s|].createdAt == now && r[|s|].updatedAt == now
  {
    s + [Task(NextId(s), description, Todo, now, now)]
  }

  /** Setting the description of the first record with `id`: None when no
      record has that id; otherwise only that record's description and
      updatedAt change. */
  function UpdateDescription(s: seq<Task>, id: int, description: string, now: string)
    : (r: Option<seq<Task>>)
    ensures r.None? <==> forall k :: 0 <= k < |s| ==> s[k].id != id
    ensures r.Some? ==> |r.value| == |s| && Ids(r.value) == Ids(s)
    ensures r.Some? ==> var i := FirstIndex(s, id).value;
      && r.value[i].description == description && r.value[i].updatedAt == now
      && r.value[i].status == s[i].status && r.value[i].createdAt == s[i].createdAt
      && forall k :: 0 <= k < |s| && k != i ==> r.value[k] == s[k]
  {
    match FirstIndex(s, id)
    case None => None
    case Some(i) => Some(s[i := s[i].(description := description, updatedAt := now)])
  }

  /** Setting the status of the first record with `id` to any string: None
      when no record has that id; otherwise only that record's status and
      updatedAt change. */
  function UpdateStatus(s: seq<Task>, id: int, status: string, now: string)
    : (r: Option<seq<Task>>)
    ensures r.None? <==> forall k :: 0 <= k < |s| ==> s[k].id != id
    ensures r.Some? ==> |r.value| == |s| && Ids(r.value) == Ids(s)
    ensures r.Some? ==> var i := FirstIndex(s, id).value;
      && r.value[i].status == status && r.value[i].updatedAt == now
      && r.value[i].description == s[i].description && r.value[i].createdAt == s[i].createdAt
      && forall k :: 0 <= k < |s| && k != i ==> r.value[k] == s[k]
  {
    match FirstIndex(s, id)
    case None => None
    case Some(i) => Some(s[i := s[i].(status := status, updatedAt := now)])
  }

  /** Removing the first record with `id`: None when no record has that id;
      otherwise the list is one shorter, the records before that position are
      unchanged and the ones after it move up by one. */
  function Delete(s: seq<Task>, id: int): (r: Option<seq<Task>>)
    ensures r.None? <==> forall k :: 0 <= k < |s| ==> s[k].id != id
    ensures r.Some? ==> |r.value| == |s| - 1
    ensures r.Some? ==> var i := FirstIndex(s, id).value;
      && (forall k :: 0 <= k < i ==> r.value[k] == s[k])
      && (forall k :: i <= k < |r.value| ==> r.value[k] == s[k + 1])
  {
    match FirstIndex(s, id)
    case None => None
    case Some(i) => Some(s[..i] + s[i + 1..])
  }

  // ---------------------------------------------------------------- lemmas

  /** Adding keeps ids unique, because the new id exceeds every stored id. */
  lemma AddPreservesUniqueIds(s: seq<Task>, description: string, now: string)
    requires UniqueIds(s)
    ensures UniqueIds(WithNewTask(s, description, now))
  {
    var r := WithNewTask(s, description, now);
    forall i, j | 0 <= i < j < |r| ensures r[i].id != r[j].id {
      assert r[i] == s[i];
      if j < |s| {
        assert r[j] == s[j];
      }
    }
  }

  /** Each add raises the next id by exactly one, so the ids handed out by a
      run of adds strictly increase. */
  lemma {:induction false} NextIdAfterAdd(s: seq<Task>, description: string, now: string)
    ensures NextId(WithNewTask(s, description, now)) == NextId(s) + 1
  {
    var r := WithNewTask(s, description, now);
    if s != [] {
      assert r[..|r| - 1] == s;
      assert MaxId(r) == r[|s|].id;
    }
  }

  /** Right after an add, listing by status todo ends with the new task. */
  lemma AddedTaskIsListedAsTodo(s: seq<Task>, description: string, now: string)
    ensures WithStatus(WithNewTask(s, description, now), Todo)
         == WithStatus(s, Todo) + [Task(NextId(s), description, Todo, now, now)]
  {
    var t := Task(NextId(s), description, Todo, now, now);
    WithStatusAppend(s, [t], Todo);
    assert WithStatus([t], Todo) == WithStatus([], Todo) + [t];
  }

  /** Updates and status changes keep ids unique: they never touch an id. */
  lemma UpdatesPreserveUniqueIds(s: seq<Task>, id: int, text: string, now: string)
    requires UniqueIds(s)
    ensures UpdateDescription(s, id, text, now).Some? ==>
      UniqueIds(UpdateDescription(s, id, text, now).value)
    ensures UpdateStatus(s, id, text, now).Some? ==>
      UniqueIds(UpdateStatus(s, id, text, now).value)
  {
    var u := UpdateDescription(s, id, text, now);
    if u.Some? {
      forall k | 0 <= k < |s| ensures u.value[k].id == s[k].id {
        assert Ids(u.value)[k] == Ids(s)[k];
      }
    }
    var v := UpdateStatus(s, id, text, now);
    if v.Some? {
      forall k | 0 <= k < |s| ensures v.value[k].id == s[k].id {
        assert Ids(v.value)[k] == Ids(s)[k];
      }
    }
  }

  /** Deleting keeps ids unique, and with unique ids the deleted id is gone:
      deleting it a second time finds nothing. */
  lemma DeletePreservesUniqueIds(s: seq<Task>, id: int)
    requires UniqueIds(s)
    ensures Delete(s, id).Some? ==> UniqueIds(Delete(s, id).value)
    ensures Delete(s, id).Some? ==> Delete(Delete(s, id).value, id).None?
  {
    var d := Delete(s, id);
    if d.Some? {
      var i := FirstIndex(s, id).value;
      var r := d.value;
      forall a, b | 0 <= a < b < |r| ensures r[a].id != r[b].id {
        var a' := if a < i then a else a + 1;
        var b' := if b < i then b else b + 1;
        assert r[a] == s[a'] && r[b] == s[b'];
      }
      forall k | 0 <= k < |r| ensures r[k].id != id {
        var k' := if k < i then k else k + 1;
        assert r[k] == s[k'];
      }
    }
  }

  /** Ids can be reissued: deleting the task an add just created restores
      the earlier list exactly, so the next add hands out the same id again. */
  lemma DeleteNewestRestoresStore(s: seq<Task>, description: string, now: string)
    ensures Delete(WithNewTask(s, description, now), NextId(s)) == Some(s)
    ensures NextId(Delete(WithNewTask(s, description, now), NextId(s)).value) == NextId(s)
  {
    var r := WithNewTask(s, description, now);
    FirstIndexIsUnique(r, NextId(s), |s|);
    assert r[..|s|] + r[|s| + 1..] == s;
  }
}
