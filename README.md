# Task tracker store — a Dafny model

This project models the persistence-and-mutation layer of a small
command-line task tracker. The tracker keeps an ordered list of task records
in one JSON file. Each record has an `id`, a `description`, a `status`, and
`createdAt` and `updatedAt` timestamps. Five operations act on the list:
add, list (optionally by status), update description, delete, and change
status. Every mutation loads the whole file, updates the loaded list and
writes the whole list back. When no record has the requested id, nothing is
written.

The repository holds the store logic twice. `python/task-tracker/task_functions.py`
repeats lines 10-122 of `python/task-tracker/task-cli.py` with every line number
two lower (for example `task-cli.py:33` is `task_functions.py:31`), and it has no
entry point. The logic is modelled once, and the table below cites whichever copy
states the property most directly.

Files:

- `tasks.dfy`, module `TaskRecords`: the record and file datatypes, loading, the
  id rule, look-up by id, the status filter, the listing outcome, and the
  value-level meaning of each mutation, with lemmas about them.
- `store.dfy`, module `TaskStore`: class `Store`. Its `file` field is the task
  file and its ghost `writes` field counts whole-list writes. Add loads the
  list, appends the new task and writes the list back. Update, delete and
  change status load the list, scan for the first matching id with a loop,
  update the loaded list at that position, write it back and stop, as the
  source does. Each method is proved against the matching function in
  `TaskRecords`.
- `cli.dfy`, module `TaskCli`: how the entry point maps command words to store
  operations and status tokens.

The clock is a `now` parameter. Timestamps are opaque strings. The task file is
the abstract state `Absent | Malformed | Contents(tasks)`. Record ids are
unbounded integers, matching Python's `int`.

Behaviour worth knowing, as the code has it:

- Deleted ids can be reused. The code computes the new id as the largest
  stored id plus one, so deleting the newest task and adding again hands out
  the same id. `TaskRecords.DeleteNewestRestoresStore` proves this.
- Setting a status accepts any string, not only the three known statuses.
- `list_tasks` (`TaskRecords.Listed`, `TaskStore.Store.ListTasks`) given an
  empty-string filter lists every task, because the source tests the filter
  for truthiness. The `list` command never passes one: it refuses the empty
  token, like any token other than todo, in-progress and done.
- The `list` command followed by two or more words does nothing at all.

## Model

| member | source | states |
|---|---|---|
| `TaskRecords.Load` | python/task-tracker/task-cli.py:11-19 | a missing file and a file that fails to decode both load as the empty list; otherwise the decoded list is returned |
| `TaskRecords.MaxId` | python/task-tracker/task_functions.py:31 | the result is at least every stored id and is the id of some stored record |
| `TaskRecords.NextId` | python/task-tracker/task-cli.py:31-33 | the new id is 1 for an empty store; it exceeds every stored id; for a non-empty store some record holds id - 1, so it is exactly max + 1 |
| `TaskRecords.FirstIndex` | python/task-tracker/task_functions.py:81-82 | None exactly when no record has the id; otherwise a position holding the id with no earlier record holding it |
| `TaskRecords.WithStatus` | python/task-tracker/task-cli.py:62 | every result has the status; a record is in the result exactly when it is stored with that status; the result is no longer than the store |
| `TaskRecords.WithStatusIsOrderedSelection` | python/task-tracker/task_functions.py:59-66 | the filter's k-th result is the record at the k-th matching position; the positions ascend; a position is selected exactly when its record has the status, so the matches keep their stored order |
| `TaskRecords.Listed` | python/task-tracker/task-cli.py:53-68 | nothing-to-list exactly when the store is empty; no-match only under an active filter that no record has; an absent or empty filter lists the whole store in order; an active filter lists the filtered records, never an empty table |
| `TaskRecords.WithNewTask` | python/task-tracker/task_functions.py:34-46 | add appends one record at the end and keeps the earlier ones unchanged and in order; the new record's id is NextId of the earlier list (1, or max + 1) and exceeds every stored id; its status is todo; createdAt and updatedAt both equal the clock reading |
| `TaskRecords.UpdateDescription` | python/task-tracker/task_functions.py:76-89 | None exactly when the id is absent; otherwise only the description and updatedAt of the first record with the id change; its status and createdAt, every other record, the length and the ids stay the same |
| `TaskRecords.UpdateStatus` | python/task-tracker/task_functions.py:107-120 | None exactly when the id is absent; otherwise the first record with the id gets the given string as its status and the clock reading as updatedAt; nothing else changes |
| `TaskRecords.Delete` | python/task-tracker/task_functions.py:92-104 | None exactly when the id is absent; otherwise the list is one shorter; records before the first match are unchanged; records after it move up by one position |
| `TaskRecords.AddPreservesUniqueIds` | python/task-tracker/task-cli.py:31-48 | adding to a store with unique ids keeps the ids unique |
| `TaskRecords.NextIdAfterAdd` | python/task-tracker/task_functions.py:29-31 | each add raises the next id by exactly one, so successive adds hand out strictly increasing ids |
| `TaskRecords.AddedTaskIsListedAsTodo` | python/task-tracker/task-cli.py:36-48 | right after an add, the todo listing is the earlier todo listing followed by the new task |
| `TaskRecords.UpdatesPreserveUniqueIds` | python/task-tracker/task-cli.py:83-87 | updating a description or a status keeps the ids unique |
| `TaskRecords.DeletePreservesUniqueIds` | python/task-tracker/task-cli.py:99-102 | deleting keeps the ids unique; with unique ids, deleting the same id a second time finds nothing |
| `TaskRecords.DeleteNewestRestoresStore` | python/task-tracker/task-cli.py:33 | deleting the task an add just created restores the earlier list, so the next add reissues the same id |
| `TaskStore.Store.WriteTasks` | python/task-tracker/task-cli.py:22-24 | a write replaces the whole file with the list, so loading it back yields that list; one write is counted |
| `TaskStore.Store.AddTask` | python/task-tracker/task-cli.py:27-50 | returns the next id of the loaded list; the file afterwards holds the loaded list with the new task appended; exactly one write happens, even when the file was missing or malformed |
| `TaskStore.Store.ListTasks` | python/task-tracker/task-cli.py:53-75 | the listing is that of the loaded list under the filter; every listed task is stored |
| `TaskStore.Store.UpdateTask` | python/task-tracker/task-cli.py:78-91 | reports found exactly when the id is present; if found, the file holds the updated list and one write happens; if not, the file is untouched and no write happens |
| `TaskStore.Store.DeleteTask` | python/task-tracker/task-cli.py:94-106 | reports found exactly when the id is present; if found, the file holds the list without the first match and one write happens; if not, the file is untouched and no write happens |
| `TaskStore.Store.ChangeTaskStatus` | python/task-tracker/task-cli.py:109-122 | reports found exactly when the id is present; if found, the file holds the list with the new status and one write happens; if not, the file is untouched and no write happens |
| `TaskCli.ParseCommand` | python/task-tracker/task-cli.py:125-194 | the general usage message exactly when no command word is given; a listing filter is always one of the three statuses; marking sets only in-progress or done; a refused filter token is not a known status |
| `TaskCli.ListTokenIsValidated` | python/task-tracker/task-cli.py:143-155 | `list <token>` lists by that status exactly when the token is todo, in-progress or done; any other token is refused without listing |
| `TaskCli.MarkCommandsSetFixedStatus` | python/task-tracker/task-cli.py:169-179 | `mark-in-progress <id>` and `mark-done <id>` change the status of that id to in-progress and done |

## Left out

- JSON encoding and decoding and the file system calls are not modelled. The file is the abstract state `Absent | Malformed | Contents(tasks)`. A save-then-load round trip through JSON is therefore not proved; only the abstract write-then-load is.
- The clock is not modelled. Each operation takes the timestamp `now` as a parameter, and nothing is claimed about timestamps increasing.
- Printed messages and the fixed-width table are not modelled. The outcomes they report are results instead: the id from `AddTask`, the found flag from the mutators, and the `Listing` value from `ListTasks`. The help text is the `Help` command only.
- Converting the id argument with `int(...)` is not modelled, nor the error it raises on non-numeric text. `TaskCli.Command` keeps the id as text, and the store methods take integer ids. So dispatch and execution are not composed into one member.
- Records are assumed well shaped: an integer `id` and string fields. A decoded file that is not a list of such records is not modelled.
- Python dictionaries are mutated in place in the source. The model updates the record values in the loaded list instead. Each operation loads a fresh list, so no aliasing is observable.
- Two processes racing on the file are not modelled. The model is sequential.
