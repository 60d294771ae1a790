/**
  The task store: the task file and the operations that read it, change the
  loaded list in memory and write the whole list back.  Update, delete and
  change status follow the source's shape: load, scan for the first record
  with the id, update the loaded list at that position, write, and stop; when
  the scan finds nothing, nothing is written.
 */
module TaskStore {
  import opened TaskRecords

  class Store {
    /** What the task file holds. */
    var file: FileState
    /** How many times the whole list has been written back to the file. */
    ghost var writes: nat

    constructor (initial: FileState)
      ensures file == initial && writes == 0
    {
      file := initial;
      writes := 0;
    }

    /** Writing the list replaces whatever the file held before, so reading
        it back yields exactly the list written. */
    method WriteTasks(tasks: seq<Task>)
      modifies this
      ensures file == Contents(tasks) && Load(file) == tasks
      ensures writes == old(writes) + 1
    {
      file := Contents(tasks);
      writes := writes + 1;
    }

    /** Adds a task with the next id and returns that id; the list is always
        written back, even when the file was missing or malformed. */
    method AddTask(description: string, now: string) returns (id: int)
      modifies this
      ensures id == NextId(Load(old(file)))
      ensures file == Contents(WithNewTask(Load(old(file)), description, now))
      ensures writes == old(writes) + 1
    {
      var tasks := Load(file);
      id := 1;
      if tasks != [] {
        id := MaxId(tasks) + 1;
      }
      var task := Task(id, description, Todo, now, now);
      tasks := tasks + [task];
      WriteTasks(tasks);
    }

    /** Lists the stored tasks, all of them or those with the given status.
        This is the file-reading counterpart of `Listed`: it loads the file,
        takes the same steps as the source and is proved to agree with it. */
    method ListTasks(statusFilter: Option<string>) returns (r: Listing)
      ensures r == Listed(Load(file), statusFilter)
      ensures r.Rows? ==> forall t :: t in r.tasks ==> t in Load(file)
    {
      var tasks := Load(file);
      if tasks == [] {
        return NoTasks;
      }
      if FilterActive(statusFilter) {
        var matching := WithStatus(tasks, statusFilter.value);
        if matching == [] {
          return NoneWithStatus(statusFilter.value);
        }
        tasks := matching;
      }
      r := Rows(tasks);
    }

    /** Sets the description of the first task with the id and refreshes its
        updatedAt; reports whether such a task was found.  When none is, the
        file is left as it was and not written. */
    method UpdateTask(taskId: int, description: string, now: string) returns (found: bool)
      modifies this
      ensures var r := UpdateDescription(Load(old(file)), taskId, description, now);
        && found == r.Some?
        && (found ==> file == Contents(r.value) && writes == old(writes) + 1)
        && (!found ==> file == old(file) && writes == old(writes))
    {
      var tasks := Load(file);
      var i := 0;
      while i < |tasks|
        invariant 0 <= i <= |tasks| && tasks == Load(file)
        invariant file == old(file) && writes == old(writes)
        invariant forall k :: 0 <= k < i ==> tasks[k].id != taskId
      {
        if tasks[i].id == taskId {
          FirstIndexIsUnique(tasks, taskId, i);
          tasks := tasks[i := tasks[i].(description := description, updatedAt := now)];
          WriteTasks(tasks);
          return true;
        }
        i := i + 1;
      }
      return false;
    }

    /** Removes the first task with the id from its position; reports whether
        such a task was found.  When none is, the file is left as it was and
        not written. */
    method DeleteTask(taskId: int) returns (found: bool)
      modifies this
      ensures var r := Delete(Load(old(file)), taskId);
        && found == r.Some?
        && (found ==> file == Contents(r.value) && writes == old(writes) + 1)
        && (!found ==> file == old(file) && writes == old(writes))
    {
      var tasks := Load(file);
      var i := 0;
      while i < |tasks|
        invariant 0 <= i <= |tasks| && tasks == Load(file)
        invariant file == old(file) && writes == old(writes)
        invariant forall k :: 0 <= k < i ==> tasks[k].id != taskId
      {
        if tasks[i].id == taskId {
          FirstIndexIsUnique(tasks, taskId, i);
          tasks := tasks[..i] + tasks[i + 1..];
          WriteTasks(tasks);
          return true;
        }
        i := i + 1;
      }
      return false;
    }

    /** Sets the status of the first task with the id to any string and
        refreshes its updatedAt; reports whether such a task was found.  When
        none is, the file is left as it was and not written. */
    method ChangeTaskStatus(taskId: int, status: string, now: string) returns (found: bool)
      modifies this
      ensures var r := UpdateStatus(Load(old(file)), taskId, status, now);
        && found == r.Some?
        && (found ==> file == Contents(r.value) && writes == old(writes) + 1)
        && (!found ==> file == old(file) && writes == old(writes))
    {
      var tasks := Load(file);
      var i := 0;
      while i < |tasks|
        invariant 0 <= i <= |tasks| && tasks == Load(file)
        invariant file == old(file) && writes == old(writes)
        invariant forall k :: 0 <= k < i ==> tasks[k].id != taskId
      {
        if tasks[i].id == taskId {
          FirstIndexIsUnique(tasks, taskId, i);
          tasks := tasks[i := tasks[i].(status := status, updatedAt := now)];
          WriteTasks(tasks);
          return true;
        }
        i := i + 1;
      }
      return false;
    }
  }
}
