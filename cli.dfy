/**
  The command dispatch of the tracker's entry point: which store operation a
  command line selects, with which arguments.  The arguments are the words
  after the program name; task ids stay as the text the user typed.
 */
module TaskCli {
  import opened TaskRecords

  /** The outcome of dispatching one command line. */
  datatype Command =
    | GeneralUsage                              // no command word
    | MissingArguments(command: string)         // a known command with too few words
    | AddTask(description: string)
    | ListTasks(statusFilter: Option<string>)
    | InvalidStatusFilter(token: string)
    | NoAction                                  // `list` followed by two or more words
    | UpdateTask(idText: string, description: string)
    | DeleteTask(idText: string)
    | ChangeTaskStatus(idText: string, status: string)
    | Help
    | UnknownCommand(command: string)

  /** The status tokens `list` accepts and the status each stands for. */
  const StatusMap: map<string, string> :=
    map[Todo := Todo, InProgress := InProgress, Done := Done]

  /** Maps the words after the program name to the command they select.
      Surplus words after a command's arguments are ignored, except after
      `list`, where two or more words select nothing at all. */
  function ParseCommand(args: seq<string>): (r: Command)
    ensures r == GeneralUsage <==> args == []
    ensures r.ListTasks? && r.statusFilter.Some? ==> r.statusFilter.value in StatusMap.Values
    ensures r.ChangeTaskStatus? ==> r.status == InProgress || r.status == Done
    ensures r.InvalidStatusFilter? ==> r.token !in StatusMap
  {
    if |args| < 1 then GeneralUsage
    else
      var command := args[0];
      if command == "add" then
        if |args| < 2 then MissingArguments(command) else AddTask(args[1])
      else if command == "list" then
        if |args| == 1 then ListTasks(None)
        else if |args| == 2 then
          if args[1] in StatusMap then ListTasks(Some(StatusMap[args[1]]))
          else InvalidStatusFilter(args[1])
        else NoAction
      else if command == "update" then
        if |args| < 3 then MissingArguments(command) else UpdateTask(args[1], args[2])
      else if command == "delete" then
        if |args| < 2 then MissingArguments(command) else DeleteTask(args[1])
      else if command == "mark-in-progress" then
        if |args| < 2 then MissingArguments(command) else ChangeTaskStatus(args[1], InProgress)
      else if command == "mark-done" then
        if |args| < 2 then MissingArguments(command) else ChangeTaskStatus(args[1], Done)
      else if command == "help" then Help
      else UnknownCommand(command)
  }

  /** `list <token>` lists by that very status exactly when the token is one
      of todo, in-progress and done; any other token is refused without
      listing anything. */
  lemma ListTokenIsValidated(token: string)
    ensures ParseCommand(["list", token]) == ListTasks(Some(token))
        <==> token == Todo || token == InProgress || token == Done
    ensures ParseCommand(["list", token]) != ListTasks(Some(token))
        ==> ParseCommand(["list", token]) == InvalidStatusFilter(token)
  {
  }

  /** The two marking commands set the fixed statuses in-progress and done
      on the task named by their first argument. */
  lemma MarkCommandsSetFixedStatus(args: seq<string>)
    requires |args| >= 2
    ensures args[0] == "mark-in-progress" ==> ParseCommand(args) == ChangeTaskStatus(args[1], InProgress)
    ensures args[0] == "mark-done" ==> ParseCommand(args) == ChangeTaskStatus(args[1], Done)
  {
  }
}
