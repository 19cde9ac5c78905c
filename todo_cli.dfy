/**
  The to-do program's commands: `add` appends a task, `done` marks every
  task with a given description, `list` shows the tasks. Each command reads
  the task file, and `add` and `done` write it back. The file is passed in
  as its text and the text written back is returned.
 */
module TodoCli {
  import opened Text
  import opened Wrappers
  import opened Tasks

  /** Whether some task has description `description`. */
  predicate HasTask(tasks: seq<Task>, description: string)
  {
    exists k :: 0 <= k < |tasks| && tasks[k].description == description
  }

  /** The list after `mark_done`: every task with the description is done, every other task is as it was. */
  function MarkMatching(tasks: seq<Task>, description: string): (marked: seq<Task>)
    ensures |marked| == |tasks|
    ensures forall k :: 0 <= k < |tasks| ==>
      marked[k] == if tasks[k].description == description then tasks[k].MarkDone() else tasks[k]
  {
    if tasks == [] then []
    else
      var first := if tasks[0].description == description then tasks[0].MarkDone() else tasks[0];
      [first] + MarkMatching(tasks[1..], description)
  }

  /** The walk of `mark_done` over the loaded tasks, updating them in place and tracking `found`. */
  method MarkMatchingInPlace(tasks: array<Task>, description: string) returns (found: bool)
    modifies tasks
    ensures tasks[..] == MarkMatching(old(tasks[..]), description)
    ensures found <==> HasTask(old(tasks[..]), description)
  {
    found := false;
    for i := 0 to tasks.Length
      invariant forall k :: 0 <= k < i ==>
        tasks[k] == if old(tasks[k]).description == description then old(tasks[k]).MarkDone() else old(tasks[k])
      invariant forall k :: i <= k < tasks.Length ==> tasks[k] == old(tasks[k])
      invariant found <==> exists k :: 0 <= k < i && old(tasks[k]).description == description
    {
      if tasks[i].description == description {
        tasks[i] := tasks[i].MarkDone();
        found := true;
      }
    }
  }

  /** `add_task`: loads the tasks, appends a new undone task and saves them. */
  method AddTask(file: string, description: string) returns (saved: string)
    ensures saved == SaveText(ParseTasks(file) + [Task.New(description)])
  {
    var tasks := LoadTasks(file);
    tasks := tasks + [Task.New(description)];
    saved := SaveTasks(tasks);
  }

  /** `mark_done`: loads the tasks, marks the matching ones, saves them (found or not) and reports `found`. */
  method MarkDone(file: string, description: string) returns (saved: string, found: bool)
    ensures saved == SaveText(MarkMatching(ParseTasks(file), description))
    ensures found <==> HasTask(ParseTasks(file), description)
  {
    var loaded := LoadTasks(file);
    var tasks := new Task[|loaded|](k requires 0 <= k < |loaded| => loaded[k]);
    assert tasks[..] == loaded;
    found := MarkMatchingInPlace(tasks, description);
    saved := SaveTasks(tasks[..]);
  }

  /** Marking twice with the same description changes nothing more. */
  lemma MarkMatchingIdempotent(tasks: seq<Task>, description: string)
    ensures MarkMatching(MarkMatching(tasks, description), description) == MarkMatching(tasks, description)
  {
  }

  /** After `done`, every task with the description is done and the tasks are found exactly when one matched. */
  lemma MarkMatchingDone(tasks: seq<Task>, description: string)
    ensures HasTask(MarkMatching(tasks, description), description) <==> HasTask(tasks, description)
    ensures forall k :: 0 <= k < |tasks| && tasks[k].description == description ==>
      MarkMatching(tasks, description)[k].done
    ensures !HasTask(tasks, description) ==> MarkMatching(tasks, description) == tasks
  {
  }

  /** The file written by `add` loads as the old tasks followed by the new undone task. */
  lemma AddTaskPersists(file: string, description: string)
    requires ValidDescription(description)
    ensures ParseTasks(SaveText(ParseTasks(file) + [Task.New(description)])) == ParseTasks(file) + [Task.New(description)]
  {
    var tasks := ParseTasks(file) + [Task.New(description)];
    LoadedTasksValid(file);
    LoadSaveRoundTrip(tasks);
  }

  /**
    A description with a tab (and no newline) is written as a line with two
    tabs, which the next load skips: the file written by `add` loads as the
    old tasks only.
   */
  lemma AddTabbedTaskIsLost(file: string, description: string)
    requires '\t' in description && '\n' !in description
    ensures ParseTasks(SaveText(ParseTasks(file) + [Task.New(description)])) == ParseTasks(file)
  {
    var before := ParseTasks(file);
    var task := Task.New(description);
    LoadedTasksValid(file);
    assert forall k :: 0 <= k < |before + [task]| ==> '\n' !in (before + [task])[k].description;
    LinesOfSaveText(before + [task]);
    TaskLinesAppend(before, [task]);
    assert TaskLines([task]) == [TaskLine(task)];
    ParseLinesAppend(TaskLines(before), [TaskLine(task)]);
    TabbedLineSkipped(task);
    ParseTaskLines(before);
  }

  /** The line of a task whose description holds a tab has two tabs and does not parse. */
  lemma TabbedLineSkipped(task: Task)
    requires '\t' in task.description
    ensures ParseLine(TaskLine(task)) == None
  {
    var status := StatusText(task.done);
    CountAppend(task.description + "\t", status, '\t');
    CountAppend(task.description, "\t", '\t');
    CountZero(task.description, '\t');
    StatusTextPlain(task.done);
  }

  lemma {:induction false} TaskLinesAppend(a: seq<Task>, b: seq<Task>)
    ensures TaskLines(a + b) == TaskLines(a) + TaskLines(b)
  {
    if a == [] {
      assert a + b == b;
    } else {
      assert (a + b)[1..] == a[1..] + b;
      TaskLinesAppend(a[1..], b);
    }
  }

  /** The file written by `done` loads as the marked tasks: marking survives the save. */
  lemma MarkDonePersists(file: string, description: string)
    ensures ParseTasks(SaveText(MarkMatching(ParseTasks(file), description))) == MarkMatching(ParseTasks(file), description)
  {
    LoadedTasksValid(file);
    LoadSaveRoundTrip(MarkMatching(ParseTasks(file), description));
  }

  /** A command line, as `main` dispatches on its first argument. */
  datatype Command =
    | Add(description: string)
    | List
    | Done(description: string)
    | Unknown(name: string)

  /**
    `main`'s dispatch: the first argument chooses the command; the second, or
    the empty string when it is missing, is the description. The program
    panics when there is no first argument.
   */
  function ParseCommand(args: seq<string>): (command: Command)
    requires |args| >= 2
    ensures command.Add? <==> args[1] == "add"
    ensures command.List? <==> args[1] == "list"
    ensures command.Done? <==> args[1] == "done"
    ensures command.Unknown? ==> command.name == args[1]
    ensures command.Add? || command.Done? ==> command.description == if |args| > 2 then args[2] else ""
  {
    var description := if |args| > 2 then args[2] else "";
    match args[1]
    case "add" => Add(description)
    case "list" => List
    case "done" => Done(description)
    case _ => Unknown(args[1])
  }

  /** What a command reports; `list` reports the tasks it displays. */
  datatype Reply =
    | Added
    | Listed(tasks: seq<Task>)
    | MarkedDone
    | TaskDoesNotExist
    | UnknownCommand

  /** The line the program prints for a reply other than a listing. */
  function Message(reply: Reply): string
  {
    match reply
    case Added => ""
    case Listed(_) => ""
    case MarkedDone => "Marked Done"
    case TaskDoesNotExist => "Task Does Not Exist"
    case UnknownCommand => "Unknown command. Use 'add', 'list', or 'done'."
  }

  /**
    `main`: runs the command named by `args` against the task file text
    `file` and returns the file text afterwards and the reply. `list` and an
    unknown command leave the file as it was.
   */
  method Run(args: seq<string>, file: string) returns (saved: string, reply: Reply)
    requires |args| >= 2
    ensures match ParseCommand(args)
      case Add(d) => saved == SaveText(ParseTasks(file) + [Task.New(d)]) && reply == Added
      case List => saved == file && reply == Listed(ParseTasks(file))
      case Done(d) =>
        && saved == SaveText(MarkMatching(ParseTasks(file), d))
        && reply == (if HasTask(ParseTasks(file), d) then MarkedDone else TaskDoesNotExist)
      case Unknown(_) => saved == file && reply == UnknownCommand
  {
    var command := ParseCommand(args);
    match command
    case Add(d) =>
      saved := AddTask(file, d);
      reply := Added;
    case List =>
      var tasks := LoadTasks(file);
      saved, reply := file, Listed(tasks);
    case Done(d) =>
      var found;
      saved, found := MarkDone(file, d);
      reply := if found then MarkedDone else TaskDoesNotExist;
    case Unknown(_) =>
      saved, reply := file, UnknownCommand;
  }
}
