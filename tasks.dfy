/**
  The to-do list's tasks and their text file format: one task per line,
  `description<TAB>status`, where the status `done` marks a finished task
  and the program writes `not done` for every other task.
 */
module Tasks {
  import opened Wrappers
  import opened Text

  const DoneText := "done"
  const NotDoneText := "not done"

  datatype Task = Task(description: string, done: bool)
  {
    /** `Task::new`: a task that is not done yet. */
    static function New(description: string): (task: Task)
      ensures task.description == description && !task.done
    {
      Task(description, false)
    }

    /** `Task::mark_done`: the same task, now done. */
    function MarkDone(): (task: Task)
      ensures task.description == description && task.done
    {
      this.(done := true)
    }
  }

  /** A description the file format can carry: it cannot hold the field or the line separator. */
  predicate ValidDescription(description: string)
  {
    '\t' !in description && '\n' !in description
  }

  function StatusText(done: bool): string
  {
    if done then DoneText else NotDoneText
  }

  /** A status holds neither separator and ends in `e`. */
  lemma StatusTextPlain(done: bool)
    ensures '\t' !in StatusText(done) && '\n' !in StatusText(done)
    ensures |StatusText(done)| > 0 && StatusText(done)[|StatusText(done)| - 1] == 'e'
  {
  }

  /** The line `save_tasks` writes for one task, without its newline. */
  function TaskLine(task: Task): string
  {
    task.description + "\t" + StatusText(task.done)
  }

  /** The text `save_tasks` writes: every task's line, each followed by `'\n'`, in order. */
  function SaveText(tasks: seq<Task>): string
  {
    if tasks == [] then [] else TaskLine(tasks[0]) + "\n" + SaveText(tasks[1..])
  }

  /** One line of the file, as `load_tasks` reads it. */
  function ParseLine(line: string): Option<Task>
  {
    var parts := Split(line, '\t');
    if |parts| == 2 then Some(Task(parts[0], parts[1] == DoneText)) else None
  }

  /**
    A line is a task exactly when it splits on tabs into two parts, that is,
    when it holds exactly one tab; the first part is the description and the
    task is done exactly when the second part is `done`.
   */
  lemma ParseLineMeaning(line: string)
    ensures ParseLine(line).Some? <==> Count(line, '\t') == 1
    ensures ParseLine(line).Some? ==>
      var d := ParseLine(line).value.description;
      && '\t' !in d
      && |d| < |line| && line[..|d|] == d && line[|d|] == '\t'
      && (ParseLine(line).value.done <==> line[|d| + 1..] == DoneText)
  {
    var parts := Split(line, '\t');
    JoinSplit(line, '\t');
    if |parts| == 2 {
      assert Join(parts, '\t') == parts[0] + "\t" + parts[1];
      assert (parts[0] + "\t" + parts[1])[|parts[0]| + 1..] == parts[1];
    }
  }

  /** The tasks of the lines that parse, in line order. */
  function ParseLines(lines: seq<string>): (tasks: seq<Task>)
    ensures |tasks| <= |lines|
  {
    if lines == [] then []
    else
      var rest := ParseLines(lines[1..]);
      match ParseLine(lines[0])
      case Some(task) => [task] + rest
      case None => rest
  }

  /** What `load_tasks` returns for the file text `content`. */
  function ParseTasks(content: string): seq<Task>
  {
    ParseLines(Lines(content))
  }

  /** `load_tasks`: reads the tasks line by line, keeping the lines that parse. */
  method LoadTasks(content: string) returns (tasks: seq<Task>)
    ensures tasks == ParseTasks(content)
  {
    var lines := Lines(content);
    tasks := [];
    for i := 0 to |lines|
      invariant tasks == ParseLines(lines[..i])
    {
      var parts := Split(lines[i], '\t');
      if |parts| == 2 {
        var task := Task(parts[0], parts[1] == DoneText);
        tasks := tasks + [task];
      }
      assert ParseLines([lines[i]]) == if |parts| == 2 then [Task(parts[0], parts[1] == DoneText)] else [] by {
        assert ParseLine(lines[i]) == if |parts| == 2 then Some(Task(parts[0], parts[1] == DoneText)) else None;
      }
      ParseLinesAppend(lines[..i], [lines[i]]);
      assert lines[..i + 1] == lines[..i] + [lines[i]];
    }
    assert lines[..|lines|] == lines;
  }

  /** `save_tasks`: appends each task's line and newline to the text. */
  method SaveTasks(tasks: seq<Task>) returns (content: string)
    ensures content == SaveText(tasks)
  {
    content := [];
    for i := 0 to |tasks|
      invariant content == SaveText(tasks[..i])
    {
      var status := if tasks[i].done then DoneText else NotDoneText;
      var line := tasks[i].description + "\t" + status + "\n";
      assert line == SaveText([tasks[i]]);
      content := content + line;
      SaveTextAppend(tasks[..i], [tasks[i]]);
      assert tasks[..i + 1] == tasks[..i] + [tasks[i]];
    }
    assert tasks[..|tasks|] == tasks;
  }

  /** Parsing goes line by line: the tasks of two runs of lines are the tasks of each, in order. */
  lemma {:induction false} ParseLinesAppend(a: seq<string>, b: seq<string>)
    ensures ParseLines(a + b) == ParseLines(a) + ParseLines(b)
  {
    if a == [] {
      assert a + b == b;
    } else {
      assert (a + b)[1..] == a[1..] + b;
      ParseLinesAppend(a[1..], b);
    }
  }

  lemma ParseLinesCons(line: string, rest: seq<string>)
    ensures ParseLines([line] + rest) == (if ParseLine(line).Some? then [ParseLine(line).value] else []) + ParseLines(rest)
  {
    assert ([line] + rest)[1..] == rest;
  }

  /** Saving goes task by task: the text of two lists is the text of each, in order. */
  lemma {:induction false} SaveTextAppend(a: seq<Task>, b: seq<Task>)
    ensures SaveText(a + b) == SaveText(a) + SaveText(b)
  {
    if a == [] {
      assert a + b == b;
    } else {
      assert (a + b)[1..] == a[1..] + b;
      SaveTextAppend(a[1..], b);
    }
  }

  /** A saved line reads back as the task that produced it. */
  lemma ParseTaskLine(task: Task)
    requires ValidDescription(task.description)
    ensures ParseLine(TaskLine(task)) == Some(task)
  {
    var status := StatusText(task.done);
    StatusTextPlain(task.done);
    assert Join([task.description, status], '\t') == TaskLine(task);
    SplitJoin([task.description, status], '\t');
  }

  /** The task lines of a list, in order. */
  function TaskLines(tasks: seq<Task>): (lines: seq<string>)
    ensures |lines| == |tasks|
    ensures forall k :: 0 <= k < |tasks| ==> lines[k] == TaskLine(tasks[k])
  {
    if tasks == [] then [] else [TaskLine(tasks[0])] + TaskLines(tasks[1..])
  }

  /**
    The saved text has exactly one line per task, in order, and that line is
    the task's description, a tab and its status (see `TaskLines`).
   */
  lemma {:induction false} LinesOfSaveText(tasks: seq<Task>)
    requires forall k :: 0 <= k < |tasks| ==> '\n' !in tasks[k].description
    ensures Lines(SaveText(tasks)) == TaskLines(tasks)
  {
    if tasks != [] {
      var line := TaskLine(tasks[0]);
      StatusTextPlain(tasks[0].done);
      assert '\n' !in line;
      assert StripCarriageReturn(line) == line;
      assert SaveText(tasks) == line + "\n" + SaveText(tasks[1..]);
      LinesCons(line, SaveText(tasks[1..]));
      LinesOfSaveText(tasks[1..]);
    }
  }

  /** Round trip: loading what `save_tasks` wrote gives back the same tasks, in order. */
  lemma {:induction false} LoadSaveRoundTrip(tasks: seq<Task>)
    requires forall k :: 0 <= k < |tasks| ==> ValidDescription(tasks[k].description)
    ensures ParseTasks(SaveText(tasks)) == tasks
  {
    LinesOfSaveText(tasks);
    ParseTaskLines(tasks);
  }

  lemma {:induction false} ParseTaskLines(tasks: seq<Task>)
    requires forall k :: 0 <= k < |tasks| ==> ValidDescription(tasks[k].description)
    ensures ParseLines(TaskLines(tasks)) == tasks
  {
    if tasks != [] {
      var line, rest := TaskLine(tasks[0]), TaskLines(tasks[1..]);
      assert TaskLines(tasks) == [line] + rest;
      ParseTaskLine(tasks[0]);
      ParseTaskLines(tasks[1..]);
      ParseLinesCons(line, rest);
      assert tasks == [tasks[0]] + tasks[1..];
    }
  }

  /** Every task read from lines without newlines has a description the format can carry. */
  lemma {:induction false} ParsedLinesValid(lines: seq<string>)
    requires forall k :: 0 <= k < |lines| ==> '\n' !in lines[k]
    ensures forall k :: 0 <= k < |ParseLines(lines)| ==> ValidDescription(ParseLines(lines)[k].description)
  {
    if lines != [] {
      ParsedLinesValid(lines[1..]);
      var line := lines[0];
      match ParseLine(line)
      case None =>
      case Some(task) =>
        ParseLineMeaning(line);
        var d := task.description;
        assert line[..|d|] == d;
        assert '\n' !in d;
    }
  }

  /** Every loaded task can be saved faithfully. */
  lemma LoadedTasksValid(content: string)
    ensures forall k :: 0 <= k < |ParseTasks(content)| ==> ValidDescription(ParseTasks(content)[k].description)
  {
    ParsedLinesValid(Lines(content));
  }

  /**
    Saving what was loaded loses nothing: the saved text loads as the same
    tasks, even when the original file held malformed lines (they are dropped
    from the saved text) or `"\r\n"` endings.
   */
  lemma SaveLoadedTasks(content: string)
    ensures ParseTasks(SaveText(ParseTasks(content))) == ParseTasks(content)
  {
    LoadedTasksValid(content);
    LoadSaveRoundTrip(ParseTasks(content));
  }
}
