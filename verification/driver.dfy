/** One run of the registration script, from its arguments to its outcome and
    the migrations directory it leaves behind. */
module Driver {
  import opened RubyText
  import opened RakePatterns
  import opened Searching
  import opened TaskExtraction
  import opened MigrationFile
  import opened Selection
  import opened Insertion

  /** Why the migration file could not be edited. */
  datatype Fault = MissingTasksArray | MissingClosingBracket

  /** How a run ends: `abort` with the usage line, "already registered",
      one of the two structural errors, or the file rewritten. */
  datatype Outcome =
    | UsageError
    | NoOp
    | StructuralError(fault: Fault)
    | Written(path: string, text: string)

  /** The outcome, and the migrations directory after the run. */
  datatype RunResult = RunResult(outcome: Outcome, dir: seq<Entry>)

  /** The status the process exits with. */
  function ExitStatus(o: Outcome): int {
    if o.UsageError? || o.StructuralError? then 1 else 0
  }

  /** The edit of lines 82-107, or the reason it cannot be made. */
  datatype Edit = Edited(lines: seq<string>) | Failed(fault: Fault)

  /** Reading the file's lines, finding the array and inserting the entries
      in front of its closing bracket. */
  function InsertIntoTasks(content: string, newTasks: seq<string>): Edit {
    var lines := ReadLines(content);
    match TasksStart(lines)
    case None => Failed(MissingTasksArray)
    case Some(s) =>
      match ClosingAfter(lines, s)
      case None => Failed(MissingClosingBracket)
      case Some(e) => Edited(Inserted(lines, e, newTasks))
  }

  /** The task record read from the rake file `args[0]` for task `args[1]`. */
  function TaskFor(args: seq<string>, rakeText: string): TaskRecord
    requires |args| >= 2
  {
    TaskOf(ReadLines(rakeText), args[0], args[1])
  }

  /** The text of the migration file found at `loc`. */
  function TextAt(loc: Located): string
    requires loc.index < |loc.dir|
  {
    loc.dir[loc.index].text
  }

  /** The text of the migration file the run edits. */
  function Content(dir: seq<Entry>, ts: string): string {
    TextAt(Locate(dir, ts))
  }

  /** The entries the run would add. */
  function Pending(args: seq<string>, rakeText: string, dir: seq<Entry>, ts: string): seq<string>
    requires |args| >= 2
  {
    var task := TaskFor(args, rakeText);
    NewTasks(Content(dir, ts), args[1], task.description, task.commands)
  }

  /** The run once the file is located and the entries are selected. */
  function Apply(loc: Located, newTasks: seq<string>): RunResult
    requires loc.index < |loc.dir|
  {
    if newTasks == [] then RunResult(NoOp, loc.dir)
    else
      match InsertIntoTasks(TextAt(loc), newTasks)
      case Failed(f) => RunResult(StructuralError(f), loc.dir)
      case Edited(ls) =>
        var text := Join(ls);
        RunResult(Written(MigrationPath(loc.dir[loc.index].name), text), WriteAt(loc.dir, loc.index, text))
  }

  /** A run of the script with arguments `args`, where `rakeText` is the text
      of the file `args[0]` names, `dir` the migrations directory and `ts`
      the clock's timestamp. */
  function Run(args: seq<string>, rakeText: string, dir: seq<Entry>, ts: string): RunResult {
    if |args| < 2 then RunResult(UsageError, dir)
    else Apply(Locate(dir, ts), Pending(args, rakeText, dir, ts))
  }

  /** The script, step by step. */
  method RunScript(args: seq<string>, rakeText: string, dir: seq<Entry>, ts: string) returns (r: RunResult)
    ensures r == Run(args, rakeText, dir, ts)
  {
    if |args| < 2 {
      return RunResult(UsageError, dir);
    }
    var rakeFile, name := args[0], args[1];
    var task := ExtractTask(ReadLines(rakeText), rakeFile, name);
    var loc := Locate(dir, ts);
    var content := loc.dir[loc.index].text;
    var newTasks := SelectNewTasks(content, name, task.description, task.commands);
    if newTasks == [] {
      return RunResult(NoOp, loc.dir);
    }
    var lines := ReadLines(content);
    var start := TasksStart(lines);
    if start.None? {
      return RunResult(StructuralError(MissingTasksArray), loc.dir);
    }
    var tasksEnd := FindClosing(lines, start.value);
    if tasksEnd.None? {
      return RunResult(StructuralError(MissingClosingBracket), loc.dir);
    }
    lines := InsertEntries(lines, tasksEnd.value, newTasks);
    var text := Join(lines);
    r := RunResult(Written(MigrationPath(loc.dir[loc.index].name), text), WriteAt(loc.dir, loc.index, text));
  }

  // ---- outcomes ------------------------------------------------------------

  /** The run stops with the usage message, exit status 1 and no file
      touched exactly when fewer than two arguments are given. */
  lemma UsageErrorExactly(args: seq<string>, rakeText: string, dir: seq<Entry>, ts: string)
    ensures Run(args, rakeText, dir, ts).outcome.UsageError? <==> |args| < 2
    ensures |args| < 2 ==> Run(args, rakeText, dir, ts).dir == dir
    ensures ExitStatus(Run(args, rakeText, dir, ts).outcome) == 0
            <==> Run(args, rakeText, dir, ts).outcome.NoOp? || Run(args, rakeText, dir, ts).outcome.Written?
  {
  }

  /** Only a successful edit rewrites the migration file; every other outcome
      leaves the directory as the locate step left it (the template file,
      if it had to be created, stays). */
  lemma OnlyWrittenRewrites(args: seq<string>, rakeText: string, dir: seq<Entry>, ts: string)
    requires |args| >= 2
    ensures var r := Run(args, rakeText, dir, ts);
            var loc := Locate(dir, ts);
            (!r.outcome.Written? ==> r.dir == loc.dir)
            && (r.outcome.Written? ==>
                  r.outcome.path == MigrationPath(loc.dir[loc.index].name)
                  && r.dir == WriteAt(loc.dir, loc.index, r.outcome.text))
  {
  }

  /** The run ends as "already registered" exactly when no entry is pending,
      before the file's structure is looked at. */
  lemma NoOpExactly(args: seq<string>, rakeText: string, dir: seq<Entry>, ts: string)
    requires |args| >= 2
    ensures Run(args, rakeText, dir, ts).outcome.NoOp? <==> Pending(args, rakeText, dir, ts) == []
  {
  }

  /** When the task name occurs anywhere in the migration file, nothing is
      registered. */
  lemma NameInFileIsNoOp(args: seq<string>, rakeText: string, dir: seq<Entry>, ts: string)
    requires |args| >= 2 && Contains(Content(dir, ts), args[1])
    ensures Run(args, rakeText, dir, ts).outcome == NoOp
  {
    var task := TaskFor(args, rakeText);
    NameInContentSelectsNothing(Content(dir, ts), args[1], task.description, task.commands);
  }

  /** With no `tasks = [` line the edit fails. */
  lemma EditNeedsArray(content: string, newTasks: seq<string>)
    requires forall j :: 0 <= j < |ReadLines(content)| ==> !IsTasksOpen(ReadLines(content)[j])
    ensures InsertIntoTasks(content, newTasks) == Failed(MissingTasksArray)
  {
  }

  /** With no closing-bracket line after the first `tasks = [` line the edit
      fails. */
  lemma EditNeedsClosing(content: string, newTasks: seq<string>, s: nat)
    requires var lines := ReadLines(content);
             && s < |lines| && IsTasksOpen(lines[s])
             && (forall j :: 0 <= j < s ==> !IsTasksOpen(lines[j]))
             && (forall j :: s < j < |lines| ==> !IsClosingBracket(lines[j]))
    ensures InsertIntoTasks(content, newTasks) == Failed(MissingClosingBracket)
  {
    FirstFromIsFirst(ReadLines(content), IsTasksOpen, 0, s);
  }

  /** The edit puts the entries, each ended by a line feed, right in front of
      the first closing-bracket line after the first `tasks = [` line, and
      keeps the text before and after it. */
  lemma EditBeforeClosing(content: string, newTasks: seq<string>, s: nat, e: nat)
    requires var lines := ReadLines(content);
             && s < e < |lines| && IsTasksOpen(lines[s]) && IsClosingBracket(lines[e])
             && (forall j :: 0 <= j < s ==> !IsTasksOpen(lines[j]))
             && (forall j :: s < j < e ==> !IsClosingBracket(lines[j]))
    ensures var lines := ReadLines(content);
            var r := InsertIntoTasks(content, newTasks);
            r.Edited? && Join(r.lines) == Join(lines[..e]) + Join(WithNewlines(newTasks)) + Join(lines[e..])
  {
    var lines := ReadLines(content);
    FirstFromIsFirst(lines, IsTasksOpen, 0, s);
    FirstFromIsFirst(lines, IsClosingBracket, s + 1, e);
    InsertedText(lines, e, newTasks);
  }

  /** A failed edit is reported with exit status 1 and does not write. */
  lemma FailedEditIsReported(args: seq<string>, rakeText: string, dir: seq<Entry>, ts: string)
    requires |args| >= 2 && Pending(args, rakeText, dir, ts) != []
    requires InsertIntoTasks(Content(dir, ts), Pending(args, rakeText, dir, ts)).Failed?
    ensures var r := Run(args, rakeText, dir, ts);
            r.outcome == StructuralError(InsertIntoTasks(Content(dir, ts), Pending(args, rakeText, dir, ts)).fault)
            && ExitStatus(r.outcome) == 1 && r.dir == Locate(dir, ts).dir
  {
  }

  // ---- the template --------------------------------------------------------

  /** In the template the first `tasks = [` line is line 8, and the first
      closing bracket after it is line 9. */
  lemma TemplateArray(cls: LineText)
    ensures var ls := TemplateLines(cls);
            TasksStart(ls) == Some(8) && ClosingAfter(ls, 8) == Some(9)
  {
    var ls := TemplateLines(cls);
    TemplateOpensLate(cls);
    TemplateBrackets(cls);
    FirstFromIsFirst(ls, IsTasksOpen, 0, 8);
    FirstFromIsFirst(ls, IsClosingBracket, 9, 9);
  }

  /** The template can always be edited: its `tasks = [` line is directly
      followed by `]`, and the entries go in between. */
  lemma TemplateAcceptsEntries(cls: LineText, newTasks: seq<string>)
    ensures var ls := TemplateLines(cls);
            var r := InsertIntoTasks(TemplateText(cls), newTasks);
            r.Edited? && Join(r.lines) == Join(ls[..9]) + Join(WithNewlines(newTasks)) + Join(ls[9..])
  {
    var ls := TemplateLines(cls);
    TemplateReadsBack(cls);
    TemplateArray(cls);
    InsertedText(ls, 9, newTasks);
  }

  /** A migration file the run had to create from the template never gives a
      structural error. */
  lemma BootstrapNeverFails(args: seq<string>, rakeText: string, dir: seq<Entry>, ts: string)
    requires |args| >= 2 && FirstGeneric(dir).None?
    ensures !Run(args, rakeText, dir, ts).outcome.StructuralError?
    ensures var r := Run(args, rakeText, dir, ts);
            var ls := TemplateLines(GenericClass);
            r.outcome.Written? ==>
              r.outcome.text == Join(ls[..9]) + Join(WithNewlines(Pending(args, rakeText, dir, ts))) + Join(ls[9..])
  {
    assert Content(dir, ts) == TemplateText(GenericClass);
    TemplateAcceptsEntries(GenericClass, Pending(args, rakeText, dir, ts));
  }

  /** The template's last line is `end`. */
  lemma TemplateHoldsEnd(cls: LineText)
    ensures Contains(TemplateText(cls), "end")
  {
    var ls := TemplateLines(cls);
    LineInJoin(ls, 14);
    ContainsStart(EndClass, "\n");
    ContainsTransitive(Join(ls), ls[14], EndClass);
  }

  /** A task named `end` is never registered in a fresh migration file: the
      template already holds that word. */
  lemma TemplateWordIsNoOp(args: seq<string>, rakeText: string, dir: seq<Entry>, ts: string)
    requires |args| >= 2 && args[1] == "end" && FirstGeneric(dir).None?
    ensures Run(args, rakeText, dir, ts).outcome == NoOp
  {
    assert Content(dir, ts) == TemplateText(GenericClass);
    TemplateHoldsEnd(GenericClass);
    NameInFileIsNoOp(args, rakeText, dir, ts);
  }

  // ---- running twice -------------------------------------------------------

  /** Running the script a second time with the same arguments and rake file
      registers nothing and leaves the directory as the first run left it,
      whether the first run wrote the file or found everything registered. */
  lemma SecondRunIsNoOp(args: seq<string>, rakeText: string, dir: seq<Entry>, ts: string, ts2: string)
    requires |args| >= 2 && IsTimestamp(ts)
    requires Run(args, rakeText, dir, ts).outcome.Written? || Run(args, rakeText, dir, ts).outcome.NoOp?
    ensures var r := Run(args, rakeText, dir, ts);
            Run(args, rakeText, r.dir, ts2) == RunResult(NoOp, r.dir)
  {
    var r := Run(args, rakeText, dir, ts);
    var loc := Locate(dir, ts);
    LocateIsStable(dir, ts);
    if r.outcome.Written? {
      FirstGenericAfterWrite(loc.dir, loc.index, r.outcome.text);
      assert Locate(r.dir, ts2) == Located(loc.index, r.dir);
      assert Content(r.dir, ts2) == r.outcome.text;
      WrittenRegistersAll(args, rakeText, dir, ts);
    } else {
      assert Locate(r.dir, ts2) == loc;
      assert Pending(args, rakeText, r.dir, ts2) == Pending(args, rakeText, dir, ts);
    }
  }

  /** After a successful edit every command of the task is in the new text,
      so a later run selects none of them. */
  lemma WrittenRegistersAll(args: seq<string>, rakeText: string, dir: seq<Entry>, ts: string)
    requires |args| >= 2 && Run(args, rakeText, dir, ts).outcome.Written?
    ensures var task := TaskFor(args, rakeText);
            NewTasks(Run(args, rakeText, dir, ts).outcome.text, args[1], task.description, task.commands) == []
  {
    var task := TaskFor(args, rakeText);
    CommandsAreSingleLineOrNamed(rakeText, args[0], args[1]);
    EditRegisters(Content(dir, ts), args[1], task.description, task.commands);
  }

  /** Once the edit is made, each command is in the new text: a selected one
      in its entry, any other one where it already was. This holds for
      commands without a line feed, which the insertion cannot split, and
      for commands holding the task name, which cannot have been in the text
      when anything was selected. */
  lemma EditRegisters(content: string, name: string, desc: string, commands: seq<string>)
    requires forall c :: c in commands ==> (forall k :: 0 <= k < |c| ==> c[k] != '\n') || Contains(c, name)
    requires NewTasks(content, name, desc, commands) != []
    requires InsertIntoTasks(content, NewTasks(content, name, desc, commands)).Edited?
    ensures NewTasks(Join(InsertIntoTasks(content, NewTasks(content, name, desc, commands)).lines),
                     name, desc, commands) == []
  {
    var pending := NewTasks(content, name, desc, commands);
    var lines := ReadLines(content);
    var s := TasksStart(lines).value;
    var e := ClosingAfter(lines, s).value;
    var text := Join(InsertIntoTasks(content, pending).lines);
    assert text == Join(Inserted(lines, e, pending));
    InsertedText(lines, e, pending);
    assert !Contains(content, name) by {
      if Contains(content, name) {
        NameInContentSelectsNothing(content, name, desc, commands);
      }
    }
    forall j | 0 <= j < |commands| ensures Contains(text, commands[j]) {
      CommandStaysInText(lines, e, content, name, desc, commands, commands[j]);
    }
    FilterNone(commands, c => IsNew(text, name, c));
  }

  /** One command of the task is in the edited text. */
  lemma CommandStaysInText(lines: seq<string>, e: nat, content: string, name: string, desc: string,
                           commands: seq<string>, c: string)
    requires IsLineSeq(lines) && 0 < e < |lines| && Join(lines) == content
    requires c in commands && !Contains(content, name)
    requires (forall k :: 0 <= k < |c| ==> c[k] != '\n') || Contains(c, name)
    ensures Contains(Join(lines[..e]) + Join(WithNewlines(NewTasks(content, name, desc, commands))) + Join(lines[e..]), c)
  {
    var selected := Selected(content, name, commands);
    SelectedMembers(content, name, commands, c);
    if c in selected {
      EntryIsWritten(lines, e, selected, desc, c);
    } else {
      if Contains(c, name) {
        ContainsTransitive(content, c, name);
      }
      KeptAcrossInsertion(lines, e, NewTasks(content, name, desc, commands), c);
    }
  }

  /** A selected command appears in the text written for its entry. */
  lemma EntryIsWritten(lines: seq<string>, e: nat, selected: seq<string>, desc: string, c: string)
    requires e <= |lines| && c in selected
    ensures Contains(Join(lines[..e]) + Join(WithNewlines(Entries(selected, desc))) + Join(lines[e..]), c)
  {
    var w := Join(WithNewlines(Entries(selected, desc)));
    ContainsInMiddle(Join(lines[..e]), w, Join(lines[e..]));
    EntryInEntries(selected, desc, c);
    ContainsTransitive(Join(lines[..e]) + w + Join(lines[e..]), w, c);
  }

  /** A selected command appears in the rendered entries. */
  lemma EntryInEntries(selected: seq<string>, desc: string, c: string)
    requires c in selected
    ensures Contains(Join(WithNewlines(Entries(selected, desc))), c)
  {
    var entries := Entries(selected, desc);
    var w := WithNewlines(entries);
    var j :| 0 <= j < |selected| && selected[j] == c;
    LineInJoin(w, j);
    ContainsStart(entries[j], "\n");
    EntryHoldsCommand(c, desc);
    ContainsTransitive(w[j], entries[j], c);
    ContainsTransitive(Join(w), w[j], c);
  }

  /** Text of one line that was in the file before the edit is still in it. */
  lemma KeptAcrossInsertion(lines: seq<string>, e: nat, pending: seq<string>, c: string)
    requires IsLineSeq(lines) && 0 < e < |lines|
    requires Contains(Join(lines), c)
    requires forall k :: 0 <= k < |c| ==> c[k] != '\n'
    ensures Contains(Join(lines[..e]) + Join(WithNewlines(pending)) + Join(lines[e..]), c)
  {
    assert lines == lines[..e] + lines[e..];
    JoinAppend(lines[..e], lines[e..]);
    JoinEndsLine(lines, e);
    ContainsAcrossInsertion(Join(lines[..e]), Join(WithNewlines(pending)), Join(lines[e..]), c);
  }

  /** The text of all lines before a line that is not the last ends a line. */
  lemma JoinEndsLine(lines: seq<string>, e: nat)
    requires IsLineSeq(lines) && 0 < e < |lines|
    ensures var a := Join(lines[..e]); |a| > 0 && a[|a| - 1] == '\n'
  {
    assert lines[..e] == lines[..e - 1] + [lines[e - 1]];
    JoinAppend(lines[..e - 1], [lines[e - 1]]);
    assert Join([lines[e - 1]]) == lines[e - 1];
  }
}
