/** Finding the one migration file the script edits, and creating it from the
    template when the directory has none. */
module MigrationFile {
  import opened RubyText
  import opened RakePatterns
  import opened Searching

  const MigrateDir := "db/migrate"
  const GenericBasename := "add_rake_tasks_for_new_tasks.rb"
  const GenericClass: LineText := "AddRakeTasksForNewTasks"

  /** A file of the migrations directory: its name and its text. */
  datatype Entry = Entry(name: string, text: string)

  /** Where the script finds the migration file, and the directory once the
      file exists. */
  datatype Located = Located(index: nat, dir: seq<Entry>)

  /** A name the glob `*_add_rake_tasks_for_new_tasks.rb` matches: the glob's
      `*` matches any text, but not a leading dot. */
  predicate IsGenericMigration(name: string) {
    EndsWith(name, "_" + GenericBasename) && name[0] != '.'
  }

  /** The value `Time.now.strftime('%Y%m%d%H%M%S')` gives: fourteen digits. */
  predicate IsTimestamp(ts: string) {
    |ts| == 14 && forall k :: 0 <= k < |ts| ==> '0' <= ts[k] <= '9'
  }

  function NewMigrationName(ts: string): string {
    ts + "_" + GenericBasename
  }

  function MigrationPath(name: string): string {
    MigrateDir + "/" + name
  }

  /** Text that one `puts` call writes before the line feed it adds. */
  type LineText = s: string | '\n' !in s

  /** How many `f.puts` calls the template makes. */
  const TemplateSize := 15

  // The lines of the template, in the order the script writes them.
  const Banner: LineText := "# This File is " + "generated using the " + "RakeTaskRegistrar."
  const ManualSteps: LineText := "# What you need to " + "do manually is " + "listed below:"
  const RenameStep: LineText := "# 1- Rename the " + "file as you need"
  const GuardStep: LineText := "# 2- Adjust " + "the guard clause"
  const NohupStep: LineText := "# 3- Adjust " + "the nohup paramter"
  const DefChange: LineText := "  def change"
  const TasksOpenLine: LineText := "    tasks = ["
  const TasksCloseLine: LineText := "    ]"
  const EachTask: LineText := "    tasks.each " + "do |task|"
  const CreateTask: LineText := "      Production" + "RakeTask.create(task)"
  const EndEach: LineText := "    end"
  const EndDef: LineText := "  end"
  const EndClass: LineText := "end"

  /** The class declaration: the migration class inherits from Rails 6.1's
      migration base class. */
  function ClassLine(cls: LineText): LineText {
    "class " + cls + " < ActiveRecord::" + "Migration[6.1]"
  }

  /** What the template's `f.puts` call number `i` writes, for a migration
      class named `cls`. */
  function TemplateLine(cls: LineText, i: nat): LineText
    requires i < TemplateSize
  {
    match i
    case 0 => Banner
    case 1 => ManualSteps
    case 2 => RenameStep
    case 3 => GuardStep
    case 4 => NohupStep
    case 5 => ""
    case 6 => ClassLine(cls)
    case 7 => DefChange
    case 8 => TasksOpenLine
    case 9 => TasksCloseLine
    case 10 => EachTask
    case 11 => CreateTask
    case 12 => EndEach
    case 13 => EndDef
    case 14 => EndClass
  }

  // The characters the bracket lemmas below look at.
  lemma CodeLineStarts(cls: LineText)
    ensures ClassLine(cls)[0] == 'c'
    ensures DefChange[0] == ' ' && DefChange[1] == ' ' && DefChange[2] == 'd'
  {}

  lemma BracketLineShapes()
    ensures TasksOpenLine[..4] == "    " && TasksOpenLine[4..] == "tasks = ["
    ensures TasksCloseLine == "    " + "]"
  {}

  lemma CommentsStartWithHash()
    ensures Banner[0] == '#' && ManualSteps[0] == '#' && RenameStep[0] == '#' && GuardStep[0] == '#' && NohupStep[0] == '#'
  {}

  /** The template as `File.readlines` would split it: `puts` ends each
      string with a line feed. */
  function TemplateLines(cls: LineText): (ls: seq<string>)
    ensures |ls| == TemplateSize
    ensures forall j :: 0 <= j < TemplateSize ==> ls[j] == TemplateLine(cls, j) + "\n"
  {
    seq(TemplateSize, j requires 0 <= j < TemplateSize => TemplateLine(cls, j) + "\n")
  }

  /** The text of a freshly created migration file. */
  function TemplateText(cls: LineText): string {
    Join(TemplateLines(cls))
  }

  /** The first directory entry the glob matches. */
  function FirstGeneric(dir: seq<Entry>): (r: Option<nat>)
    ensures r.Some? ==> r.value < |dir| && IsGenericMigration(dir[r.value].name)
    ensures r.Some? ==> forall j :: 0 <= j < r.value ==> !IsGenericMigration(dir[j].name)
    ensures r.None? ==> forall j :: 0 <= j < |dir| ==> !IsGenericMigration(dir[j].name)
  {
    FirstFrom(dir, (e: Entry) => IsGenericMigration(e.name), 0)
  }

  /** The migration file to edit: the first match of the glob, or a new file
      named after the timestamp and filled with the template. */
  function Locate(dir: seq<Entry>, ts: string): (r: Located)
    ensures r.index < |r.dir|
    ensures FirstGeneric(dir).Some? ==> r == Located(FirstGeneric(dir).value, dir)
    ensures FirstGeneric(dir).None? ==>
              r == Located(|dir|, dir + [Entry(NewMigrationName(ts), TemplateText(GenericClass))])
  {
    match FirstGeneric(dir)
    case Some(g) => Located(g, dir)
    case None => Located(|dir|, dir + [Entry(NewMigrationName(ts), TemplateText(GenericClass))])
  }

  /** `File.write` on the entry at `i`: its text changes, nothing else does. */
  function WriteAt(dir: seq<Entry>, i: nat, text: string): (r: seq<Entry>)
    requires i < |dir|
    ensures |r| == |dir| && r[i] == Entry(dir[i].name, text)
    ensures forall j :: 0 <= j < |dir| && j != i ==> r[j] == dir[j]
    ensures forall j :: 0 <= j < |dir| ==> r[j].name == dir[j].name
  {
    dir[i := Entry(dir[i].name, text)]
  }

  // ---- properties ----------------------------------------------------------

  /** A name made from a timestamp is matched by the glob, so a file created
      by one run is found by the next. */
  lemma NewNameIsGeneric(ts: string)
    requires IsTimestamp(ts)
    ensures IsGenericMigration(NewMigrationName(ts))
  {
    var n := NewMigrationName(ts);
    assert n[|n| - |"_" + GenericBasename|..] == "_" + GenericBasename;
    assert n[0] == ts[0];
  }

  /** After the locate step the glob's first match is the file found, and it
      still is once any file's text changes. */
  lemma LocateIsStable(dir: seq<Entry>, ts: string)
    requires IsTimestamp(ts)
    ensures var r := Locate(dir, ts); FirstGeneric(r.dir) == Some(r.index)
  {
    var r := Locate(dir, ts);
    if FirstGeneric(dir).None? {
      NewNameIsGeneric(ts);
      FirstFromIsFirst(r.dir, (e: Entry) => IsGenericMigration(e.name), 0, |dir|);
    }
  }

  /** Writing a file changes no name, so the glob's first match stays put. */
  lemma FirstGenericAfterWrite(dir: seq<Entry>, i: nat, text: string)
    requires i < |dir|
    ensures FirstGeneric(WriteAt(dir, i, text)) == FirstGeneric(dir)
  {
    var d := WriteAt(dir, i, text);
    match FirstGeneric(dir)
    case Some(g) =>
      FirstFromIsFirst(d, (e: Entry) => IsGenericMigration(e.name), 0, g);
    case None =>
      assert forall j :: 0 <= j < |d| ==> !IsGenericMigration(d[j].name);
  }


  /** The template's lines are what `File.readlines` gives back for it. */
  lemma TemplateReadsBack(cls: LineText)
    ensures IsLineSeq(TemplateLines(cls))
    ensures ReadLines(TemplateText(cls)) == TemplateLines(cls)
  {
    var ls := TemplateLines(cls);
    forall j | 0 <= j < |ls| ensures IsLine(ls[j]) && ls[j][|ls[j]| - 1] == '\n' {
      LineOfBody(TemplateLine(cls, j));
    }
    ReadLinesOfJoin(ls);
  }

  /** A line written by `puts` whose first non-blank character is not the
      start of `tasks = [` does not open the array. */
  lemma PutsLineNotTasksOpen(body: LineText, n: nat)
    requires n <= |body| && forall k :: 0 <= k < n ==> IsSpace(body[k])
    requires n == |body| || (!IsSpace(body[n]) && body[n] != 't')
    ensures !IsTasksOpen(body + "\n")
  {
    LineOfBody(body);
    if n == |body| {
      NotTasksOpenAt(body + "\n", n + 1);
    } else {
      NotTasksOpenAt(body + "\n", n);
    }
  }

  /** In the template no line before line 8 opens the `tasks` array. */
  lemma TemplateOpensLate(cls: LineText)
    ensures forall j :: 0 <= j < 8 ==> !IsTasksOpen(TemplateLines(cls)[j])
  {
    HeaderCommentsDoNotOpen(cls);
    CommentsStartWithHash();
    CodeLineStarts(cls);
    PutsLineNotTasksOpen("", 0);
    PutsLineNotTasksOpen(ClassLine(cls), 0);
    PutsLineNotTasksOpen(DefChange, 2);
  }

  lemma HeaderCommentsDoNotOpen(cls: LineText)
    ensures forall j :: 0 <= j < 5 ==> !IsTasksOpen(TemplateLines(cls)[j])
  {
    CommentsStartWithHash();
    PutsLineNotTasksOpen(Banner, 0);
    PutsLineNotTasksOpen(ManualSteps, 0);
    PutsLineNotTasksOpen(RenameStep, 0);
    PutsLineNotTasksOpen(GuardStep, 0);
    PutsLineNotTasksOpen(NohupStep, 0);
  }

  /** In the template line 8 opens the `tasks` array and line 9 closes it. */
  lemma TemplateBrackets(cls: LineText)
    ensures IsTasksOpen(TemplateLines(cls)[8]) && IsClosingBracket(TemplateLines(cls)[9])
  {
    var ls := TemplateLines(cls);
    TemplateReadsBack(cls);
    BracketLineShapes();
    assert ls[8][4..13] == TasksOpenLine[4..];
    TasksOpenAt(ls[8], 4);
    ClosingAt(ls[9], 4);
  }
}
