/** Finding the `tasks` array in the migration file's lines and inserting the
    new entries just before its closing bracket. */
module Insertion {
  import opened RubyText
  import opened RakePatterns
  import opened Searching

  /** `lines.find_index` for the first line matching `^\s*tasks = \[`. */
  function TasksStart(lines: seq<string>): (r: Option<nat>)
    ensures r.Some? ==> r.value < |lines| && IsTasksOpen(lines[r.value])
    ensures r.Some? ==> forall j :: 0 <= j < r.value ==> !IsTasksOpen(lines[j])
    ensures r.None? ==> forall j :: 0 <= j < |lines| ==> !IsTasksOpen(lines[j])
  {
    FirstFrom(lines, IsTasksOpen, 0)
  }

  /** The first line after `start` matching `^\s*\]\s*$`. */
  function ClosingAfter(lines: seq<string>, start: nat): (r: Option<nat>)
    requires start < |lines|
    ensures r.Some? ==> start < r.value < |lines| && IsClosingBracket(lines[r.value])
    ensures r.Some? ==> forall j :: start < j < r.value ==> !IsClosingBracket(lines[j])
    ensures r.None? ==> forall j :: start < j < |lines| ==> !IsClosingBracket(lines[j])
  {
    FirstFrom(lines, IsClosingBracket, start + 1)
  }

  /** The search loop over `tasks_start + 1 ... lines.length` that stops at
      the first closing bracket. */
  method FindClosing(lines: seq<string>, start: nat) returns (tasksEnd: Option<nat>)
    requires start < |lines|
    ensures tasksEnd == ClosingAfter(lines, start)
  {
    tasksEnd := None;
    var i := start + 1;
    while i < |lines|
      invariant start + 1 <= i <= |lines|
      invariant forall j :: start < j < i ==> !IsClosingBracket(lines[j])
    {
      if IsClosingBracket(lines[i]) {
        tasksEnd := Some(i);
        FirstFromIsFirst(lines, IsClosingBracket, start + 1, i);
        return;
      }
      i := i + 1;
    }
  }

  /** Each entry followed by the line feed the script appends to it. */
  function WithNewlines(tasks: seq<string>): (r: seq<string>)
    ensures |r| == |tasks|
    ensures forall j :: 0 <= j < |tasks| ==> r[j] == tasks[j] + "\n"
  {
    seq(|tasks|, j requires 0 <= j < |tasks| => tasks[j] + "\n")
  }

  /** The lines once the entries sit, in order, in front of line `at`: the
      array grows by one element per entry, the lines before `at` stay where
      they were, and line `at` and everything after it move down by the
      number of entries. */
  function Inserted(lines: seq<string>, at: nat, tasks: seq<string>): (r: seq<string>)
    requires at <= |lines|
    ensures |r| == |lines| + |tasks|
    ensures forall j :: 0 <= j < at ==> r[j] == lines[j]
    ensures forall j :: 0 <= j < |tasks| ==> r[at + j] == tasks[j] + "\n"
    ensures forall j :: at <= j < |lines| ==> r[j + |tasks|] == lines[j]
  {
    lines[..at] + WithNewlines(tasks) + lines[at..]
  }

  /** `new_tasks.reverse.each { |task| lines.insert(tasks_end, task + "\n") }`:
      each insertion at the same index pushes the ones made before it down,
      so walking the entries backwards leaves them in their own order. */
  method InsertEntries(lines: seq<string>, at: nat, tasks: seq<string>) returns (out: seq<string>)
    requires at <= |lines|
    ensures out == Inserted(lines, at, tasks)
  {
    out := lines;
    var i := |tasks|;
    assert lines[..at] + WithNewlines(tasks[i..]) + lines[at..] == lines;
    while i > 0
      invariant 0 <= i <= |tasks|
      invariant out == lines[..at] + WithNewlines(tasks[i..]) + lines[at..]
    {
      i := i - 1;
      InsertStep(lines, at, tasks, i);
      out := out[..at] + [tasks[i] + "\n"] + out[at..];
    }
  }

  /** One `insert` at `at` puts its entry in front of those already there. */
  lemma InsertStep(lines: seq<string>, at: nat, tasks: seq<string>, i: nat)
    requires at <= |lines| && i < |tasks|
    ensures var out := lines[..at] + WithNewlines(tasks[i + 1..]) + lines[at..];
            out[..at] + [tasks[i] + "\n"] + out[at..]
            == lines[..at] + WithNewlines(tasks[i..]) + lines[at..]
  {
    var rest := WithNewlines(tasks[i + 1..]);
    var out := lines[..at] + rest + lines[at..];
    assert out[..at] == lines[..at];
    assert out[at..] == rest + lines[at..];
    assert WithNewlines(tasks[i..]) == [tasks[i] + "\n"] + rest;
  }

  // ---- properties ----------------------------------------------------------

  /** Removing the entries gives back the original lines: nothing else was
      changed, added or reordered. */
  lemma InsertedWithoutEntries(lines: seq<string>, at: nat, tasks: seq<string>)
    requires at <= |lines|
    ensures var out := Inserted(lines, at, tasks);
            out[..at] + out[at + |tasks|..] == lines
  {
    var out := Inserted(lines, at, tasks);
    assert out[..at] == lines[..at];
    assert out[at + |tasks|..] == lines[at..];
  }

  /** The written text is the text up to the closing bracket, then the
      entries, each on its own line ending, then the rest. */
  lemma InsertedText(lines: seq<string>, at: nat, tasks: seq<string>)
    requires at <= |lines|
    ensures Join(Inserted(lines, at, tasks))
            == Join(lines[..at]) + Join(WithNewlines(tasks)) + Join(lines[at..])
  {
    JoinAppend(lines[..at] + WithNewlines(tasks), lines[at..]);
    JoinAppend(lines[..at], WithNewlines(tasks));
  }
}
