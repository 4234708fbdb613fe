/** Choosing which commands still need an entry in the migration file, and
    rendering an entry for each of them. */
module Selection {
  import opened RubyText
  import opened Searching

  /** The Ruby hash literal registered for one command: one string holding
      six lines, the last without its line feed. */
  function RenderEntry(command: string, desc: string): string {
    EntryHead + command + DescriptionField + desc + EntryTail
  }

  // The fixed parts of an entry.
  const EntryHead := "      {\n" + "        rake_command: '"
  const DescriptionField := "',\n" + "        description:  '"
  const EntryTail := "',\n" + "        comment: " + "'Auto-generated migration',\n"
                     + "        nohup: false\n" + "      },"

  /** A command is registered unless the migration text already holds the
      command or the task name anywhere. */
  predicate IsNew(content: string, name: string, command: string) {
    !Contains(content, command) && !Contains(content, name)
  }

  /** The commands the selection loop keeps, in their order. */
  function Selected(content: string, name: string, commands: seq<string>): seq<string> {
    Filter(commands, c => IsNew(content, name, c))
  }

  /** One rendered entry per command, in order. */
  function Entries(commands: seq<string>, desc: string): (es: seq<string>)
    ensures |es| == |commands|
    ensures forall j :: 0 <= j < |commands| ==> es[j] == RenderEntry(commands[j], desc)
  {
    seq(|commands|, j requires 0 <= j < |commands| => RenderEntry(commands[j], desc))
  }

  /** The `new_tasks` array the selection loop builds. */
  function NewTasks(content: string, name: string, desc: string, commands: seq<string>): seq<string> {
    Entries(Selected(content, name, commands), desc)
  }

  /** The selection loop: `new_tasks << entry` for every command that is not
      yet in the text read before the loop. */
  method SelectNewTasks(content: string, name: string, desc: string, commands: seq<string>)
    returns (newTasks: seq<string>)
    ensures newTasks == NewTasks(content, name, desc, commands)
  {
    newTasks := [];
    var i := 0;
    while i < |commands|
      invariant 0 <= i <= |commands|
      invariant newTasks == NewTasks(content, name, desc, commands[..i])
    {
      var command := commands[i];
      NewTasksStep(content, name, desc, commands, i);
      if IsNew(content, name, command) {
        newTasks := newTasks + [RenderEntry(command, desc)];
      }
      i := i + 1;
    }
    assert commands[..i] == commands;
  }

  /** Selecting one more command appends its entry exactly when it is new. */
  lemma SelectedStep(content: string, name: string, commands: seq<string>, i: nat)
    requires i < |commands|
    ensures var c := commands[i];
            Selected(content, name, commands[..i + 1])
            == Selected(content, name, commands[..i]) + (if IsNew(content, name, c) then [c] else [])
  {
    var p := c => IsNew(content, name, c);
    assert commands[..i + 1] == commands[..i] + [commands[i]];
    FilterAppend(commands[..i], [commands[i]], p);
    assert [commands[i]][1..] == [];
  }

  /** Looking at one more command appends its entry exactly when it is new. */
  lemma NewTasksStep(content: string, name: string, desc: string, commands: seq<string>, i: nat)
    requires i < |commands|
    ensures var c := commands[i];
            NewTasks(content, name, desc, commands[..i + 1])
            == NewTasks(content, name, desc, commands[..i])
               + (if IsNew(content, name, c) then [RenderEntry(c, desc)] else [])
  {
    var c := commands[i];
    var before := Selected(content, name, commands[..i]);
    SelectedStep(content, name, commands, i);
    if IsNew(content, name, c) {
      EntriesAppend(before, [c], desc);
    } else {
      assert before + [] == before;
    }
  }

  /** Rendering distributes over concatenation. */
  lemma EntriesAppend(a: seq<string>, b: seq<string>, desc: string)
    ensures Entries(a + b, desc) == Entries(a, desc) + Entries(b, desc)
  {
  }

  // ---- properties ----------------------------------------------------------

  /** A command is selected exactly when it is one of the task's commands and
      the text holds neither it nor the task name. */
  lemma SelectedMembers(content: string, name: string, commands: seq<string>, c: string)
    ensures c in Selected(content, name, commands)
            <==> c in commands && !Contains(content, c) && !Contains(content, name)
  {
    FilterMembers(commands, c => IsNew(content, name, c), c);
  }

  /** Once the task name occurs anywhere in the text, nothing is selected. */
  lemma NameInContentSelectsNothing(content: string, name: string, desc: string, commands: seq<string>)
    requires Contains(content, name)
    ensures NewTasks(content, name, desc, commands) == []
  {
    FilterNone(commands, c => IsNew(content, name, c));
  }

  /** The text is read once before the loop, so when no command is in it yet
      every command is selected, repeated ones included. */
  lemma NothingRegisteredSelectsAll(content: string, name: string, commands: seq<string>)
    requires !Contains(content, name)
    requires forall j :: 0 <= j < |commands| ==> !Contains(content, commands[j])
    ensures Selected(content, name, commands) == commands
  {
    SelectAll(commands, c => IsNew(content, name, c));
  }

  lemma {:induction false} SelectAll(xs: seq<string>, p: string -> bool)
    requires forall j :: 0 <= j < |xs| ==> p(xs[j])
    ensures Filter(xs, p) == xs
  {
    if xs != [] {
      SelectAll(xs[1..], p);
    }
  }

  /** Every entry names its command verbatim after `rake_command: '`. */
  lemma EntryHoldsCommand(command: string, desc: string)
    ensures Contains(RenderEntry(command, desc), command)
  {
    var after := DescriptionField + desc + EntryTail;
    assert RenderEntry(command, desc) == EntryHead + command + after;
    ContainsInMiddle(EntryHead, command, after);
  }
}
