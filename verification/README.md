# Rake task registration, modelled in Dafny

This project models `scripts/manage_rake_task_migration.rb`, the script that
registers a rake task in a Rails data migration. Given a rake file and a task
name, the script works in four steps:

1. **Task extraction.** It reads the rake file's lines up to the first
   header `task <name>:`. It remembers the last `desc` line seen, and takes
   commands from `#` comments that mention `rake` in the five lines above
   the header. If no comment gives a command, it uses
   `bundle exec rake <basename>:<task>`; if there is no `desc` line, the
   description is `No description`.
2. **Locate or bootstrap.** It finds the first `db/migrate/*_add_rake_tasks_for_new_tasks.rb`.
   If there is none, it creates `<timestamp>_add_rake_tasks_for_new_tasks.rb`
   from a fixed template.
3. **Selection.** It keeps each command that the migration text contains
   neither as text nor through the task name. If nothing is kept, the run
   ends with "already registered".
4. **Insertion.** It inserts one multi-line hash per kept command before the
   first `]` line after the first `tasks = [` line, then writes the file.

Each step is its own module. The text primitives are in `RubyText` and the
six regular expressions in `RakePatterns`. The script's loops are methods
with loop invariants, each proved equal to a specification function:
`ScanRakeLines`, `CollectCommands`, `SelectNewTasks`, `FindClosing` and
`InsertEntries`. `Driver.RunScript` runs the steps in the script's order,
and is proved equal to `Driver.Run`.

Files are modelled as follows:

- **Texts.** A file is a `string`. `File.readlines` is `ReadLines`, whose
  inverse is `Join`. This lets `^` and `$` keep their Ruby meaning: start
  of the string or after an inner line feed, and end of the string or
  before a line feed.
- **Directory.** The migrations directory is a sequence of name/text
  entries, in the order `Dir.glob` lists them.
- **Clock.** The clock's value is a timestamp string parameter.

Results of one run (`Driver.Outcome`), with exit status:

| outcome | exit status |
|---|---|
| `UsageError` | 1 |
| `NoOp` | 0 |
| `StructuralError(MissingTasksArray)` | 1 |
| `StructuralError(MissingClosingBracket)` | 1 |
| `Written(path, text)` | 0 |

The model follows the code where it surprises:

- The template is created before selection, so it stays even when the run
  then ends as `NoOp`.
- A symbol-form header `task :name do` is never the header for a
  non-empty name that does not start with `:`. The empty name, which the
  argument check lets through, matches it.
- A header in the first five lines makes the look-back read the last lines
  of the file, through Ruby's negative indices.
- In a rake file of fewer than five lines, a header that is not on the
  first line has the line above it read twice: once at offset 1 and once
  through a negative index at the offset one more than the number of
  lines. A rake comment there gives its command twice. Selection keeps
  both, because it checks the text read before the loop. The run then
  writes two identical entries, although the script's header comment
  promises no duplicate entries.
- With no header, the description is that of the last `desc` line of the
  whole file.
- Equal commands in one run are both selected, because the text is read
  once before the loop.
- A task whose name occurs anywhere in the file, for example `end` in a
  fresh template, is never registered.
- The template's comment for step 3 (line 52) reads "paramter", and its
  class inherits from `ActiveRecord::Migration[6.1]`, as the code writes
  them.

## Model

| member | source | states |
|---|---|---|
| RubyText.SpaceRun | scripts/manage_rake_task_migration.rb:27 | a greedy `\s*` stops at the first character that is not white space, and everything before it is white space |
| RubyText.StripIsSlice | scripts/manage_rake_task_migration.rb:25 | `strip` keeps one slice of the line, removes only white space before and after it, and the slice neither starts nor ends with white space |
| RubyText.ReadLines | scripts/manage_rake_task_migration.rb:23 | `File.readlines` cuts the text into lines whose concatenation is the text; every line is non-empty, and all but the last end with a line feed |
| RubyText.ReadLinesOfJoin | scripts/manage_rake_task_migration.rb:82 | reading back text written as lines gives exactly those lines |
| RubyText.JoinAppend | scripts/manage_rake_task_migration.rb:109 | `lines.join` of two parts is the join of the first followed by the join of the second |
| RubyText.ContainsTransitive | scripts/manage_rake_task_migration.rb:70 | a substring of a substring of the text is a substring of the text |
| RubyText.LineInJoin | scripts/manage_rake_task_migration.rb:67 | every line is a substring of the joined text |
| RubyText.ContainsAcrossInsertion | scripts/manage_rake_task_migration.rb:104-109 | text inserted after a line feed keeps every single-line substring of the original |
| RubyText.DropTrailingSlashes | scripts/manage_rake_task_migration.rb:39 | the path loses exactly its trailing slashes |
| RubyText.AfterLastSlash | scripts/manage_rake_task_migration.rb:39 | the last component is the slash-free suffix after the last slash |
| RubyText.BasenameOfRakePath | scripts/manage_rake_task_migration.rb:39 | `File.basename("dir/stem.rake", ".rake")` is `stem` |
| RubyText.BasenameOfTopLevelRakeFile | scripts/manage_rake_task_migration.rb:39 | `File.basename("stem.rake", ".rake")`, for a rake file with no directory, is `stem` |
| RakePatterns.SingleLineAnchor | scripts/manage_rake_task_migration.rb:27 | on a line from `readlines`, `^` matches only at its start |
| RakePatterns.UnquoteSingleLine | scripts/manage_rake_task_migration.rb:26 | on one line the quote `gsub` removes one leading and one trailing quote character and nothing else |
| RakePatterns.DescArgumentOfLine | scripts/manage_rake_task_migration.rb:26 | a `desc` line's description is the stripped line after `desc` and its blanks, less one quote at each end |
| RakePatterns.HeaderShape | scripts/manage_rake_task_migration.rb:27 | for a line of spaces and tabs, `task`, at least one space or tab, and a body, ended by a line feed, where the body is non-empty, does not start with white space and holds no line feed, and for a non-empty name that does not start with white space: the line is the header for the name exactly when the body is the name followed by optional blanks and a colon |
| RakePatterns.HeaderWithColon | scripts/manage_rake_task_migration.rb:27 | `task NAME:...` is the header for NAME |
| RakePatterns.HeaderNameBoundary | scripts/manage_rake_task_migration.rb:27 | a name continued by anything but a blank or colon (`task build_all:` for `build`) is not the header |
| RakePatterns.HeaderSymbolForm | scripts/manage_rake_task_migration.rb:27 | for a non-empty NAME that starts with neither white space nor `:`, with no line feed in NAME or in the rest of the line, the symbol form `task :NAME do` is never the header for NAME; every name of the form `[a-zA-Z0-9_]+` qualifies |
| RakePatterns.CommentCommandOfLine | scripts/manage_rake_task_migration.rb:32 | a command taken from a comment line holds no line feed |
| RakePatterns.NotTasksOpenAt | scripts/manage_rake_task_migration.rb:83 | a line whose first non-blank character is not `t` does not open the array |
| RakePatterns.TasksOpenAt | scripts/manage_rake_task_migration.rb:83 | blanks then `tasks = [` open the array, whatever follows |
| RakePatterns.ClosingAt | scripts/manage_rake_task_migration.rb:93 | `]` with only blanks around it closes the array |
| RakePatterns.NotClosingAt | scripts/manage_rake_task_migration.rb:93 | `]` followed by a non-blank, such as `],`, does not close the array |
| Searching.FirstFrom | scripts/manage_rake_task_migration.rb:83 | `find_index` from a start index gives the first index at or after it whose element passes, or nil when none does |
| Searching.FirstFromIsFirst | scripts/manage_rake_task_migration.rb:83 | an index that passes, with none passing before it, is what `find_index` returns |
| Searching.LastBefore | scripts/manage_rake_task_migration.rb:24-26 | the last index below a bound whose element passes, or none |
| Searching.Filter | scripts/manage_rake_task_migration.rb:69-74 | the kept elements all pass and come from the input |
| Searching.FilterAppend | scripts/manage_rake_task_migration.rb:69-74 | filtering a concatenation filters each part, in order |
| Searching.FilterMembers | scripts/manage_rake_task_migration.rb:70 | an element is kept exactly when it is in the input and passes |
| Searching.FilterNone | scripts/manage_rake_task_migration.rb:76 | when nothing passes, nothing is kept |
| TaskExtraction.RubyAt | scripts/manage_rake_task_migration.rb:30 | `lines[i]` is nil exactly below `-length` or at `length` and beyond; a negative index counts from the end |
| TaskExtraction.HeaderIndex | scripts/manage_rake_task_migration.rb:24-35 | the scan stops at the first line that is not a `desc` line and matches the header pattern |
| TaskExtraction.DescBefore | scripts/manage_rake_task_migration.rb:25-26 | there is no description exactly when no `desc` line comes before the stop |
| TaskExtraction.DescBeforeIsLast | scripts/manage_rake_task_migration.rb:25-26 | the description is that of the last `desc` line before the stop |
| TaskExtraction.TaskOf | scripts/manage_rake_task_migration.rb:39-40 | after the defaults there is at least one command; with none found it is exactly the default command, and without a `desc` the description is `No description` |
| TaskExtraction.CollectCommands | scripts/manage_rake_task_migration.rb:29-34 | the look-back loop's `unshift` builds the specification `LookBack` |
| TaskExtraction.ScanRakeLines | scripts/manage_rake_task_migration.rb:24-37 | the scanning loop leaves the last `desc` before the first header and that header's commands, or no commands when there is no header |
| TaskExtraction.ExtractTask | scripts/manage_rake_task_migration.rb:19-40 | the extraction code computes `TaskOf` |
| TaskExtraction.LookBackWindow | scripts/manage_rake_task_migration.rb:28-34 | the commands are those of the rake comments among the lines read for offsets 5 down to 1, in file order |
| TaskExtraction.LookBackBounded | scripts/manage_rake_task_migration.rb:28-34 | with the header at index 5 or more, only the five lines above it are read, top to bottom |
| TaskExtraction.ShortFileReadsLineTwice | scripts/manage_rake_task_migration.rb:29-30 | in a file of fewer than five lines, with the header below the first line, offset 1 and the offset one more than the number of lines read the same line, the one above the header |
| TaskExtraction.ShortFileRepeatsCommand | scripts/manage_rake_task_migration.rb:29-34 | in such a file, a rake comment just above the header gives its command at two different positions of the collected commands |
| TaskExtraction.LookBackSuffix | scripts/manage_rake_task_migration.rb:29-34 | running more offsets only puts commands in front (`unshift`): the commands of fewer offsets end those of more |
| TaskExtraction.LookBackWrapsAround | scripts/manage_rake_task_migration.rb:30 | with the header on the first line, the look-back reads the file's last lines |
| TaskExtraction.NoHeaderUsesDefaults | scripts/manage_rake_task_migration.rb:24-40 | without a header the default command is used, with the last `desc` of the whole file |
| TaskExtraction.HeaderWithoutCommentsUsesDefaults | scripts/manage_rake_task_migration.rb:24-40 | no rake comment among the lines the look-back reads (the five above the header, or for a header in the first five lines those above it and the file's last lines) and no `desc` before the header give exactly the default command and `No description` |
| TaskExtraction.CommandsAreSingleLineOrNamed | scripts/manage_rake_task_migration.rb:32-39 | every command either has no line feed (it comes from one line) or contains the task name (the default) |
| TaskExtraction.DefaultCommandNamesTask | scripts/manage_rake_task_migration.rb:39 | the default command contains the task name |
| MigrationFile.TemplateLines | scripts/manage_rake_task_migration.rb:48-62 | the template is fifteen `puts` lines, each ended by a line feed |
| MigrationFile.FirstGeneric | scripts/manage_rake_task_migration.rb:43 | the glob's first match is the first entry whose name ends in `_add_rake_tasks_for_new_tasks.rb` and does not start with a dot |
| MigrationFile.Locate | scripts/manage_rake_task_migration.rb:43-64 | the first match is used as it is; with no match a file named after the timestamp is added, holding the template |
| MigrationFile.WriteAt | scripts/manage_rake_task_migration.rb:109 | `File.write` replaces one file's text and changes no other entry or name |
| MigrationFile.NewNameIsGeneric | scripts/manage_rake_task_migration.rb:45-46 | a file named after a 14-digit timestamp matches the glob |
| MigrationFile.LocateIsStable | scripts/manage_rake_task_migration.rb:43-46 | after locating, the glob's first match is the located file |
| MigrationFile.FirstGenericAfterWrite | scripts/manage_rake_task_migration.rb:109 | writing a file does not change the glob's first match |
| MigrationFile.TemplateReadsBack | scripts/manage_rake_task_migration.rb:47-63 | reading the created file gives back the template's fifteen lines |
| MigrationFile.TemplateOpensLate | scripts/manage_rake_task_migration.rb:48-55 | no template line before `    tasks = [` opens the array |
| MigrationFile.TemplateBrackets | scripts/manage_rake_task_migration.rb:56-57 | template line 8 opens the array and line 9 closes it |
| Selection.Entries | scripts/manage_rake_task_migration.rb:73 | one rendered entry per command, in order |
| Selection.SelectNewTasks | scripts/manage_rake_task_migration.rb:68-74 | the selection loop builds the entries of exactly the commands that pass the test, in order |
| Selection.SelectedMembers | scripts/manage_rake_task_migration.rb:70 | a command is selected exactly when the text contains neither it nor the task name |
| Selection.NameInContentSelectsNothing | scripts/manage_rake_task_migration.rb:70 | if the task name occurs in the text, nothing is selected |
| Selection.NothingRegisteredSelectsAll | scripts/manage_rake_task_migration.rb:67-74 | when neither name nor commands occur, every command is selected, repeats included |
| Selection.EntryHoldsCommand | scripts/manage_rake_task_migration.rb:73 | an entry holds its command verbatim |
| Insertion.TasksStart | scripts/manage_rake_task_migration.rb:83 | the first `tasks = [` line, or nil when there is none |
| Insertion.ClosingAfter | scripts/manage_rake_task_migration.rb:91-97 | the first closing-bracket line after the start, or nil when there is none |
| Insertion.FindClosing | scripts/manage_rake_task_migration.rb:91-97 | the search loop with `break` finds that first closing line |
| Insertion.WithNewlines | scripts/manage_rake_task_migration.rb:106 | each entry gains one line feed |
| Insertion.Inserted | scripts/manage_rake_task_migration.rb:104-107 | the array grows by the number of entries; lines before the point stay put, entries follow in order, later lines shift down |
| Insertion.InsertEntries | scripts/manage_rake_task_migration.rb:105-107 | inserting the reversed entries one by one at the same index leaves them in their own order before the closing line |
| Insertion.InsertedWithoutEntries | scripts/manage_rake_task_migration.rb:104-107 | taking the entries out gives the original lines back |
| Insertion.InsertedText | scripts/manage_rake_task_migration.rb:109 | the written text is the text before the closing line, the entries, then the rest |
| Driver.RunScript | scripts/manage_rake_task_migration.rb:16-112 | the script computes `Run` |
| Driver.UsageErrorExactly | scripts/manage_rake_task_migration.rb:16-17 | the usage error happens exactly with fewer than two arguments and touches nothing; exit status 0 exactly for `NoOp` and `Written` |
| Driver.OnlyWrittenRewrites | scripts/manage_rake_task_migration.rb:85-109 | only `Written` rewrites a file, the located one; other outcomes leave the directory as the locate step left it |
| Driver.NoOpExactly | scripts/manage_rake_task_migration.rb:76-79 | the run is a no-op exactly when no entry is pending, before any structural check |
| Driver.NameInFileIsNoOp | scripts/manage_rake_task_migration.rb:70 | a task name occurring in the migration file gives a no-op |
| Driver.EditNeedsArray | scripts/manage_rake_task_migration.rb:83-88 | with no `tasks = [` line the edit fails as missing array |
| Driver.EditNeedsClosing | scripts/manage_rake_task_migration.rb:90-102 | with no closing line after the first `tasks = [` the edit fails as missing bracket |
| Driver.EditBeforeClosing | scripts/manage_rake_task_migration.rb:90-107 | the entries go right before the first closing line after the first `tasks = [` line |
| Driver.FailedEditIsReported | scripts/manage_rake_task_migration.rb:85-102 | a failed edit ends with exit status 1 and no write |
| Driver.TemplateArray | scripts/manage_rake_task_migration.rb:56-57 | in the template the array opens on line 8 and closes on line 9 |
| Driver.TemplateAcceptsEntries | scripts/manage_rake_task_migration.rb:54-57 | the template can always be edited; the entries go between its lines 8 and 9 |
| Driver.BootstrapNeverFails | scripts/manage_rake_task_migration.rb:44-64 | a run that created the file never gives a structural error |
| Driver.TemplateHoldsEnd | scripts/manage_rake_task_migration.rb:62 | the template contains `end` |
| Driver.TemplateWordIsNoOp | scripts/manage_rake_task_migration.rb:62 | a task named `end` is never registered in a fresh file |
| Driver.SecondRunIsNoOp | scripts/manage_rake_task_migration.rb:66-79 | after a `Written` or `NoOp` run, the same run again is a no-op and changes nothing |
| Driver.WrittenRegistersAll | scripts/manage_rake_task_migration.rb:67-109 | after a write, the selection step on the written text keeps none of the task's commands |
| Driver.EditRegisters | scripts/manage_rake_task_migration.rb:70-109 | after a successful edit the selection step on the edited text keeps none of the commands |
| Driver.CommandStaysInText | scripts/manage_rake_task_migration.rb:104-109 | each command is in the edited text, in its entry or where it already was |
| Driver.EntryInEntries | scripts/manage_rake_task_migration.rb:73 | a selected command is in the rendered entries |

## Left out

- `extension.js` is not part of this model. It is editor plumbing (command
  registration, existence checks, the terminal command, CodeLens) with no
  logic of its own.
- File-system calls are not modelled:
  - `File.readlines`, `File.read`, `Dir.glob`, `File.open` and `File.write`
    become parameters and results;
  - a missing or unreadable rake file (which raises in Ruby) has no
    outcome of its own, because the rake file's text is always given;
  - a missing `db/migrate` directory, or one that cannot be written, has
    no outcome of its own. In Ruby, `File.open` at line 47 raises and the
    script stops before reading the migration. The model always adds the
    new entry and goes on;
  - a directory listing is a sequence in the order the glob lists it.
- The clock is the timestamp parameter. `Locate` and `RunScript` accept
  any string. The lemmas that rely on the created file's name matching the
  glob require fourteen digits: `MigrationFile.NewNameIsGeneric`,
  `MigrationFile.LocateIsStable` and `Driver.SecondRunIsNoOp`.
- Console output (`puts`, the usage line, the error messages) and the
  process (`ARGV`, `abort`, `exit`) are the `Outcome` value and
  `ExitStatus`. Message texts are not modelled.
- There is no general regular-expression engine and no `Regexp.escape`.
  The six patterns are written out by hand, and the task name is matched
  literally.
- Ruby is taken to run on a POSIX system. `/` is the only path separator,
  so `Basename` does not split at `\` as `File.basename` does on Windows.
  Files are read and written without newline conversion, so the text-mode
  translation between `\r\n` and `\n` that Windows applies to the reads and
  writes of `scripts/manage_rake_task_migration.rb` (lines 23, 47, 67, 82
  and 109) is not modelled.
- Concurrent runs on the same migration file are not modelled; the script
  has no locking.
- Characters are Unicode scalar values. Encoding errors, which make Ruby's
  `strip` raise on invalid byte sequences, are not modelled.
