/** The first part of the registration script: reading the rake file for the
    task's description and the commands that run it. */
module TaskExtraction {
  import opened RubyText
  import opened RakePatterns
  import opened Searching

  /** How far above the header the script looks for commands. */
  const LookBackLines := 5

  const NoDescription := "No description"

  /** What the script knows about the task once the rake file is read. */
  datatype TaskRecord = TaskRecord(description: string, commands: seq<string>)

  /** What the scanning loop leaves in `desc` and `commands`. */
  datatype Scan = Scan(desc: Option<string>, commands: seq<string>)

  /** Ruby's `lines[i]`: a negative index counts from the end, and an index
      out of range on either side gives nil. */
  function RubyAt(lines: seq<string>, i: int): (r: Option<string>)
    ensures r.Some? <==> -|lines| <= i < |lines|
    ensures 0 <= i < |lines| ==> r == Some(lines[i])
    ensures -|lines| <= i < 0 ==> r == Some(lines[|lines| + i])
  {
    if 0 <= i < |lines| then Some(lines[i])
    else if -|lines| <= i < 0 then Some(lines[|lines| + i])
    else None
  }

  /** The scanning loop tests a line for the header only when it is not a
      `desc` line (the `elsif`). */
  predicate IsHeaderCandidate(line: string, name: string) {
    !IsDescLine(line) && IsTaskHeader(line, name)
  }

  /** The index where the scanning loop stops: the first header for `name`. */
  function HeaderIndex(lines: seq<string>, name: string): (r: Option<nat>)
    ensures r.Some? ==> r.value < |lines| && IsHeaderCandidate(lines[r.value], name)
    ensures r.Some? ==> forall j :: 0 <= j < r.value ==> !IsHeaderCandidate(lines[j], name)
    ensures r.None? ==> forall j :: 0 <= j < |lines| ==> !IsHeaderCandidate(lines[j], name)
  {
    FirstFrom(lines, line => IsHeaderCandidate(line, name), 0)
  }

  /** The description the scanning loop holds after the lines before `n`:
      that of the last `desc` line among them, if there is one. */
  function DescBefore(lines: seq<string>, n: nat): (r: Option<string>)
    requires n <= |lines|
    ensures r.None? <==> forall j :: 0 <= j < n ==> !IsDescLine(lines[j])
  {
    match LastBefore(lines, IsDescLine, n)
    case None => None
    case Some(j) => Some(DescArgument(lines[j]))
  }

  /** The command the look-back takes from a line, if it takes one. */
  function CommandOf(l: Option<string>): Option<string> {
    if l.Some? && IsRakeComment(l.value) then Some(CommentCommand(l.value)) else None
  }

  /** The commands after the look-back loop has run for offsets 1 to `k`:
      each command found is put in front (`unshift`) of those found so far. */
  function LookBack(lines: seq<string>, idx: int, k: nat): seq<string> {
    if k == 0 then []
    else
      var c := CommandOf(RubyAt(lines, idx - k));
      (if c.Some? then [c.value] else []) + LookBack(lines, idx, k - 1)
  }

  /** The commands of the rake comments among `ls`, in the order of `ls`. */
  function CommentCommands(ls: seq<string>): seq<string> {
    if ls == [] then []
    else
      var c := CommandOf(Some(ls[0]));
      (if c.Some? then [c.value] else []) + CommentCommands(ls[1..])
  }

  /** The state the scanning loop leaves, given by where it stops. */
  function ScanResult(lines: seq<string>, name: string): Scan {
    match HeaderIndex(lines, name)
    case Some(i) => Scan(DescBefore(lines, i), LookBack(lines, i, LookBackLines))
    case None => Scan(DescBefore(lines, |lines|), [])
  }

  /** The command used when no comment gives one. */
  function DefaultCommand(rakeFile: string, name: string): string {
    "bundle exec rake " + Basename(rakeFile, ".rake") + ":" + name
  }

  /** The task record once the defaults are filled in. */
  function TaskOf(lines: seq<string>, rakeFile: string, name: string): (t: TaskRecord)
    ensures |t.commands| > 0
    ensures t.commands == (if ScanResult(lines, name).commands == [] then [DefaultCommand(rakeFile, name)]
                           else ScanResult(lines, name).commands)
    ensures ScanResult(lines, name).desc.Some? ==> t.description == ScanResult(lines, name).desc.value
    ensures ScanResult(lines, name).desc.None? ==> t.description == NoDescription
  {
    var s := ScanResult(lines, name);
    TaskRecord(if s.desc.Some? then s.desc.value else NoDescription,
               if s.commands == [] then [DefaultCommand(rakeFile, name)] else s.commands)
  }

  /** The look-back loop: offsets 1 to 5 above the header at `idx`. */
  method CollectCommands(lines: seq<string>, idx: nat) returns (commands: seq<string>)
    ensures commands == LookBack(lines, idx, LookBackLines)
  {
    commands := [];
    var offset := 1;
    while offset <= LookBackLines
      invariant 1 <= offset <= LookBackLines + 1
      invariant commands == LookBack(lines, idx, offset - 1)
    {
      var c := CommandOf(RubyAt(lines, idx - offset));
      if c.Some? {
        commands := [c.value] + commands;
      }
      offset := offset + 1;
    }
  }

  /** The scanning loop: remember each `desc`, stop at the first header. */
  method ScanRakeLines(lines: seq<string>, name: string) returns (desc: Option<string>, commands: seq<string>)
    ensures Scan(desc, commands) == ScanResult(lines, name)
  {
    desc := None;
    commands := [];
    var idx := 0;
    while idx < |lines|
      invariant 0 <= idx <= |lines|
      invariant desc == DescBefore(lines, idx)
      invariant commands == []
      invariant forall j :: 0 <= j < idx ==> !IsHeaderCandidate(lines[j], name)
    {
      var line := lines[idx];
      if IsDescLine(line) {
        desc := Some(DescArgument(line));
        assert LastBefore(lines, IsDescLine, idx + 1) == Some(idx);
      } else if IsTaskHeader(line, name) {
        commands := CollectCommands(lines, idx);
        FirstFromIsFirst(lines, l => IsHeaderCandidate(l, name), 0, idx);
        return;
      } else {
        assert LastBefore(lines, IsDescLine, idx + 1) == LastBefore(lines, IsDescLine, idx);
      }
      idx := idx + 1;
    }
  }

  /** Reads the task from the rake file's lines, then falls back to the
      default command and description. */
  method ExtractTask(lines: seq<string>, rakeFile: string, name: string) returns (task: TaskRecord)
    ensures task == TaskOf(lines, rakeFile, name)
  {
    var desc, commands := ScanRakeLines(lines, name);
    if commands == [] {
      commands := [DefaultCommand(rakeFile, name)];
    }
    if desc.None? {
      desc := Some(NoDescription);
    }
    task := TaskRecord(desc.value, commands);
  }

  // ---- properties ----------------------------------------------------------

  /** The description kept is that of the LAST `desc` line before `n`: a later
      one overwrites an earlier one. */
  lemma DescBeforeIsLast(lines: seq<string>, n: nat, j: nat)
    requires j < n <= |lines| && IsDescLine(lines[j])
    requires forall k :: j < k < n ==> !IsDescLine(lines[k])
    ensures DescBefore(lines, n) == Some(DescArgument(lines[j]))
  {
    LastBeforeIsLast(lines, IsDescLine, n, j);
  }

  /** The lines the look-back reads for offsets `k` down to 1, in file order:
      the `k` lines above the header when there are that many, and otherwise
      the lines above it preceded by the last lines of the file, which Ruby's
      negative indices reach. */
  function Window(lines: seq<string>, idx: nat, k: nat): seq<string>
    requires idx < |lines|
  {
    if k <= idx then lines[idx - k..idx]
    else lines[if |lines| + idx >= k then |lines| + idx - k else 0..] + lines[..idx]
  }

  lemma CommentCommandsCons(x: string, w: seq<string>)
    ensures var c := CommandOf(Some(x));
            CommentCommands([x] + w) == (if c.Some? then [c.value] else []) + CommentCommands(w)
  {
    assert ([x] + w)[1..] == w;
  }

  /** The commands come from the rake comments of the window only, in the
      order of the file (offset 5 first, offset 1 last). */
  lemma {:induction false} LookBackWindow(lines: seq<string>, idx: nat, k: nat)
    requires idx < |lines|
    ensures LookBack(lines, idx, k) == CommentCommands(Window(lines, idx, k))
  {
    if k == 0 {
      assert Window(lines, idx, k) == [];
    } else {
      LookBackWindow(lines, idx, k - 1);
      WindowStep(lines, idx, k);
      var l := RubyAt(lines, idx - k);
      if l.Some? {
        CommentCommandsCons(l.value, Window(lines, idx, k - 1));
      }
    }
  }

  /** Offset `k` adds the line it reads, if any, in front of the window. */
  lemma WindowStep(lines: seq<string>, idx: nat, k: nat)
    requires idx < |lines| && k > 0
    ensures var l := RubyAt(lines, idx - k);
            Window(lines, idx, k) == (if l.Some? then [l.value] else []) + Window(lines, idx, k - 1)
  {
    if k <= idx {
      assert lines[idx - k..idx] == [lines[idx - k]] + lines[idx - k + 1..idx];
    } else if k == idx + 1 {
      assert lines[|lines| - 1..] == [lines[|lines| - 1]];
      assert lines[0..idx] == lines[..idx];
    } else if |lines| + idx >= k {
      var i := |lines| + idx - k;
      assert lines[i..] == [lines[i]] + lines[i + 1..];
    }
  }

  /** With at least five lines above the header, only those five can give
      commands, and they come out top to bottom. */
  lemma LookBackBounded(lines: seq<string>, idx: nat)
    requires LookBackLines <= idx < |lines|
    ensures LookBack(lines, idx, LookBackLines) == CommentCommands(lines[idx - LookBackLines..idx])
  {
    LookBackWindow(lines, idx, LookBackLines);
    assert Window(lines, idx, LookBackLines) == lines[idx - LookBackLines..idx];
  }

  /** With the header on the first line, the look-back reads the last lines of
      the file instead: a rake comment at the very end becomes a command. */
  lemma LookBackWrapsAround(lines: seq<string>)
    requires 0 < |lines|
    ensures LookBack(lines, 0, LookBackLines)
            == CommentCommands(lines[if |lines| >= LookBackLines then |lines| - LookBackLines else 0..])
  {
    LookBackWindow(lines, 0, LookBackLines);
    var w := lines[if |lines| >= LookBackLines then |lines| - LookBackLines else 0..];
    assert Window(lines, 0, LookBackLines) == w + [];
    assert w + [] == w;
  }

  /** In a file of fewer than five lines, offset 1 and offset `1 + |lines|`
      both reach the line just above the header, the second through a
      negative index. */
  lemma ShortFileReadsLineTwice(lines: seq<string>, idx: nat)
    requires 0 < idx < |lines| < LookBackLines
    ensures 1 + |lines| <= LookBackLines
    ensures RubyAt(lines, idx - 1) == RubyAt(lines, idx - (1 + |lines|)) == Some(lines[idx - 1])
  {
  }

  /** So a rake comment just above the header gives its command at two
      different places among the collected commands. */
  lemma ShortFileRepeatsCommand(lines: seq<string>, idx: nat)
    requires 0 < idx < |lines| < LookBackLines && IsRakeComment(lines[idx - 1])
    ensures var cmds := LookBack(lines, idx, LookBackLines);
            exists i, j :: 0 <= i < j < |cmds| && cmds[i] == CommentCommand(lines[idx - 1]) == cmds[j]
  {
    var l := lines[idx - 1];
    var c := CommentCommand(l);
    var far := 1 + |lines|;
    ShortFileReadsLineTwice(lines, idx);
    var near := LookBack(lines, idx, far - 1);
    var both := LookBack(lines, idx, far);
    var cmds := LookBack(lines, idx, LookBackLines);
    LookBackTakes(lines, idx, 1, l);
    LookBackSuffix(lines, idx, 1, far - 1);
    var p :| near == p + LookBack(lines, idx, 1);
    assert LookBack(lines, idx, 1) == [c] + LookBack(lines, idx, 0) == [c];
    LookBackTakes(lines, idx, far, l);
    assert both == [c] + p + [c];
    LookBackSuffix(lines, idx, far, LookBackLines);
    var q :| cmds == q + both;
    assert cmds[|q|] == c && cmds[|cmds| - 1] == c;
  }

  /** Offset `k` reading a rake comment puts its command in front. */
  lemma LookBackTakes(lines: seq<string>, idx: int, k: nat, l: string)
    requires k > 0 && RubyAt(lines, idx - k) == Some(l) && IsRakeComment(l)
    ensures LookBack(lines, idx, k) == [CommentCommand(l)] + LookBack(lines, idx, k - 1)
  {
  }

  /** Running more offsets only puts commands in front: the commands of the
      first `m` offsets end those of the first `k`. */
  lemma {:induction false} LookBackSuffix(lines: seq<string>, idx: int, m: nat, k: nat)
    requires m <= k
    ensures exists front :: LookBack(lines, idx, k) == front + LookBack(lines, idx, m)
  {
    if m < k {
      LookBackSuffix(lines, idx, m, k - 1);
      var inner :| LookBack(lines, idx, k - 1) == inner + LookBack(lines, idx, m);
      var outer := LookBackStep(lines, idx, k);
      assert LookBack(lines, idx, k) == (outer + inner) + LookBack(lines, idx, m);
    } else {
      assert LookBack(lines, idx, k) == [] + LookBack(lines, idx, m);
    }
  }

  /** One more offset puts at most one command in front. */
  lemma LookBackStep(lines: seq<string>, idx: int, k: nat) returns (front: seq<string>)
    requires k > 0
    ensures LookBack(lines, idx, k) == front + LookBack(lines, idx, k - 1)
  {
    var c := CommandOf(RubyAt(lines, idx - k));
    front := if c.Some? then [c.value] else [];
  }

  /** When no line is the header, nothing is taken from comments: the default
      command is used, and the description is that of the last `desc` line of
      the whole file. */
  lemma NoHeaderUsesDefaults(lines: seq<string>, rakeFile: string, name: string)
    requires forall j :: 0 <= j < |lines| ==> !IsHeaderCandidate(lines[j], name)
    ensures TaskOf(lines, rakeFile, name).commands == [DefaultCommand(rakeFile, name)]
    ensures TaskOf(lines, rakeFile, name).description
            == (if DescBefore(lines, |lines|).Some? then DescBefore(lines, |lines|).value else NoDescription)
  {
  }

  /** A header with no rake comment among the lines the look-back reads (the
      five above it, or for a header in the first five lines those above it
      and the last lines of the file) gets exactly the default command
      `bundle exec rake <basename>:<task>`, and "No description" when no
      `desc` line comes before it. */
  lemma HeaderWithoutCommentsUsesDefaults(lines: seq<string>, rakeFile: string, name: string, i: nat)
    requires i < |lines| && IsHeaderCandidate(lines[i], name)
    requires forall j :: 0 <= j < i ==> !IsHeaderCandidate(lines[j], name)
    requires forall j :: 0 <= j < |Window(lines, i, LookBackLines)| ==> !IsRakeComment(Window(lines, i, LookBackLines)[j])
    requires forall j :: 0 <= j < i ==> !IsDescLine(lines[j])
    ensures TaskOf(lines, rakeFile, name) == TaskRecord(NoDescription, [DefaultCommand(rakeFile, name)])
  {
    FirstFromIsFirst(lines, l => IsHeaderCandidate(l, name), 0, i);
    LookBackWindow(lines, i, LookBackLines);
    NoRakeComments(Window(lines, i, LookBackLines));
  }

  lemma {:induction false} NoRakeComments(ls: seq<string>)
    requires forall j :: 0 <= j < |ls| ==> !IsRakeComment(ls[j])
    ensures CommentCommands(ls) == []
  {
    if ls != [] {
      NoRakeComments(ls[1..]);
    }
  }

  /** A command taken from a line of the file holds no line feed, and the
      default command ends with the task name. */
  lemma CommandsAreSingleLineOrNamed(text: string, rakeFile: string, name: string)
    ensures forall c :: c in TaskOf(ReadLines(text), rakeFile, name).commands
              ==> (forall k :: 0 <= k < |c| ==> c[k] != '\n') || Contains(c, name)
  {
    var lines := ReadLines(text);
    ScanCommandsAreSingleLine(lines, name);
    DefaultCommandNamesTask(rakeFile, name);
  }

  lemma DefaultCommandNamesTask(rakeFile: string, name: string)
    ensures Contains(DefaultCommand(rakeFile, name), name)
  {
    var prefix := "bundle exec rake " + Basename(rakeFile, ".rake") + ":";
    ContainsInMiddle(prefix, name, "");
    assert prefix + name + "" == DefaultCommand(rakeFile, name);
  }

  lemma ScanCommandsAreSingleLine(lines: seq<string>, name: string)
    requires IsLineSeq(lines)
    ensures forall c :: c in ScanResult(lines, name).commands ==> forall k :: 0 <= k < |c| ==> c[k] != '\n'
  {
    match HeaderIndex(lines, name)
    case None =>
    case Some(i) =>
      LookBackWindow(lines, i, LookBackLines);
      var w := Window(lines, i, LookBackLines);
      assert forall j :: 0 <= j < |w| ==> IsLine(w[j]) by {
        forall j | 0 <= j < |w| ensures IsLine(w[j]) {
          assert w[j] in lines;
        }
      }
      forall c | c in CommentCommands(w) ensures forall k :: 0 <= k < |c| ==> c[k] != '\n' {
        CommentCommandsOfLines(w, c);
      }
  }

  /** A command taken from lines of the file holds no line feed. */
  lemma {:induction false} CommentCommandsOfLines(ls: seq<string>, c: string)
    requires forall j :: 0 <= j < |ls| ==> IsLine(ls[j])
    requires c in CommentCommands(ls)
    ensures forall k :: 0 <= k < |c| ==> c[k] != '\n'
  {
    var d := CommandOf(Some(ls[0]));
    if d.Some? && c == d.value {
      CommentCommandOfLine(ls[0]);
    } else {
      CommentCommandsOfLines(ls[1..], c);
    }
  }
}
