/** The six regular expressions of the registration script, written out by
    hand: the `desc` prefix and the quotes around its argument, the task
    header for one name, the `#` prefix of a look-back comment, and the two
    lines that delimit the `tasks` array of the migration. Ruby's `^` holds at the start of the
    string and after every line feed that is not the last character; `$`
    holds at the end of the string and before every line feed. */
module RakePatterns {
  import opened RubyText

  /** `^` holds just after position `k` of `s`: a line feed that is not the
      last character. */
  predicate LineBreakAt(s: string, k: int) {
    0 <= k < |s| - 1 && s[k] == '\n'
  }

  /** Some match of `f` starts where `^` holds in `s`. */
  predicate AtLineStart(s: string, f: string -> bool) {
    f(s) || exists k | 0 <= k < |s| - 1 :: LineBreakAt(s, k) && f(s[k + 1..])
  }

  /** On a string with a line feed at most at its end, `^` holds only at the start. */
  lemma SingleLineAnchor(s: string, f: string -> bool)
    requires forall k :: 0 <= k < |s| - 1 ==> s[k] != '\n'
    ensures AtLineStart(s, f) == f(s)
  {
  }

  // ---- `desc` lines --------------------------------------------------------

  /** The guard `line.strip.start_with?('desc ')`. */
  predicate IsDescLine(line: string) {
    StartsWith(Strip(line), "desc ")
  }

  predicate IsQuote(c: char) {
    c == '\'' || c == '"'
  }

  /** Whether `gsub(/^['"]|['"]$/, '')` deletes the character at `k` of `u`:
      a quote where a line starts, or where one ends. */
  predicate AnchoredQuote(u: string, k: nat)
    requires k < |u|
  {
    IsQuote(u[k]) && (k == 0 || u[k - 1] == '\n' || k == |u| - 1 || u[k + 1] == '\n')
  }

  /** The characters from `k` on that the `gsub` keeps. */
  function KeepUnanchored(u: string, k: nat): string
    requires k <= |u|
    decreases |u| - k
  {
    if k == |u| then ""
    else (if AnchoredQuote(u, k) then "" else [u[k]]) + KeepUnanchored(u, k + 1)
  }

  /** `gsub(/^['"]|['"]$/, '')`. */
  function Unquote(u: string): string {
    KeepUnanchored(u, 0)
  }

  /** The description a `desc` line sets:
      `line.strip.sub(/^desc\s+/, '').gsub(/^['"]|['"]$/, '')`. */
  function DescArgument(line: string): string
    requires IsDescLine(line)
  {
    var s := Strip(line);
    var rest := s[4..];
    Unquote(rest[SpaceRun(rest)..])
  }

  lemma {:induction false} KeepMiddle(u: string, k: nat)
    requires forall j :: 0 <= j < |u| ==> u[j] != '\n'
    requires 1 <= k < |u|
    ensures KeepUnanchored(u, k) == u[k..|u| - 1] + (if IsQuote(u[|u| - 1]) then "" else [u[|u| - 1]])
    decreases |u| - k
  {
    if k < |u| - 1 {
      KeepMiddle(u, k + 1);
      assert u[k..|u| - 1] == [u[k]] + u[k + 1..|u| - 1];
    }
  }

  /** On one line, the `gsub` removes one quote at the start and one at the end
      of the text, and nothing else. */
  lemma UnquoteSingleLine(u: string)
    requires forall j :: 0 <= j < |u| ==> u[j] != '\n'
    ensures var a := if |u| > 0 && IsQuote(u[0]) then 1 else 0;
            var b := if |u| > a && IsQuote(u[|u| - 1]) then |u| - 1 else |u|;
            Unquote(u) == u[a..b]
  {
    if |u| >= 2 {
      KeepMiddle(u, 1);
      assert Unquote(u) == (if IsQuote(u[0]) then "" else [u[0]]) + KeepUnanchored(u, 1);
    } else if |u| == 1 {
      assert Unquote(u) == (if IsQuote(u[0]) then "" else [u[0]]) + KeepUnanchored(u, 1);
    }
  }

  /** `strip` leaves no line feed in a line that `File.readlines` produced. */
  lemma StripOfLine(l: string)
    requires IsLine(l)
    ensures forall k :: 0 <= k < |Strip(l)| ==> Strip(l)[k] != '\n'
  {
    var r := Strip(l);
    StripIsSlice(l);
    var i: nat :| IsStripSlice(l, i, r);
    forall k | 0 <= k < |r| ensures r[k] != '\n' {
      assert r[k] == l[i + k];
      if i + k == |l| - 1 {
        assert k == |r| - 1;
      }
    }
  }

  /** A `desc` line's description is its argument without the quotes around it. */
  lemma DescArgumentOfLine(line: string)
    requires IsLine(line) && IsDescLine(line)
    ensures var s := Strip(line);
            var u := s[4 + SpaceRun(s[4..])..];
            var a := if |u| > 0 && IsQuote(u[0]) then 1 else 0;
            var b := if |u| > a && IsQuote(u[|u| - 1]) then |u| - 1 else |u|;
            DescArgument(line) == u[a..b]
  {
    var s := Strip(line);
    StripOfLine(line);
    var rest := s[4..];
    var u := rest[SpaceRun(rest)..];
    assert u == s[4 + SpaceRun(rest)..];
    UnquoteSingleLine(u);
  }

  // ---- the task header -----------------------------------------------------

  /** `\s*:` at the start of `t`. */
  predicate ColonAfterSpaces(t: string) {
    var n := SpaceRun(t);
    n < |t| && t[n] == ':'
  }

  /** `\s*NAME\s*:` at the start of `t`, the name matched literally (what
      `Regexp.escape` guarantees); the spaces are backtracked over in case the
      name itself starts with one. */
  predicate SpacesNameColon(t: string, name: string)
    decreases |t|
  {
    || (StartsWith(t, name) && ColonAfterSpaces(t[|name|..]))
    || (|t| > 0 && IsSpace(t[0]) && SpacesNameColon(t[1..], name))
  }

  /** `\s*task\s+NAME\s*:` at the start of `t`. */
  predicate HeaderFrom(t: string, name: string) {
    var n := SpaceRun(t);
    && StartsWith(t[n..], "task")
    && n + 4 < |t| && IsSpace(t[n + 4])
    && SpacesNameColon(t[n + 5..], name)
  }

  /** `line =~ /^\s*task\s+#{Regexp.escape(name)}\s*:/`. */
  predicate IsTaskHeader(line: string, name: string) {
    AtLineStart(line, t => HeaderFrom(t, name))
  }

  lemma {:induction false} SpaceRunOfSpaces(sp: string, t: string)
    requires forall k :: 0 <= k < |sp| ==> IsSpace(sp[k])
    ensures SpaceRun(sp + t) == |sp| + SpaceRun(t)
  {
    if sp != [] {
      assert (sp + t)[1..] == sp[1..] + t;
      SpaceRunOfSpaces(sp[1..], t);
    } else {
      assert sp + t == t;
    }
  }

  lemma {:induction false} SpacesNameColonAfterSpaces(sp: string, rest: string, name: string)
    requires forall k :: 0 <= k < |sp| ==> IsSpace(sp[k])
    requires |name| > 0 && !IsSpace(name[0])
    requires |rest| > 0 ==> !IsSpace(rest[0])
    ensures SpacesNameColon(sp + rest, name) <==> StartsWith(rest, name) && ColonAfterSpaces(rest[|name|..])
  {
    if sp != [] {
      assert (sp + rest)[1..] == sp[1..] + rest;
      SpacesNameColonAfterSpaces(sp[1..], rest, name);
      assert !StartsWith(sp + rest, name) by {
        assert (sp + rest)[0] == sp[0];
      }
    } else {
      assert sp + rest == rest;
    }
  }

  lemma LineOfBody(body: string)
    requires '\n' !in body
    ensures IsLine(body + "\n")
  {
    forall k | 0 <= k < |body| ensures (body + "\n")[k] != '\n' {
      assert (body + "\n")[k] == body[k];
    }
  }

  /** A line `task <body>` (indented, with blanks after `task`) is the header
      for `name` exactly when `body` starts with the name followed by optional
      blanks and a colon: `task build_all:` is no header for `build`, and
      neither is the symbol form `task :build do`. */
  lemma HeaderShape(lead: string, gap: string, body: string, name: string)
    requires forall k :: 0 <= k < |lead| ==> lead[k] == ' ' || lead[k] == '\t'
    requires |gap| > 0 && forall k :: 0 <= k < |gap| ==> gap[k] == ' ' || gap[k] == '\t'
    requires |body| > 0 && !IsSpace(body[0]) && '\n' !in body
    requires |name| > 0 && !IsSpace(name[0])
    ensures IsTaskHeader(lead + "task" + gap + body + "\n", name)
            <==> StartsWith(body + "\n", name) && ColonAfterSpaces((body + "\n")[|name|..])
  {
    var rest := body + "\n";
    var line := lead + "task" + gap + body + "\n";
    assert '\n' !in lead + "task" + gap + body by {
      assert '\n' !in lead && '\n' !in gap;
    }
    LineOfBody(lead + "task" + gap + body);
    SingleLineAnchor(line, t => HeaderFrom(t, name));
    SpaceRunOfSpaces(lead, "task" + gap + rest);
    assert line == lead + ("task" + gap + rest);
    assert line[|lead|..] == "task" + gap + rest;
    assert line[|lead| + 4] == gap[0];
    assert line[|lead| + 5..] == gap[1..] + rest;
    SpacesNameColonAfterSpaces(gap[1..], rest, name);
  }

  /** `task NAME: ...` is the header for NAME, whatever follows the colon. */
  lemma HeaderWithColon(name: string, after: string)
    requires |name| > 0 && !IsSpace(name[0]) && '\n' !in name + after
    ensures IsTaskHeader("task " + name + ":" + after + "\n", name)
  {
    var body := name + ":" + after;
    var rest := body + "\n";
    assert rest[..|name|] == name;
    assert rest[|name|..][0] == ':';
    HeaderShape("", " ", body, name);
    assert "" + "task" + " " + body + "\n" == "task " + name + ":" + after + "\n";
  }

  /** A name directly followed by anything but a blank or a colon is another
      task's name: `task build_all:` is no header for `build`. */
  lemma HeaderNameBoundary(name: string, suffix: string)
    requires |name| > 0 && !IsSpace(name[0]) && '\n' !in name + suffix
    requires |suffix| > 0 && !IsSpace(suffix[0]) && suffix[0] != ':'
    ensures !IsTaskHeader("task " + name + suffix + "\n", name)
  {
    var body := name + suffix;
    var rest := body + "\n";
    assert rest[|name|..][0] == suffix[0];
    HeaderShape("", " ", body, name);
    assert "" + "task" + " " + body + "\n" == "task " + name + suffix + "\n";
  }

  /** The symbol form `task :NAME do` is never the header for NAME, when NAME
      starts with neither white space nor a colon and the line holds no other
      line feed. */
  lemma HeaderSymbolForm(name: string, after: string)
    requires |name| > 0 && !IsSpace(name[0]) && name[0] != ':' && '\n' !in name + after
    ensures !IsTaskHeader("task :" + name + after + "\n", name)
  {
    var body := ":" + name + after;
    assert (body + "\n")[0] == ':';
    HeaderShape("", " ", body, name);
    assert "" + "task" + " " + body + "\n" == "task :" + name + after + "\n";
  }

  // ---- look-back comments --------------------------------------------------

  /** The guard `l.strip.start_with?('#') && l.include?('rake')`. */
  predicate IsRakeComment(l: string) {
    StartsWith(Strip(l), "#") && Contains(l, "rake")
  }

  // The command a comment line gives: `l.strip.sub(/^#\s*/, '')`.
  function CommentCommand(l: string): string
    requires StartsWith(Strip(l), "#")
  {
    var s := Strip(l);
    var rest := s[1..];
    rest[SpaceRun(rest)..]
  }

  /** The command taken from a line of the file holds no line feed. */
  lemma CommentCommandOfLine(l: string)
    requires IsLine(l) && StartsWith(Strip(l), "#")
    ensures forall k :: 0 <= k < |CommentCommand(l)| ==> CommentCommand(l)[k] != '\n'
  {
    var s := Strip(l);
    StripOfLine(l);
    var rest := s[1..];
    var c := CommentCommand(l);
    var n := 1 + SpaceRun(rest);
    assert c == s[n..];
    forall k | 0 <= k < |c| ensures c[k] != '\n' {
      assert c[k] == s[n + k];
    }
  }

  // ---- the migration's `tasks` array ---------------------------------------

  /** `\s*tasks = \[` at the start of `t`. */
  predicate TasksOpenFrom(t: string) {
    StartsWith(t[SpaceRun(t)..], "tasks = [")
  }

  /** `l =~ /^\s*tasks = \[/`. */
  predicate IsTasksOpen(line: string) {
    AtLineStart(line, TasksOpenFrom)
  }

  /** `\s*$` at the start of `r`: blanks up to the end of the line. */
  predicate EndOfLineAfterSpaces(r: string)
    decreases |r|
  {
    r == [] || r[0] == '\n' || (IsSpace(r[0]) && EndOfLineAfterSpaces(r[1..]))
  }

  /** `\s*\]\s*$` at the start of `t`. */
  predicate ClosingFrom(t: string) {
    var n := SpaceRun(t);
    n < |t| && t[n] == ']' && EndOfLineAfterSpaces(t[n + 1..])
  }

  /** `lines[i] =~ /^\s*\]\s*$/`. */
  predicate IsClosingBracket(line: string) {
    AtLineStart(line, ClosingFrom)
  }

  /** A line whose first non-blank character is not the `t` of `tasks`
      does not open the array. */
  lemma NotTasksOpenAt(line: string, n: nat)
    requires IsLine(line) && n <= |line|
    requires forall k :: 0 <= k < n ==> IsSpace(line[k])
    requires n == |line| || (!IsSpace(line[n]) && line[n] != 't')
    ensures !IsTasksOpen(line)
  {
    SingleLineAnchor(line, TasksOpenFrom);
    SpaceRunOfSpaces(line[..n], line[n..]);
    assert line == line[..n] + line[n..];
    if n < |line| {
      assert line[SpaceRun(line)..][0] == line[n];
    }
  }

  /** `tasks = [` after blanks opens the array, whatever follows it. */
  lemma TasksOpenAt(line: string, n: nat)
    requires IsLine(line) && n + 9 <= |line|
    requires forall k :: 0 <= k < n ==> IsSpace(line[k])
    requires line[n..n + 9] == "tasks = ["
    ensures IsTasksOpen(line)
  {
    SingleLineAnchor(line, TasksOpenFrom);
    SpaceRunOfSpaces(line[..n], line[n..]);
    assert line == line[..n] + line[n..];
    assert line[n] == line[n..n + 9][0];
    assert line[n..][..9] == line[n..n + 9];
  }

  /** `]` with nothing but blanks around it closes the array. */
  lemma ClosingAt(line: string, n: nat)
    requires IsLine(line) && n < |line|
    requires forall k :: 0 <= k < n ==> IsSpace(line[k])
    requires line[n] == ']'
    requires forall k :: n < k < |line| ==> IsSpace(line[k])
    ensures IsClosingBracket(line)
  {
    SingleLineAnchor(line, ClosingFrom);
    SpaceRunOfSpaces(line[..n], line[n..]);
    assert line == line[..n] + line[n..];
    BlanksEndLine(line[n + 1..]);
  }

  lemma {:induction false} BlanksEndLine(r: string)
    requires forall k :: 0 <= k < |r| ==> IsSpace(r[k])
    ensures EndOfLineAfterSpaces(r)
  {
    if r != [] && r[0] != '\n' {
      BlanksEndLine(r[1..]);
    }
  }

  /** `]` followed by anything but blanks, such as the comma of `],`, does
      not close the array. */
  lemma NotClosingAt(line: string, n: nat)
    requires IsLine(line) && n + 1 < |line|
    requires forall k :: 0 <= k < n ==> IsSpace(line[k])
    requires line[n] == ']' && !IsSpace(line[n + 1])
    ensures !IsClosingBracket(line)
  {
    SingleLineAnchor(line, ClosingFrom);
    SpaceRunOfSpaces(line[..n], line[n..]);
    assert line == line[..n] + line[n..];
    assert line[n + 1..][0] == line[n + 1];
  }
}
