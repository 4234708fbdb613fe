/** The Ruby String, Array and File primitives the registration script relies
    on, over strings as sequences of characters: `\s`, `strip`, `start_with?`,
    `include?`, `File.readlines`, `Array#join` and `File.basename`. */
module RubyText {

  /** A value that may be Ruby's `nil`. */
  datatype Option<T> = None | Some(value: T)

  /** The class `\s` of Ruby regular expressions: space, tab, line feed,
      vertical tab, form feed and carriage return. */
  predicate IsSpace(c: char) {
    c == ' ' || c == '\t' || c == '\n' || c == '\U{0B}' || c == '\U{0C}' || c == '\r'
  }

  /** The characters `String#strip` removes at either end: those of `\s` and NUL. */
  predicate IsStripSpace(c: char) {
    IsSpace(c) || c == '\0'
  }

  /** How many characters a greedy `\s*` consumes at the start of `s`. */
  function SpaceRun(s: string): (n: nat)
    ensures n <= |s|
    ensures forall k :: 0 <= k < n ==> IsSpace(s[k])
    ensures n < |s| ==> !IsSpace(s[n])
  {
    if |s| > 0 && IsSpace(s[0]) then 1 + SpaceRun(s[1..]) else 0
  }

  /** `r` is `s` from `i` on, less white space at the end, and `s` holds only
      white space before `i`. */
  predicate IsStripSlice(s: string, i: nat, r: string) {
    && i + |r| <= |s| && r == s[i..i + |r|]
    && (forall k :: 0 <= k < i ==> IsStripSpace(s[k]))
    && (forall k :: i + |r| <= k < |s| ==> IsStripSpace(s[k]))
  }

  /** `String#strip`: white space goes from both ends. */
  function Strip(s: string): string {
    if |s| > 0 && IsStripSpace(s[0]) then Strip(s[1..])
    else if |s| > 0 && IsStripSpace(s[|s| - 1]) then Strip(s[..|s| - 1])
    else s
  }

  /** What `Strip` removes is white space, and what it keeps is one slice of
      `s` that neither starts nor ends with white space. */
  lemma {:induction false} StripIsSlice(s: string)
    ensures exists i: nat :: IsStripSlice(s, i, Strip(s))
    ensures var r := Strip(s); r == [] || (!IsStripSpace(r[0]) && !IsStripSpace(r[|r| - 1]))
  {
    var r := Strip(s);
    if |s| > 0 && IsStripSpace(s[0]) {
      StripIsSlice(s[1..]);
      var i: nat :| IsStripSlice(s[1..], i, r);
      SliceAfterFirst(s, i, r);
    } else if |s| > 0 && IsStripSpace(s[|s| - 1]) {
      StripIsSlice(s[..|s| - 1]);
      var i: nat :| IsStripSlice(s[..|s| - 1], i, r);
      SliceBeforeLast(s, i, r);
    } else {
      assert IsStripSlice(s, 0, r);
    }
  }

  lemma SliceAfterFirst(s: string, i: nat, r: string)
    requires |s| > 0 && IsStripSpace(s[0]) && IsStripSlice(s[1..], i, r)
    ensures IsStripSlice(s, i + 1, r)
  {
    assert r == s[i + 1..i + 1 + |r|];
    assert forall k :: i + 1 + |r| <= k < |s| ==> s[k] == s[1..][k - 1];
    assert forall k :: 1 <= k < i + 1 ==> s[k] == s[1..][k - 1];
  }

  lemma SliceBeforeLast(s: string, i: nat, r: string)
    requires |s| > 0 && IsStripSpace(s[|s| - 1]) && IsStripSlice(s[..|s| - 1], i, r)
    ensures IsStripSlice(s, i, r)
  {
    assert r == s[i..i + |r|];
  }

  /** `String#start_with?`. */
  predicate StartsWith(s: string, prefix: string) {
    |prefix| <= |s| && s[..|prefix|] == prefix
  }

  /** `String#end_with?`. */
  predicate EndsWith(s: string, suffix: string) {
    |suffix| <= |s| && s[|s| - |suffix|..] == suffix
  }

  predicate OccursAt(s: string, t: string, i: nat) {
    i + |t| <= |s| && s[i..i + |t|] == t
  }

  /** `String#include?`: `t` is a substring of `s` (the empty string is in every string). */
  predicate Contains(s: string, t: string) {
    exists i | 0 <= i <= |s| :: OccursAt(s, t, i)
  }

  /** `Array#join` with no separator. */
  function Join(ls: seq<string>): string {
    if ls == [] then "" else ls[0] + Join(ls[1..])
  }

  /** One element of `File.readlines`: not empty, and a line feed at most as its last character. */
  predicate IsLine(l: string) {
    |l| > 0 && forall k :: 0 <= k < |l| - 1 ==> l[k] != '\n'
  }

  /** What `File.readlines` returns: lines, all but the last ending in a line feed. */
  predicate IsLineSeq(ls: seq<string>) {
    && (forall i :: 0 <= i < |ls| ==> IsLine(ls[i]))
    && (forall i :: 0 <= i < |ls| - 1 ==> ls[i][|ls[i]| - 1] == '\n')
  }

  /** Length of the first line of `t`, its line feed included. */
  function FirstLineLength(t: string): (n: nat)
    requires t != []
    ensures 1 <= n <= |t|
    ensures forall k :: 0 <= k < n - 1 ==> t[k] != '\n'
    ensures n < |t| ==> t[n - 1] == '\n'
  {
    if t[0] == '\n' || |t| == 1 then 1 else 1 + FirstLineLength(t[1..])
  }

  /** `File.readlines`: the text cut after every line feed. */
  function ReadLines(text: string): (ls: seq<string>)
    ensures Join(ls) == text
    ensures IsLineSeq(ls)
    decreases |text|
  {
    if text == [] then []
    else
      var n := FirstLineLength(text);
      var rest := ReadLines(text[n..]);
      assert text == text[..n] + text[n..];
      [text[..n]] + rest
  }

  lemma {:induction false} JoinAppend(a: seq<string>, b: seq<string>)
    ensures Join(a + b) == Join(a) + Join(b)
  {
    if a != [] {
      assert (a + b)[1..] == a[1..] + b;
      JoinAppend(a[1..], b);
    } else {
      assert a + b == b;
    }
  }

  /** Reading back what `Array#join` wrote gives the same lines. */
  lemma {:induction false} ReadLinesOfJoin(ls: seq<string>)
    requires IsLineSeq(ls)
    ensures ReadLines(Join(ls)) == ls
  {
    if ls != [] {
      var t := Join(ls);
      var h := ls[0];
      assert t == h + Join(ls[1..]);
      var n := FirstLineLength(t);
      assert t[..|h|] == h;
      assert |ls| == 1 ==> t == h;
      assert |ls| > 1 ==> t[|h| - 1] == '\n';
      assert n == |h|;
      assert t[..n] == h;
      assert t[n..] == Join(ls[1..]);
      assert IsLineSeq(ls[1..]) by {
        forall i | 0 <= i < |ls[1..]| ensures IsLine(ls[1..][i]) {
          assert ls[1..][i] == ls[i + 1];
        }
        forall i | 0 <= i < |ls[1..]| - 1 ensures ls[1..][i][|ls[1..][i]| - 1] == '\n' {
          assert ls[1..][i] == ls[i + 1];
        }
      }
      ReadLinesOfJoin(ls[1..]);
    }
  }

  lemma ContainsAt(s: string, t: string, i: nat)
    requires OccursAt(s, t, i)
    ensures Contains(s, t)
  {
  }

  /** A substring of a substring is a substring. */
  lemma ContainsTransitive(a: string, b: string, c: string)
    requires Contains(a, b) && Contains(b, c)
    ensures Contains(a, c)
  {
    var i :| 0 <= i <= |a| && OccursAt(a, b, i);
    var j :| 0 <= j <= |b| && OccursAt(b, c, j);
    forall k | 0 <= k < |c| ensures a[i + j + k] == c[k] {
      assert a[i + j + k] == a[i..i + |b|][j + k];
    }
    ContainsAt(a, c, i + j);
  }

  lemma ContainsInMiddle(a: string, b: string, d: string)
    ensures Contains(a + b + d, b)
  {
    assert (a + b + d)[|a|..|a| + |b|] == b;
    ContainsAt(a + b + d, b, |a|);
  }

  lemma ContainsStart(a: string, b: string)
    ensures Contains(a + b, a)
  {
    assert (a + b)[..|a|] == a;
    ContainsAt(a + b, a, 0);
  }

  /** Each line is a substring of the joined text. */
  lemma {:induction false} LineInJoin(ls: seq<string>, i: nat)
    requires i < |ls|
    ensures Contains(Join(ls), ls[i])
  {
    if i == 0 {
      ContainsInMiddle("", ls[0], Join(ls[1..]));
      assert "" + ls[0] + Join(ls[1..]) == Join(ls);
    } else {
      LineInJoin(ls[1..], i - 1);
      ContainsInMiddle(ls[0], Join(ls[1..]), "");
      assert ls[0] + Join(ls[1..]) + "" == Join(ls);
      ContainsTransitive(Join(ls), Join(ls[1..]), ls[i]);
    }
  }

  lemma OccurrenceAgrees(s: string, t: string, i: nat, k: int)
    ensures OccursAt(s, t, i) && 0 <= k < |t| ==> s[i + k] == t[k]
  {
    if OccursAt(s, t, i) && 0 <= k < |t| {
      assert s[i..i + |t|][k] == s[i + k];
    }
  }

  /** Putting text in between two parts keeps every substring without a line
      feed of the whole, when the first part ends a line. */
  lemma ContainsAcrossInsertion(a: string, m: string, b: string, c: string)
    requires Contains(a + b, c)
    requires forall k :: 0 <= k < |c| ==> c[k] != '\n'
    requires |a| > 0 && a[|a| - 1] == '\n'
    ensures Contains(a + m + b, c)
  {
    var i :| 0 <= i <= |a + b| && OccursAt(a + b, c, i);
    OccurrenceAgrees(a + b, c, i, |a| - 1 - i);
    if i + |c| <= |a| {
      assert (a + m + b)[i..i + |c|] == (a + b)[i..i + |c|];
      ContainsAt(a + m + b, c, i);
    } else if i >= |a| {
      forall k | 0 <= k < |c| ensures (a + m + b)[i + |m| + k] == c[k] {
        assert (a + m + b)[i + |m| + k] == b[i - |a| + k] == (a + b)[i + k];
      }
      assert (a + m + b)[i + |m|..i + |m| + |c|] == c;
      ContainsAt(a + m + b, c, i + |m|);
    }
  }

  /** `path` without its trailing slashes. */
  function DropTrailingSlashes(path: string): (r: string)
    ensures |r| <= |path| && r == path[..|r|]
    ensures r == [] || r[|r| - 1] != '/'
    ensures forall k :: |r| <= k < |path| ==> path[k] == '/'
  {
    if |path| > 0 && path[|path| - 1] == '/' then DropTrailingSlashes(path[..|path| - 1]) else path
  }

  /** The part of `t` after its last slash. */
  function AfterLastSlash(t: string): (r: string)
    ensures |r| <= |t| && r == t[|t| - |r|..]
    ensures forall k :: 0 <= k < |r| ==> r[k] != '/'
    ensures |r| == |t| || t[|t| - |r| - 1] == '/'
  {
    if t == [] || t[|t| - 1] == '/' then [] else AfterLastSlash(t[..|t| - 1]) + [t[|t| - 1]]
  }

  /** `File.basename(path, suffix)`: the last path component, with `suffix`
      removed when it ends the component and is not all of it. */
  function Basename(path: string, suffix: string): string {
    var t := DropTrailingSlashes(path);
    if t == [] then (if path == [] then "" else "/")
    else
      var base := AfterLastSlash(t);
      if |base| > |suffix| && EndsWith(base, suffix) then base[..|base| - |suffix|] else base
  }

  lemma {:induction false} AfterLastSlashOfSuffix(p: string, r: string)
    requires |p| > 0 && p[|p| - 1] == '/'
    requires forall k :: 0 <= k < |r| ==> r[k] != '/'
    ensures AfterLastSlash(p + r) == r
  {
    if r != [] {
      assert (p + r)[..|p + r| - 1] == p + r[..|r| - 1];
      AfterLastSlashOfSuffix(p, r[..|r| - 1]);
      assert r == r[..|r| - 1] + [r[|r| - 1]];
    } else {
      assert p + r == p;
    }
  }

  /** A path without a slash is its own last component. */
  lemma AfterLastSlashOfSlashFree(t: string)
    requires forall k :: 0 <= k < |t| ==> t[k] != '/'
    ensures AfterLastSlash(t) == t
  {
  }

  /** The base name of `dir/stem.rake` is `stem`: the directory and the
      extension are both dropped. */
  lemma BasenameOfRakePath(dir: string, stem: string)
    requires |stem| > 0 && forall k :: 0 <= k < |stem| ==> stem[k] != '/'
    ensures Basename(dir + "/" + stem + ".rake", ".rake") == stem
  {
    var path := dir + "/" + stem + ".rake";
    assert DropTrailingSlashes(path) == path;
    assert path == (dir + "/") + (stem + ".rake");
    AfterLastSlashOfSuffix(dir + "/", stem + ".rake");
    var base := AfterLastSlash(path);
    assert base[..|base| - 5] == stem;
  }

  /** A rake file at the top of the project, `stem.rake` with no directory,
      also has the base name `stem`. */
  lemma BasenameOfTopLevelRakeFile(stem: string)
    requires |stem| > 0 && forall k :: 0 <= k < |stem| ==> stem[k] != '/'
    ensures Basename(stem + ".rake", ".rake") == stem
  {
    var file := stem + ".rake";
    assert DropTrailingSlashes(file) == file;
    AfterLastSlashOfSlashFree(file);
    assert file[..|file| - 5] == stem;
  }
}
