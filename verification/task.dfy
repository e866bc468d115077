/**
 The task of `state/task.go`: the whitespace clean-up `trim`, `Normalize`,
 and the deterministic parts of `Edit` (the temp-file name, the `SHELL` and
 `EDITOR` defaults, the editor command line, and which branch `Edit` takes
 and what that branch does to the task).
 */
module State {
  import opened Wrappers
  import opened Text

  datatype Task = Task(title: string, story: string)

  /** One error per `errors.New` / `errors.Wrap` site of the file. */
  datatype TaskError =
    | TitleEmpty        // "title is empty"
    | StoryEmpty        // "story is empty"
    | TempFileFailed    // "failed to open temp file"
    | EncodeFailed      // "failed to encode task"
    | CloseFailed       // "failed to close file"
    | EditorFailed      // "failed to execute editor"
    | ReopenFailed      // "failed to open file"
    | DecodeFailed      // "failed to decode file"

  /** The effect of a method on `*Task`: the task afterwards and the
      error returned (`None` for nil). */
  datatype Outcome = Outcome(task: Task, err: Option<TaskError>)

  // ---------------------------------------------------------------------
  // trim
  // ---------------------------------------------------------------------

  /** Every `\s` character is a plain space, and no two are adjacent.
      The adjacency clause names the neighbour `j` as a bound variable
      rather than writing `s[i + 1]`: with `s[i]` and `s[i + 1]` under one
      variable, each instance would trigger the next. */
  ghost predicate Collapsed(s: string) {
    && (forall i :: 0 <= i < |s| && IsRegexSpace(s[i]) ==> s[i] == ' ')
    && (forall i, j :: 0 <= i < j < |s| && j == i + 1 ==> !IsRegexSpace(s[i]) || !IsRegexSpace(s[j]))
  }

  /** The shape of `trim`'s result: collapsed, with no white space at
      either end. */
  ghost predicate Trimmed(s: string) {
    Collapsed(s) && (|s| > 0 ==> !IsSpace(s[0]) && !IsSpace(s[|s| - 1]))
  }

  /** Drops the longest prefix of `\s` characters. */
  function SkipRun(s: string): (r: string)
    ensures |r| <= |s| && r == s[|s| - |r|..]
    ensures forall i :: 0 <= i < |s| - |r| ==> IsRegexSpace(s[i])
    ensures |r| > 0 ==> !IsRegexSpace(r[0])
  {
    if |s| > 0 && IsRegexSpace(s[0]) then SkipRun(s[1..]) else s
  }

  /** `regexp.MustCompile(`\s+`).ReplaceAllString(s, " ")`: each maximal
      run of `\s` characters becomes a single space. */
  function Collapse(s: string): (r: string)
    ensures |r| == 0 <==> |s| == 0
    ensures |s| > 0 ==> r[0] == if IsRegexSpace(s[0]) then ' ' else s[0]
    ensures |s| > 0 ==> r[|r| - 1] == if IsRegexSpace(s[|s| - 1]) then ' ' else s[|s| - 1]
  {
    if |s| == 0 then ""
    else if IsRegexSpace(s[0]) then " " + Collapse(SkipRun(s))
    else [s[0]] + Collapse(s[1..])
  }

  /** What `Collapse` returns is collapsed. */
  lemma {:induction false} CollapseCollapsed(s: string)
    ensures Collapsed(Collapse(s))
  {
    if |s| > 0 {
      if IsRegexSpace(s[0]) {
        CollapseCollapsed(SkipRun(s));
      } else {
        CollapseCollapsed(s[1..]);
      }
    }
  }

  /** Collapsing keeps every visible character, in order. */
  lemma {:induction false} CollapseVisible(s: string)
    ensures Visible(Collapse(s)) == Visible(s)
  {
    if |s| > 0 {
      if IsRegexSpace(s[0]) {
        var rest := SkipRun(s);
        CollapseVisible(rest);
        assert s == s[..|s| - |rest|] + rest;
        assert AllSpace(s[..|s| - |rest|]);
        DropSpaceVisible(s[..|s| - |rest|], rest);
        VisibleAppend(" ", Collapse(rest));
      } else {
        CollapseVisible(s[1..]);
        VisibleAppend([s[0]], Collapse(s[1..]));
        assert s == [s[0]] + s[1..];
        VisibleAppend([s[0]], s[1..]);
      }
    }
  }

  lemma CollapsedTail(s: string)
    requires |s| > 0 && Collapsed(s)
    ensures Collapsed(s[1..])
  {
    var t := s[1..];
    forall i | 0 <= i < |t|
      ensures IsRegexSpace(t[i]) ==> t[i] == ' '
    {
      assert t[i] == s[i + 1];
    }
    forall i, j | 0 <= i < j < |t| && j == i + 1
      ensures !IsRegexSpace(t[i]) || !IsRegexSpace(t[j])
    {
      assert t[i] == s[i + 1] && t[j] == s[j + 1];
    }
  }

  /** A collapsed string is left alone by `Collapse`. */
  lemma {:induction false} CollapseFixed(s: string)
    requires Collapsed(s)
    ensures Collapse(s) == s
  {
    if |s| > 0 {
      CollapsedTail(s);
      CollapseStep(s);
      CollapseFixed(s[1..]);
      assert s == [s[0]] + s[1..];
    }
  }

  /** In a collapsed string a run of `\s` is a single space, so `Collapse`
      moves on one character at a time. */
  lemma CollapseStep(s: string)
    requires Collapsed(s) && |s| > 0
    ensures Collapse(s) == [s[0]] + Collapse(s[1..])
  {
    if IsRegexSpace(s[0]) {
      assert s[0] == ' ';
      if |s| > 1 {
        assert !IsRegexSpace(s[1]);
      }
      assert SkipRun(s) == s[1..];
    }
  }

  predicate AllRegexSpace(s: string) {
    forall i :: 0 <= i < |s| ==> IsRegexSpace(s[i])
  }

  /** A run that ends inside `a` ends at the same place inside `a + b`. */
  lemma {:induction false} SkipRunAppend(a: string, b: string)
    requires |a| > 0 && !IsRegexSpace(a[|a| - 1])
    ensures SkipRun(a + b) == SkipRun(a) + b
  {
    if IsRegexSpace(a[0]) {
      assert (a + b)[1..] == a[1..] + b;
      SkipRunAppend(a[1..], b);
    }
  }

  /** A whole run of `\s` in front of `b` is skipped, and nothing of `b`. */
  lemma {:induction false} SkipRunOver(w: string, b: string)
    requires AllRegexSpace(w)
    requires |b| == 0 || !IsRegexSpace(b[0])
    ensures SkipRun(w + b) == b
  {
    if |w| == 0 {
      assert w + b == b;
    } else {
      assert (w + b)[1..] == w[1..] + b;
      SkipRunOver(w[1..], b);
    }
  }

  /** Skipping a run that stops inside `a` keeps `a`'s last character. */
  lemma SkipRunKeepsLast(a: string)
    requires |a| > 0 && IsRegexSpace(a[0]) && !IsRegexSpace(a[|a| - 1])
    ensures 0 < |SkipRun(a)| < |a|
    ensures SkipRun(a)[|SkipRun(a)| - 1] == a[|a| - 1]
  {
    var r := SkipRun(a);
    assert r == a[|a| - |r|..];
  }

  /** Collapsing works piecewise when the cut is not inside a run. */
  lemma {:induction false} CollapseAppend(a: string, b: string)
    requires |a| == 0 || !IsRegexSpace(a[|a| - 1])
    ensures Collapse(a + b) == Collapse(a) + Collapse(b)
    decreases |a|
  {
    if |a| == 0 {
      assert a + b == b;
    } else if IsRegexSpace(a[0]) {
      CollapseSpaceAppend(a, b);
    } else {
      CollapseCharAppend(a, b);
    }
  }

  lemma {:induction false} CollapseSpaceAppend(a: string, b: string)
    requires |a| > 0 && IsRegexSpace(a[0]) && !IsRegexSpace(a[|a| - 1])
    ensures Collapse(a + b) == Collapse(a) + Collapse(b)
    decreases |a|, 0
  {
    var rest := SkipRun(a);
    SkipRunKeepsLast(a);
    SkipRunAppend(a, b);
    CollapseAppend(rest, b);
    var s := a + b;
    assert s[0] == a[0];
    assert Collapse(s) == " " + Collapse(rest + b);
    assert Collapse(a) == " " + Collapse(rest);
    AppendAssoc(" ", Collapse(rest), Collapse(b));
  }

  lemma {:induction false} CollapseCharAppend(a: string, b: string)
    requires |a| > 0 && !IsRegexSpace(a[0]) && !IsRegexSpace(a[|a| - 1])
    ensures Collapse(a + b) == Collapse(a) + Collapse(b)
    decreases |a|, 0
  {
    var tail := a[1..];
    var s := a + b;
    assert s[1..] == tail + b;
    CollapseAppend(tail, b);
    assert s[0] == a[0];
    assert Collapse(s) == [a[0]] + Collapse(tail + b);
    assert Collapse(a) == [a[0]] + Collapse(tail);
    AppendAssoc([a[0]], Collapse(tail), Collapse(b));
  }

  /** The regexp `\s+` at work: a run of `\s` characters between two
      pieces of text becomes exactly one space, however long the run. */
  lemma CollapseRun(a: string, w: string, b: string)
    requires |a| == 0 || !IsRegexSpace(a[|a| - 1])
    requires |w| > 0 && AllRegexSpace(w)
    requires |b| == 0 || !IsRegexSpace(b[0])
    ensures Collapse(a + w + b) == Collapse(a) + " " + Collapse(b)
  {
    var t := w + b;
    AppendAssoc(a, w, b);
    CollapseAppend(a, t);
    SkipRunOver(w, b);
    assert t[0] == w[0];
    assert Collapse(t) == " " + Collapse(b);
    AppendAssoc(Collapse(a), " ", Collapse(b));
  }

  /** `trim`: `strings.TrimSpace`, then collapsing. The result has the
      shape `Trimmed` describes, holds the same visible characters, and is
      empty exactly when `s` is all white space. */
  function Trim(s: string): (r: string)
    ensures Trimmed(r)
    ensures Visible(r) == Visible(s)
    ensures r == "" <==> AllSpace(s)
  {
    TrimSpaceVisible(s);
    CollapseCollapsed(TrimSpace(s));
    CollapseVisible(TrimSpace(s));
    Collapse(TrimSpace(s))
  }

  /** `trim` leaves a string alone exactly when it already has `trim`'s
      shape. */
  lemma TrimFixedIff(s: string)
    ensures Trim(s) == s <==> Trimmed(s)
  {
    if Trimmed(s) {
      CollapseFixed(s);
    }
  }

  /** `trim` joins two pieces of text separated by a run of `\s` with a
      single space. */
  lemma TrimRun(a: string, w: string, b: string)
    requires |a| > 0 && !IsSpace(a[0]) && !IsSpace(a[|a| - 1])
    requires |w| > 0 && AllRegexSpace(w)
    requires |b| > 0 && !IsSpace(b[0]) && !IsSpace(b[|b| - 1])
    ensures Trim(a + w + b) == Trim(a) + " " + Trim(b)
  {
    var s := a + w + b;
    assert s[0] == a[0] && s[|s| - 1] == b[|b| - 1];
    assert TrimSpace(s) == s && TrimSpace(a) == a && TrimSpace(b) == b;
    CollapseRun(a, w, b);
  }

  lemma TrimIdempotent(s: string)
    ensures Trim(Trim(s)) == Trim(s)
  {
    TrimFixedIff(Trim(s));
  }

  /** `\s` does not hold the vertical tab, so a run of them inside the text
      survives `trim`. */
  lemma TrimKeepsInnerVerticalTabs()
    ensures Trim("a\U{0B}\U{0B}b") == "a\U{0B}\U{0B}b"
  {
    var s := "a\U{0B}\U{0B}b";
    assert !IsSpace(s[0]) && !IsSpace(s[3]);
    assert TrimSpace(s) == s;
    assert !IsRegexSpace(s[0]) && !IsRegexSpace(s[1]) && !IsRegexSpace(s[2]) && !IsRegexSpace(s[3]);
    assert Collapsed(s);
    CollapseFixed(s);
  }

  /** A white-space character outside `\s` (the vertical tab, U+0085,
      U+00A0 and the other Unicode spaces) between two trimmed pieces of
      text survives `trim`. */
  lemma TrimKeepsInnerNonRegexSpace(a: string, c: char, b: string)
    requires IsSpace(c) && !IsRegexSpace(c)
    requires |a| > 0 && Trimmed(a) && |b| > 0 && Trimmed(b)
    ensures Trim(a + [c] + b) == a + [c] + b
  {
    var s := a + [c] + b;
    assert s[0] == a[0] && s[|s| - 1] == b[|b| - 1];
    assert TrimSpace(s) == s;
    AppendAssoc(a, [c], b);
    CollapseAppend(a, [c] + b);
    assert ([c] + b)[1..] == b;
    assert Collapse([c] + b) == [c] + Collapse(b);
    CollapseFixed(a);
    CollapseFixed(b);
  }

  /** Any white space around trimmed text, a vertical tab included, is
      stripped by `trim`. */
  lemma TrimStripsOuterSpace(c: char, a: string, d: char)
    requires IsSpace(c) && IsSpace(d)
    requires |a| > 0 && Trimmed(a)
    ensures Trim([c] + a + [d]) == a
  {
    var s := [c] + a + [d];
    var t := a + [d];
    assert s[1..] == t;
    assert t[..|t| - 1] == a;
    assert TrimSpace(t) == a;
    assert TrimSpace(s) == a;
    CollapseFixed(a);
  }

  /** `strings.TrimSpace` does strip vertical tabs at the ends. */
  lemma TrimStripsOuterVerticalTabs()
    ensures Trim("\U{0B}a\U{0B}") == "a"
  {
    var u := "\U{0B}a\U{0B}";
    assert u[1..] == "a\U{0B}" && "a\U{0B}"[..1] == "a";
    assert TrimSpace(u) == "a";
    assert Collapse("a") == "a";
  }

  // ---------------------------------------------------------------------
  // Normalize
  // ---------------------------------------------------------------------

  /** A task `Normalize` accepts and leaves as it is. */
  ghost predicate Normalized(t: Task) {
    && Trimmed(t.title) && Trimmed(t.story)
    && t.title != "" && t.story != ""
    && forall i :: 0 <= i < |t.title| ==> !IsLower(t.title[i])
  }

  /** Upper-casing changes no white space, so it keeps `trim`'s shape. */
  lemma UpperKeepsTrimmed(s: string)
    requires Trimmed(s)
    ensures Trimmed(ToUpper(s))
  {
    var u := ToUpper(s);
    forall i | 0 <= i < |s|
      ensures (IsSpace(u[i]) <==> IsSpace(s[i])) && (IsRegexSpace(u[i]) <==> IsRegexSpace(s[i])) && (IsRegexSpace(s[i]) ==> u[i] == s[i])
    {
    }
  }

  function Normalize(t: Task): (r: Outcome)
    ensures r.err == Some(TitleEmpty) <==> AllSpace(t.title)
    ensures r.err == Some(StoryEmpty) <==> !AllSpace(t.title) && AllSpace(t.story)
    ensures r.err.None? <==> !AllSpace(t.title) && !AllSpace(t.story)
    ensures r.err.Some? ==> r.task == t
    ensures r.err.None? ==> r.task.title == ToUpper(Trim(t.title)) && r.task.story == Trim(t.story)
    ensures r.err.None? ==> Normalized(r.task)
  {
    var title := ToUpper(Trim(t.title));
    var story := Trim(t.story);
    UpperKeepsTrimmed(Trim(t.title));
    if title == "" then Outcome(t, Some(TitleEmpty))
    else if story == "" then Outcome(t, Some(StoryEmpty))
    else Outcome(Task(title, story), None)
  }

  /** `Normalize` succeeds without changing anything exactly on normalized
      tasks. */
  lemma NormalizeFixedIff(t: Task)
    ensures Normalize(t) == Outcome(t, None) <==> Normalized(t)
  {
    if Normalized(t) {
      TrimFixedIff(t.title);
      TrimFixedIff(t.story);
      assert ToUpper(t.title) == t.title;
      assert !IsSpace(t.title[0]) && !IsSpace(t.story[0]);
    }
  }

  lemma NormalizeIdempotent(t: Task)
    requires Normalize(t).err.None?
    ensures Normalize(Normalize(t).task) == Normalize(t)
  {
    NormalizeFixedIff(Normalize(t).task);
  }

  // ---------------------------------------------------------------------
  // Edit: the temp file's name
  // ---------------------------------------------------------------------

  /** The pattern handed to `ioutil.TempFile`: "*_" and then the title with
      every space turned into '_'. It holds no space at all. */
  function NamePattern(title: string): (p: string)
    ensures |p| == |title| + 2 && p[..2] == "*_"
    ensures ' ' !in p
    ensures forall i :: 0 <= i < |title| ==> p[i + 2] == if title[i] == ' ' then '_' else title[i]
  {
    "*_" + ReplaceChar(title, ' ', '_')
  }

  /** The index of the last '*' in `p`, if any. */
  function LastStar(p: string): (k: Option<nat>)
    ensures k.None? <==> '*' !in p
    ensures k.Some? ==> k.value < |p| && p[k.value] == '*' && '*' !in p[k.value + 1..]
  {
    if |p| == 0 then None
    else if p[|p| - 1] == '*' then Some(|p| - 1)
    else
      var k := LastStar(p[..|p| - 1]);
      assert k.Some? ==> p[k.value + 1..] == p[..|p| - 1][k.value + 1..] + [p[|p| - 1]];
      assert p == p[..|p| - 1] + [p[|p| - 1]];
      k
  }

  /** The file name `ioutil.TempFile` picks for `pattern`, `nonce`
      standing for its random string: the nonce replaces the last '*' of
      the pattern, or is appended when there is none. */
  function TempName(pattern: string, nonce: string): (name: string)
    ensures '*' !in pattern ==> name == pattern + nonce
    ensures '*' in pattern ==>
      exists k :: 0 <= k < |pattern| && pattern[k] == '*' && '*' !in pattern[k + 1..]
        && name == pattern[..k] + nonce + pattern[k + 1..]
  {
    match LastStar(pattern)
    case None => pattern + nonce
    case Some(k) => pattern[..k] + nonce + pattern[k + 1..]
  }

  /** The path `ioutil.TempFile(dir, pattern)` creates: the name joined to
      `dir` with a '/' unless `dir` already ends in one. */
  function TempPath(dir: string, pattern: string, nonce: string): (path: string)
    ensures var name := TempName(pattern, nonce);
      |path| > |name| && path[|path| - |name|..] == name
  {
    var name := TempName(pattern, nonce);
    var path := if |dir| > 0 && dir[|dir| - 1] == '/' then dir + name else dir + "/" + name;
    assert path[|path| - |name|..] == name;
    path
  }

  /** For a title without '*', the file name is the nonce, '_', and the
      title with its spaces turned into '_'. */
  lemma TempNameCarriesTitle(title: string, nonce: string)
    requires '*' !in title
    ensures TempName(NamePattern(title), nonce) == nonce + "_" + ReplaceChar(title, ' ', '_')
  {
    var rest := ReplaceChar(title, ' ', '_');
    ReplaceKeepsStarFree(title);
    LastStarFirst("_" + rest);
    var p := NamePattern(title);
    assert p == "*" + ("_" + rest);
    assert p[..0] == "" && p[1..] == "_" + rest;
    assert TempName(p, nonce) == "" + nonce + ("_" + rest);
    assert "" + nonce == nonce;
    AppendAssoc(nonce, "_", rest);
  }

  lemma ReplaceKeepsStarFree(title: string)
    requires '*' !in title
    ensures '*' !in ReplaceChar(title, ' ', '_')
  {
    var rest := ReplaceChar(title, ' ', '_');
    forall i | 0 <= i < |rest| ensures rest[i] != '*' {
      assert title[i] != '*';
    }
  }

  lemma LastStarFirst(x: string)
    requires '*' !in x
    ensures LastStar("*" + x) == Some(0)
  {
    var p := "*" + x;
    assert p[0] == '*';
  }

  /** With no space in the directory or the nonce, the path has none. */
  lemma TempPathNoSpace(dir: string, pattern: string, nonce: string)
    requires ' ' !in dir && ' ' !in pattern && ' ' !in nonce
    ensures ' ' !in TempPath(dir, pattern, nonce)
  {
    match LastStar(pattern)
    case None =>
    case Some(k) =>
      assert pattern == pattern[..k] + pattern[k..];
      assert pattern[k..] == [pattern[k]] + pattern[k + 1..];
  }

  // ---------------------------------------------------------------------
  // Edit: shell, editor and command line
  // ---------------------------------------------------------------------

  /** `os.Getenv`: an unset variable reads as the empty string. */
  function Getenv(env: map<string, string>, key: string): string {
    if key in env then env[key] else ""
  }

  /** A setting read from the environment: the variable's value with its
      surrounding white space removed, or `fallback` when nothing is
      left. Only the ends are cut: the setting sits inside the value with
      nothing but white space around it. */
  function Setting(env: map<string, string>, key: string, fallback: string): (v: string)
    ensures AllSpace(Getenv(env, key)) ==> v == fallback
    ensures !AllSpace(Getenv(env, key)) ==> v == TrimSpace(Getenv(env, key))
    ensures !AllSpace(Getenv(env, key)) ==>
      && v != "" && !IsSpace(v[0]) && !IsSpace(v[|v| - 1])
      && Visible(v) == Visible(Getenv(env, key))
      && exists i :: PaddedAt(Getenv(env, key), v, i)
  {
    TrimSpaceVisible(Getenv(env, key));
    TrimSpaceOnlyEnds(Getenv(env, key));
    var v := TrimSpace(Getenv(env, key));
    if |v| == 0 then fallback else v
  }

  /** The shell to run: `SHELL`, or "sh". Never blank. */
  function Shell(env: map<string, string>): (v: string)
    ensures v != "" && !IsSpace(v[0]) && !IsSpace(v[|v| - 1])
  {
    Setting(env, "SHELL", "sh")
  }

  /** The editor to run: `EDITOR`, or "vim". Never blank. */
  function EditorProgram(env: map<string, string>): (v: string)
    ensures v != "" && !IsSpace(v[0]) && !IsSpace(v[|v| - 1])
  {
    Setting(env, "EDITOR", "vim")
  }

  /** A child process: the program and its arguments. */
  datatype Command = Command(program: string, args: seq<string>)

  /** `<shell> -c "<editor> <file>"`: the script is the editor setting,
      one space, and the file path, whatever the path holds. */
  function EditCommand(env: map<string, string>, path: string): (c: Command)
    ensures c.program == Shell(env) && |c.args| == 2 && c.args[0] == "-c"
    ensures var e := EditorProgram(env); var line := c.args[1];
      && |line| == |e| + 1 + |path|
      && line[..|e|] == e && line[|e|] == ' ' && line[|e| + 1..] == path
  {
    Command(Shell(env), ["-c", EditorProgram(env) + " " + path])
  }

  /** Split at spaces, the script is the pieces of the editor setting and
      then the pieces of the path; a path without a space is one piece,
      the last. */
  lemma CommandEndsWithPath(env: map<string, string>, path: string)
    ensures var line := EditCommand(env, path).args[1];
      Split(line, ' ') == Split(EditorProgram(env), ' ') + Split(path, ' ')
    ensures ' ' !in path ==> var line := EditCommand(env, path).args[1];
      Split(line, ' ') == Split(EditorProgram(env), ' ') + [path]
  {
    SplitAppend(EditorProgram(env), ' ', path);
    if ' ' !in path {
      SplitNoSep(path, ' ');
    }
  }

  // ---------------------------------------------------------------------
  // Edit: the branches
  // ---------------------------------------------------------------------

  /** The task as read back from the file. A field is `None` when the file
      has no such key; `json.Decoder` then leaves that field as it was. */
  datatype Fields = Fields(title: Option<string>, story: Option<string>)

  /** The JSON encoder and decoder, which this model does not look
      inside; `decode` answers `None` on malformed input. */
  datatype Codec = Codec(encode: Task -> string, decode: string -> Option<Fields>)

  /** The decoder reads every encoded task back exactly. */
  ghost predicate Lossless(c: Codec) {
    forall t :: c.decode(c.encode(t)) == Some(Fields(Some(t.title), Some(t.story)))
  }

  /** What the host does for `Edit`: the environment, the temp directory
      and random name part, whether each file operation succeeds, and the
      editor. `editor(cmd, contents)` is the file's contents after running
      `cmd`, or `None` when the child fails to start or exits non-zero. */
  datatype Host = Host(
    env: map<string, string>,
    tempDir: string,
    nonce: string,
    createOk: bool,
    encodeOk: bool,
    closeOk: bool,
    editor: (Command, string) -> Option<string>,
    reopenOk: bool)

  /** Decoding into the task: a field the file has replaces the task's,
      and a field it lacks keeps the task's. */
  function Adopt(t: Task, f: Fields): (r: Task)
    ensures r.title == (if f.title.Some? then f.title.value else t.title)
    ensures r.story == (if f.story.Some? then f.story.value else t.story)
    ensures f == Fields(None, None) ==> r == t
    ensures f.title.Some? && f.story.Some? ==> r == Task(f.title.value, f.story.value)
  {
    Task(
      if f.title.Some? then f.title.value else t.title,
      if f.story.Some? then f.story.value else t.story)
  }

  /** The temp file `Edit` writes for `t`. */
  function EditPath(t: Task, h: Host): string {
    TempPath(h.tempDir, NamePattern(t.title), h.nonce)
  }

  /** The editor's run on `t`'s file: the contents it leaves, or `None`. */
  function EditorRun(t: Task, h: Host, c: Codec): Option<string> {
    h.editor(EditCommand(h.env, EditPath(t, h)), c.encode(t))
  }

  /** `Edit`. Every failure returns the task unchanged; the editor failing
      is reported before anything is decoded; on success the fields the
      edited file holds replace the task's. */
  function Edit(t: Task, h: Host, c: Codec): (r: Outcome)
    ensures r.err.Some? ==> r.task == t
    ensures r.err.None? <==>
      && h.createOk && h.encodeOk && h.closeOk && h.reopenOk
      && EditorRun(t, h, c).Some? && c.decode(EditorRun(t, h, c).value).Some?
    ensures r.err == Some(TempFileFailed) <==> !h.createOk
    ensures r.err == Some(EncodeFailed) <==> h.createOk && !h.encodeOk
    ensures r.err == Some(CloseFailed) <==> h.createOk && h.encodeOk && !h.closeOk
    ensures r.err == Some(EditorFailed) <==>
      h.createOk && h.encodeOk && h.closeOk && EditorRun(t, h, c).None?
    ensures r.err == Some(ReopenFailed) <==>
      h.createOk && h.encodeOk && h.closeOk && EditorRun(t, h, c).Some? && !h.reopenOk
    ensures r.err == Some(DecodeFailed) <==>
      && h.createOk && h.encodeOk && h.closeOk && EditorRun(t, h, c).Some? && h.reopenOk
      && c.decode(EditorRun(t, h, c).value).None?
    ensures r.err != Some(TitleEmpty) && r.err != Some(StoryEmpty)
    ensures r.err.None? ==> r.task == Adopt(t, c.decode(EditorRun(t, h, c).value).value)
  {
    if !h.createOk then Outcome(t, Some(TempFileFailed))
    else if !h.encodeOk then Outcome(t, Some(EncodeFailed))
    else if !h.closeOk then Outcome(t, Some(CloseFailed))
    else match EditorRun(t, h, c)
      case None => Outcome(t, Some(EditorFailed))
      case Some(text) =>
        if !h.reopenOk then Outcome(t, Some(ReopenFailed))
        else match c.decode(text)
          case None => Outcome(t, Some(DecodeFailed))
          case Some(f) => Outcome(Adopt(t, f), None)
  }

  /** Closing the editor without changes gives back the task as it was. */
  lemma EditUnchangedFile(t: Task, h: Host, c: Codec)
    requires Lossless(c)
    requires h.createOk && h.encodeOk && h.closeOk && h.reopenOk
    requires EditorRun(t, h, c) == Some(c.encode(t))
    ensures Edit(t, h, c) == Outcome(t, None)
  {
  }

  /** Whatever task the user leaves encoded in the file replaces the old
      one wholesale. */
  lemma EditAdoptsFile(t: Task, t': Task, h: Host, c: Codec)
    requires Lossless(c)
    requires h.createOk && h.encodeOk && h.closeOk && h.reopenOk
    requires EditorRun(t, h, c) == Some(c.encode(t'))
    ensures Edit(t, h, c) == Outcome(t', None)
  {
  }
}
