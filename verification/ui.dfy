/**
 The console session of `ui/ui.go`: the blank-line protocol (`newline` and
 the `nl` flag), the questions `QueryYesNo` and `QueryLine`, and the printing
 operations `Message`, `Display` and `Line`. Output is the list of `fmt`
 calls made; input is what the session's one shared reader still holds.
 */
module Ui {
  import opened Wrappers
  import opened Text
  import opened Layout
  import State

  /** One call into `fmt`: `Println()` with no arguments, `Print(text)`,
      or `Println(text)`. */
  datatype Write = BlankLine | Print(text: string) | PrintLine(text: string)

  /** What the shared reader still holds, as successive results of
      `ReadString('\n')`: whole lines, each with its newline, and then what
      precedes the end of input, which comes back with an error. */
  datatype Input = Input(lines: seq<string>, tail: string)

  /** An `Input` as the reader delivers it: every line ends in its one
      newline, and the tail holds none. */
  ghost predicate WellFormed(input: Input) {
    && (forall i :: 0 <= i < |input.lines| ==> IsLine(input.lines[i]))
    && '\n' !in input.tail
  }

  /** A whole line: text without a newline, then the newline. */
  ghost predicate IsLine(s: string) {
    |s| > 0 && s[|s| - 1] == '\n' && '\n' !in s[..|s| - 1]
  }

  /** The characters the reader still has to deliver, in order. */
  function Stream(input: Input): string
    decreases |input.lines|
  {
    if |input.lines| == 0 then input.tail
    else input.lines[0] + Stream(input.(lines := input.lines[1..]))
  }

  /** The `UI` value: the `nl` flag, the width, the reader's input, and
      everything printed so far. */
  datatype Session = Session(nl: bool, width: int, input: Input, out: seq<Write>)

  /** `New(width)`: nothing printed and no interaction yet, so the first
      interaction prints no blank line. */
  function New(width: int, input: Input): (v: Session)
    ensures v.width == width && v.input == input && v.out == []
    ensures Newline(v).out == []
  {
    Session(false, width, input, [])
  }

  // ---------------------------------------------------------------------
  // Blank lines
  // ---------------------------------------------------------------------

  /** The number of blank lines in `out`. */
  function Blanks(out: seq<Write>): nat {
    if |out| == 0 then 0
    else Blanks(out[..|out| - 1]) + (if out[|out| - 1] == BlankLine then 1 else 0)
  }

  lemma {:induction false} BlanksAppend(a: seq<Write>, b: seq<Write>)
    ensures Blanks(a + b) == Blanks(a) + Blanks(b)
  {
    if |b| == 0 {
      assert a + b == a;
    } else {
      BlanksAppend(a, b[..|b| - 1]);
      assert (a + b)[..|a + b| - 1] == a + b[..|b| - 1];
    }
  }

  /** An operation keeps the blank-line protocol when it sets `nl`, keeps
      the width, only appends to the output, and prints exactly one blank
      line when an interaction happened before it and none otherwise. */
  predicate Interaction(u: Session, v: Session) {
    && v.nl && v.width == u.width
    && |v.out| >= |u.out| && v.out[..|u.out|] == u.out
    && Blanks(v.out) == Blanks(u.out) + (if u.nl then 1 else 0)
  }

  /** `newline`. */
  function Newline(u: Session): (v: Session)
    ensures Interaction(u, v) && v.input == u.input
    ensures |v.out| == |u.out| + (if u.nl then 1 else 0)
  {
    u.(nl := true, out := if u.nl then u.out + [BlankLine] else u.out)
  }

  /** After `newline`, printing lines that are not blank still keeps the
      protocol. */
  lemma PrintsKeepProtocol(u: Session, w: seq<Write>)
    requires forall i :: 0 <= i < |w| ==> w[i] != BlankLine
    ensures var v := Newline(u);
      Interaction(u, v.(out := v.out + w))
  {
    var v := Newline(u);
    NoBlanks(w);
    BlanksAppend(v.out, w);
    assert (v.out + w)[..|u.out|] == v.out[..|u.out|];
  }

  lemma {:induction false} NoBlanks(w: seq<Write>)
    requires forall i :: 0 <= i < |w| ==> w[i] != BlankLine
    ensures Blanks(w) == 0
  {
    if |w| > 0 {
      NoBlanks(w[..|w| - 1]);
    }
  }

  // ---------------------------------------------------------------------
  // Reading
  // ---------------------------------------------------------------------

  /** One `ReadString('\n')`: the text read, whether it failed, and what
      is left. */
  datatype Read = Read(data: string, failed: bool, rest: Input)

  /** The data read and what remains make up the reader's stream; the
      read fails exactly when no whole line is left, and then takes all
      there is. On well-formed input a read that succeeds ends at the first
      newline, and what remains is well formed. */
  function ReadString(input: Input): (r: Read)
    ensures Stream(input) == r.data + Stream(r.rest)
    ensures r.failed <==> |input.lines| == 0
    ensures r.failed ==> r.data == input.tail && Stream(r.rest) == ""
    ensures WellFormed(input) ==> WellFormed(r.rest)
    ensures WellFormed(input) && !r.failed ==> IsLine(r.data)
    ensures WellFormed(input) && r.failed ==> '\n' !in r.data
  {
    if |input.lines| > 0 then Read(input.lines[0], false, input.(lines := input.lines[1..]))
    else Read(input.tail, true, Input([], ""))
  }

  /** A question's result: the session afterwards, the value returned, and
      whether the error returned was non-nil. */
  datatype Reply<T> = Reply(session: Session, value: T, failed: bool)

  // ---------------------------------------------------------------------
  // QueryYesNo
  // ---------------------------------------------------------------------

  const Prompt: string := "Enter y|n: "

  /** The answer a line read gives: "y" or "n" once trimmed, else none. */
  function Answer(line: string): (r: Option<bool>)
    ensures r == Some(true) <==> TrimSpace(line) == "y"
    ensures r == Some(false) <==> TrimSpace(line) == "n"
    ensures r.None? <==> TrimSpace(line) != "y" && TrimSpace(line) != "n"
  {
    var t := TrimSpace(line);
    if t == "y" then Some(true) else if t == "n" then Some(false) else None
  }

  /** The position of the first `Some` in `xs`, if any. */
  function FirstSome<T>(xs: seq<Option<T>>): (k: Option<nat>)
    ensures k.Some? ==> k.value < |xs| && xs[k.value].Some?
    ensures forall j :: 0 <= j < |xs| && (k.None? || j < k.value) ==> xs[j].None?
  {
    if |xs| == 0 then None
    else if xs[0].Some? then Some(0)
    else
      var k := FirstSome(xs[1..]);
      assert forall j :: 1 <= j < |xs| ==> xs[j] == xs[1..][j - 1];
      if k.None? then None else Some(k.value + 1)
  }

  /** The answer each line gives. */
  function Answers(lines: seq<string>): (a: seq<Option<bool>>)
    ensures |a| == |lines| && forall i :: 0 <= i < |lines| ==> a[i] == Answer(lines[i])
  {
    seq(|lines|, i requires 0 <= i < |lines| => Answer(lines[i]))
  }

  /** The position of the first line that answers, if any. */
  function FirstAnswer(lines: seq<string>): (k: Option<nat>)
    ensures k.Some? ==> k.value < |lines| && Answer(lines[k.value]).Some?
    ensures forall j :: 0 <= j < |lines| && (k.None? || j < k.value) ==> Answer(lines[j]).None?
  {
    FirstSome(Answers(lines))
  }

  function Prompts(n: nat): (w: seq<Write>)
    ensures |w| == n && forall i :: 0 <= i < n ==> w[i] == Print(Prompt)
  {
    seq(n, i => Print(Prompt))
  }

  lemma PromptsCons(out: seq<Write>, n: nat)
    ensures out + [Print(Prompt)] + Prompts(n) == out + Prompts(n + 1)
  {
    assert [Print(Prompt)] + Prompts(n) == Prompts(n + 1);
  }

  /** How many times `QueryYesNo` prompts on these lines: up to the first
      answer, or until the input runs out. */
  function Asked(lines: seq<string>): nat {
    match FirstAnswer(lines)
    case Some(k) => k + 1
    case None => |lines| + 1
  }

  /** A first line that does not answer only shifts the search by one. */
  lemma FirstAnswerShift(lines: seq<string>)
    requires |lines| > 0 && Answer(lines[0]).None?
    ensures FirstAnswer(lines) ==
      match FirstAnswer(lines[1..])
      case None => None
      case Some(k) => Some(k + 1)
  {
    assert Answers(lines)[1..] == Answers(lines[1..]);
  }

  /** Skipping a first line that does not answer costs one more prompt and
      leaves the same lines after the answer. */
  lemma FirstAnswerSkip(lines: seq<string>)
    requires |lines| > 0 && Answer(lines[0]).None?
    ensures Asked(lines) == Asked(lines[1..]) + 1
    ensures FirstAnswer(lines).None? <==> FirstAnswer(lines[1..]).None?
    ensures FirstAnswer(lines).Some? ==>
      && FirstAnswer(lines).value == FirstAnswer(lines[1..]).value + 1
      && lines[1..][FirstAnswer(lines[1..]).value + 1..] == lines[FirstAnswer(lines).value + 1..]
  {
    FirstAnswerShift(lines);
    match FirstAnswer(lines[1..]) {
      case None =>
      case Some(k) =>
        assert lines[1..][k + 1..] == lines[k + 2..];
    }
  }

  /** The `for` loop of `QueryYesNo`: prompt, read, and return on an error
      or an answer; any other line prompts again. */
  function AskLoop(u: Session): (r: Reply<bool>)
    ensures r.session.nl == u.nl && r.session.width == u.width
    ensures r.session.out == u.out + Prompts(Asked(u.input.lines))
    ensures r.failed <==> FirstAnswer(u.input.lines).None?
    ensures !r.failed ==>
      var k := FirstAnswer(u.input.lines).value;
      Some(r.value) == Answer(u.input.lines[k]) && r.session.input == u.input.(lines := u.input.lines[k + 1..])
    ensures r.failed ==> !r.value && r.session.input == Input([], "")
    decreases |u.input.lines|
  {
    var asked := u.(out := u.out + [Print(Prompt)]);
    var rd := ReadString(asked.input);
    var v := asked.(input := rd.rest);
    if rd.failed then
      assert Prompts(1) == [Print(Prompt)];
      Reply(v, false, true)
    else
      match Answer(rd.data)
      case Some(b) =>
        assert Prompts(1) == [Print(Prompt)];
        Reply(v, b, false)
      case None =>
        FirstAnswerSkip(u.input.lines);
        PromptsCons(u.out, Asked(v.input.lines));
        AskLoop(v)
  }

  /** `QueryYesNo`: a blank line only when an interaction came before,
      then as many prompts as lines are read; the answer of the first line
      that gives one, every line before it skipped; or an error once the
      input runs out. */
  function QueryYesNo(u: Session): (r: Reply<bool>)
    ensures Interaction(u, r.session)
    ensures r.session.out == Newline(u).out + Prompts(Asked(u.input.lines))
    ensures r.failed <==> FirstAnswer(u.input.lines).None?
    ensures !r.failed ==>
      var k := FirstAnswer(u.input.lines).value;
      Some(r.value) == Answer(u.input.lines[k]) && r.session.input == u.input.(lines := u.input.lines[k + 1..])
    ensures r.failed ==> !r.value && r.session.input == Input([], "")
  {
    var r := AskLoop(Newline(u));
    PrintsKeepProtocol(u, Prompts(Asked(u.input.lines)));
    r
  }

  /** A line answers yes exactly when its only visible character is 'y',
      and no exactly when it is 'n': white space anywhere around the letter
      is ignored, and anything else visible spoils the answer. */
  lemma AnswerIffVisible(line: string)
    ensures Answer(line) == Some(true) <==> Visible(line) == "y"
    ensures Answer(line) == Some(false) <==> Visible(line) == "n"
  {
    var t := TrimSpace(line);
    TrimSpaceVisible(line);
    if |t| > 1 {
      VisibleTwoEnds(t);
    } else if |t| == 1 {
      assert t == [t[0]] && t[1..] == "";
      assert Visible(t) == [t[0]];
    }
  }

  /** A string with visible characters at both ends shows at least two. */
  lemma VisibleTwoEnds(t: string)
    requires |t| > 1 && !IsSpace(t[0]) && !IsSpace(t[|t| - 1])
    ensures |Visible(t)| >= 2
  {
    var rest := t[1..];
    assert rest[|rest| - 1] == t[|t| - 1];
    VisibleEmpty(rest);
    assert Visible(t) == [t[0]] + Visible(rest);
  }

  /** A word typed on a line reads back as that word once trimmed. */
  lemma TrimmedLine(w: string)
    requires |w| > 0 && !IsSpace(w[0]) && !IsSpace(w[|w| - 1])
    ensures TrimSpace(w + "\n") == w
  {
    assert (w + "\n")[..|w|] == w;
  }

  /** A line that is neither answer is skipped: "maybe" makes the loop
      prompt again, and "y" after it answers yes, after two prompts. */
  lemma QueryYesNoSkipsOtherLines(u: Session)
    requires u.input.lines == ["maybe\n", "y\n"]
    ensures var r := QueryYesNo(u);
      && !r.failed && r.value
      && r.session.out == Newline(u).out + [Print(Prompt), Print(Prompt)]
  {
    TrimmedLine("maybe");
    TrimmedLine("y");
    assert Answer("maybe\n") == None;
    assert Answer("y\n") == Some(true);
    var xs: seq<Option<bool>> := [None, Some(true)];
    assert Answers(u.input.lines) == xs;
    assert xs[1..] == [Some(true)];
    assert FirstSome(xs[1..]) == Some(0);
    assert FirstAnswer(u.input.lines) == Some(1);
    assert Prompts(2) == [Print(Prompt), Print(Prompt)];
  }

  /** An answer cut off by the end of input is an error: `ReadString`
      returns "y" together with the error, and the error wins. */
  lemma QueryYesNoNeedsNewline(u: Session)
    requires u.input == Input([], "y")
    ensures QueryYesNo(u).failed && !QueryYesNo(u).value
  {
  }

  // ---------------------------------------------------------------------
  // QueryLine, Message, Line
  // ---------------------------------------------------------------------

  /** `QueryLine`: the next line with its newline, or what is left before
      the end of input together with an error. */
  function QueryLine(u: Session): (r: Reply<string>)
    ensures Interaction(u, r.session) && r.session.out == Newline(u).out
    ensures r.failed <==> |u.input.lines| == 0
    ensures !r.failed ==> r.value == u.input.lines[0] && r.session.input == u.input.(lines := u.input.lines[1..])
    ensures r.failed ==> r.value == u.input.tail && r.session.input == Input([], "")
    ensures WellFormed(u.input) ==> WellFormed(r.session.input)
    ensures WellFormed(u.input) && !r.failed ==> IsLine(r.value)
  {
    var v := Newline(u);
    var rd := ReadString(v.input);
    Reply(v.(input := rd.rest), rd.data, rd.failed)
  }

  /** `Message`, for an already formatted text: one printed line, the text
      after "+ ", wrapped with an indentation of 2. */
  function Message(u: Session, text: string): (v: Session)
    ensures Interaction(u, v) && v.input == u.input
    ensures v.out == Newline(u).out + [PrintLine(Paragraph("+ " + text, u.width, 2))]
  {
    var v := Newline(u);
    PrintsKeepProtocol(u, [PrintLine(Paragraph("+ " + text, u.width, 2))]);
    v.(out := v.out + [PrintLine(Paragraph("+ " + text, u.width, 2))])
  }

  /** The printed message starts with '+', and is "+ " and the text
      itself when that fits the width. */
  lemma MessageText(text: string, width: int)
    ensures var p := Paragraph("+ " + text, width, 2);
      |p| > 0 && p[0] == '+'
    ensures ByteLen("+ " + text) <= width ==> Paragraph("+ " + text, width, 2) == "+ " + text
  {
    SplitAppend("+", ' ', text);
    assert "+ " + text == "+" + [' '] + text;
    SplitNoSep("+", ' ');
    if ByteLen("+ " + text) <= width {
      ParagraphFits("+ " + text, width, 2);
    }
  }

  /** `Line`: a rule of three dashes. */
  function Line(u: Session): (v: Session)
    ensures Interaction(u, v) && v.input == u.input
    ensures v.out == Newline(u).out + [PrintLine("---")]
  {
    PrintsKeepProtocol(u, [PrintLine("---")]);
    var v := Newline(u);
    v.(out := v.out + [PrintLine("---")])
  }

  // ---------------------------------------------------------------------
  // Display
  // ---------------------------------------------------------------------

  /** The queue as the session sees it: the tasks, and the last index
      that counts as opened. */
  datatype Queue = Queue(tasks: seq<State.Task>, lastOpened: int)

  const OpenTag: string := "[open] "
  const TodoTag: string := "[todo] "

  /** The title line of `Display`: the index, ". ", a space more for a
      one-digit index, the tag, and the title. Indices below 100 all put
      the tag at column 4, and it is `[open] ` exactly up to the last
      opened index. */
  function Header(index: nat, lastOpened: int, title: string): (h: string)
    ensures |h| >= |Decimal(index)| + 2 && h[..|Decimal(index)| + 2] == Decimal(index) + ". "
    ensures |h| >= |title| && h[|h| - |title|..] == title
    ensures var n := |Decimal(index)| + 2 + (if index < 10 then 1 else 0);
      && |h| == n + 7 + |title|
      && (index < 10 ==> h[n - 1] == ' ')
      && h[n..n + 7] == (if index <= lastOpened then OpenTag else TodoTag)
    ensures index < 100 ==>
      && |h| == 11 + |title|
      && (h[4..11] == OpenTag <==> index <= lastOpened)
      && (h[4..11] == TodoTag <==> lastOpened < index)
  {
    var number := Decimal(index) + ". ";
    var padded := if index < 10 then number + " " else number;
    var tagged := if index <= lastOpened then padded + OpenTag else padded + TodoTag;
    assert index < 100 ==> |padded| == 4;
    assert (tagged + title)[..|number|] == number;
    assert (tagged + title)[|padded|..|padded| + 7] == tagged[|padded|..];
    tagged + title
  }

  /** `Display`: the header and then the story, indented by four spaces,
      each wrapped with an indentation of 4. */
  function Display(u: Session, q: Queue, index: nat): (v: Session)
    requires index < |q.tasks|
    ensures Interaction(u, v) && v.input == u.input
    ensures v.out == Newline(u).out + [
      PrintLine(Paragraph(Header(index, q.lastOpened, q.tasks[index].title), u.width, 4)),
      PrintLine(Paragraph(Spaces(4) + q.tasks[index].story, u.width, 4))]
  {
    var title := Header(index, q.lastOpened, q.tasks[index].title);
    var story := Spaces(4) + q.tasks[index].story;
    var lines := [PrintLine(Paragraph(title, u.width, 4)), PrintLine(Paragraph(story, u.width, 4))];
    PrintsKeepProtocol(u, lines);
    var v := Newline(u);
    v.(out := v.out + lines)
  }

  // ---------------------------------------------------------------------
  // Sessions
  // ---------------------------------------------------------------------

  /** A public operation of `UI`. */
  datatype Op = AskYesNo | AskLine | Say(text: string) | Show(queue: Queue, index: nat) | Rule

  predicate Valid(op: Op) {
    op.Show? ==> op.index < |op.queue.tasks|
  }

  function Step(u: Session, op: Op): (v: Session)
    requires Valid(op)
    ensures Interaction(u, v)
  {
    match op
    case AskYesNo => QueryYesNo(u).session
    case AskLine => QueryLine(u).session
    case Say(text) => Message(u, text)
    case Show(q, i) => Display(u, q, i)
    case Rule => Line(u)
  }

  function Run(u: Session, ops: seq<Op>): Session
    requires forall i :: 0 <= i < |ops| ==> Valid(ops[i])
    decreases |ops|
  {
    if |ops| == 0 then u else Run(Step(u, ops[0]), ops[1..])
  }

  /** Every operation but a session's first is preceded by exactly one
      blank line. */
  lemma {:induction false} RunBlankLines(u: Session, ops: seq<Op>)
    requires forall i :: 0 <= i < |ops| ==> Valid(ops[i])
    ensures Blanks(Run(u, ops).out) == Blanks(u.out) + |ops| - (if !u.nl && |ops| > 0 then 1 else 0)
    ensures |ops| > 0 ==> Run(u, ops).nl
    decreases |ops|
  {
    if |ops| > 0 {
      RunBlankLines(Step(u, ops[0]), ops[1..]);
    }
  }

  /** k operations on a new session print k - 1 blank lines. */
  lemma SessionBlankLines(width: int, input: Input, ops: seq<Op>)
    requires |ops| >= 1
    requires forall i :: 0 <= i < |ops| ==> Valid(ops[i])
    ensures Blanks(Run(New(width, input), ops).out) == |ops| - 1
  {
    RunBlankLines(New(width, input), ops);
  }

  /** One-digit and two-digit indices line up, and the tag follows the
      last opened index. */
  lemma HeaderExamples()
    ensures Header(3, 5, "T") == "3.  [open] T"
    ensures Header(7, 5, "T") == "7.  [todo] T"
    ensures Header(12, 20, "T") == "12. [open] T"
  {
    HeaderOpenExample();
    HeaderTodoExample();
    HeaderTwoDigitExample();
  }

  lemma HeaderOpenExample()
    ensures Header(3, 5, "T") == "3.  [open] T"
  {
    assert Decimal(3) == "3";
  }

  lemma HeaderTodoExample()
    ensures Header(7, 5, "T") == "7.  [todo] T"
  {
    assert Decimal(7) == "7";
  }

  lemma HeaderTwoDigitExample()
    ensures Header(12, 20, "T") == "12. [open] T"
  {
    assert Decimal(12) == "12" by {
      assert Decimal(1) == "1";
    }
  }
}
