/**
 The text layout of `ui/ui.go`: `spaces` and the greedy word-wrapper
 `paragraph`. The wrapper splits its input at single spaces, keeps a running
 count of bytes, and after every word but the last puts either a space or a
 line break followed by the indentation, depending on whether the count
 already exceeds the width.
 */
module Layout {
  import opened Text

  /** `spaces(n)`: `n` spaces, and none when `n` is not positive. */
  function Spaces(n: int): (r: string)
    ensures |r| == if n > 0 then n else 0
    ensures forall i :: 0 <= i < |r| ==> r[i] == ' '
  {
    if n <= 0 then "" else Spaces(n - 1) + " "
  }

  /** The separator of a wrap: a newline and the indentation. It is all
      white space, and never a lone space. */
  function Break(indent: int): (b: string)
    ensures |b| >= 1 && b[0] == '\n' && b != " "
    ensures AllSpace(b)
  {
    "\n" + Spaces(indent)
  }

  /** The running count once each word has been appended, from `start`:
      a wrap restarts it at `indent`, a space adds one, a word adds its
      length in bytes. */
  function Counts(words: seq<string>, width: int, indent: int, start: int): (cs: seq<int>)
    ensures |cs| == |words|
    ensures |words| > 0 ==> cs[0] == start + ByteLen(words[0])
  {
    if |words| == 0 then []
    else
      var c := start + ByteLen(words[0]);
      [c] + Counts(words[1..], width, indent, if c > width then indent else c + 1)
  }

  /** Each count after the first follows from the one before it. */
  lemma {:induction false} CountsNext(words: seq<string>, width: int, indent: int, start: int, i: nat)
    requires i < |words| - 1
    ensures var cs := Counts(words, width, indent, start);
      cs[i + 1] == (if cs[i] > width then indent else cs[i] + 1) + ByteLen(words[i + 1])
  {
    if i > 0 {
      var c := start + ByteLen(words[0]);
      CountsNext(words[1..], width, indent, if c > width then indent else c + 1, i - 1);
      assert words[1..][i] == words[i + 1];
    }
  }

  /** What goes after each word but the last: a wrap exactly when the
      count, that word included, is greater than the width. */
  function Separators(words: seq<string>, width: int, indent: int): (seps: seq<string>)
    requires |words| >= 1
    ensures |seps| == |words| - 1
    ensures forall i :: 0 <= i < |seps| ==> seps[i] == " " || seps[i] == Break(indent)
    ensures forall i :: 0 <= i < |seps| ==>
      (seps[i] == Break(indent) <==> Counts(words, width, indent, 0)[i] > width)
  {
    var cs := Counts(words, width, indent, 0);
    seq(|words| - 1, i requires 0 <= i < |words| - 1 => if cs[i] > width then Break(indent) else " ")
  }

  /** The words in order with `seps[i]` between word i and word i+1, and
      nothing after the last. */
  function Weave(words: seq<string>, seps: seq<string>): string
    requires |words| >= 1 && |seps| == |words| - 1
  {
    if |words| == 1 then words[0] else words[0] + seps[0] + Weave(words[1..], seps[1..])
  }

  /** What `paragraph` returns: the space-separated words of `s`, woven
      with the separators the counting rule picks. Only white space
      changes: the visible characters are those of `s`, in order. */
  function Paragraph(s: string, width: int, indent: int): (r: string)
    ensures Visible(r) == Visible(s)
  {
    var words := Split(s, ' ');
    var seps := Separators(words, width, indent);
    WeaveVisible(words, seps);
    JoinSplit(s, ' ');
    Weave(words, seps)
  }

  /** Weaving with white-space separators keeps the visible characters of
      the words joined by spaces. */
  lemma {:induction false} WeaveVisible(words: seq<string>, seps: seq<string>)
    requires |words| >= 1 && |seps| == |words| - 1
    requires forall i :: 0 <= i < |seps| ==> AllSpace(seps[i])
    ensures Visible(Weave(words, seps)) == Visible(Join(words, ' '))
  {
    if |words| > 1 {
      var rest := Weave(words[1..], seps[1..]);
      WeaveVisible(words[1..], seps[1..]);
      VisibleAppend(words[0] + seps[0], rest);
      VisibleAppend(words[0], seps[0]);
      VisibleEmpty(seps[0]);
      var joined := Join(words[1..], ' ');
      VisibleAppend(words[0] + " ", joined);
      VisibleAppend(words[0], " ");
      assert Visible(" ") == "";
    }
  }

  lemma {:induction false} WeaveSnoc(words: seq<string>, seps: seq<string>, sep: string, w: string)
    requires |words| >= 1 && |seps| == |words| - 1
    ensures Weave(words + [w], seps + [sep]) == Weave(words, seps) + sep + w
  {
    if |words| > 1 {
      assert (words + [w])[1..] == words[1..] + [w];
      assert (seps + [sep])[1..] == seps[1..] + [sep];
      WeaveSnoc(words[1..], seps[1..], sep, w);
      var front := words[0] + seps[0];
      var rest := Weave(words[1..], seps[1..]);
      AppendAssoc(front, rest + sep, w);
      AppendAssoc(front, rest, sep);
    }
  }

  /** Appending word i to the text woven so far gives the text woven up
      to word i. */
  lemma WeaveStep(words: seq<string>, seps: seq<string>, i: nat, r: string)
    requires |seps| == |words| - 1 && i < |words|
    requires i == 0 ==> r == ""
    requires 0 < i ==> r == Weave(words[..i], seps[..i - 1]) + seps[i - 1]
    ensures r + words[i] == Weave(words[..i + 1], seps[..i])
  {
    if i > 0 {
      WeaveSnoc(words[..i], seps[..i - 1], seps[i - 1], words[i]);
      assert words[..i] + [words[i]] == words[..i + 1];
      assert seps[..i - 1] + [seps[i - 1]] == seps[..i];
    } else {
      assert words[..1] == [words[i]];
    }
  }

  /** What `paragraph`'s loop has built before word i: nothing at the
      start, then the words so far each followed by its separator, with
      the count that the last separator left. */
  ghost predicate LoopState(words: seq<string>, width: int, indent: int, i: nat, r: string, count: int)
    requires |words| >= 1 && i < |words|
  {
    var cs := Counts(words, width, indent, 0);
    var seps := Separators(words, width, indent);
    if i == 0 then r == "" && count == 0
    else
      && r == Weave(words[..i], seps[..i - 1]) + seps[i - 1]
      && count == if cs[i - 1] > width then indent else cs[i - 1] + 1
  }

  /** One turn of the loop: appending word i brings the count to the
      count after word i, and the separator the loop then appends is the
      one `Separators` picks. */
  lemma LoopStep(words: seq<string>, width: int, indent: int, i: nat, r: string, count: int)
    requires |words| >= 1 && i < |words| && LoopState(words, width, indent, i, r, count)
    ensures var c := count + ByteLen(words[i]);
      && c == Counts(words, width, indent, 0)[i]
      && (i == |words| - 1 ==> r + words[i] == Weave(words, Separators(words, width, indent)))
      && (i < |words| - 1 ==>
            LoopState(words, width, indent, i + 1,
              r + words[i] + (if c > width then "\n" + Spaces(indent) else " "),
              if c > width then indent else c + 1))
  {
    var cs := Counts(words, width, indent, 0);
    var seps := Separators(words, width, indent);
    WeaveStep(words, seps, i, r);
    if i > 0 {
      CountsNext(words, width, indent, 0, i - 1);
    }
    if i == |words| - 1 {
      assert words[..i + 1] == words && seps[..i] == seps;
    } else {
      assert seps[i] == if cs[i] > width then Break(indent) else " ";
    }
  }

  /** The loop of `paragraph`, statement for statement; it computes
      `Paragraph`. */
  method ParagraphLoop(str: string, width: int, indent: int) returns (r: string)
    ensures r == Paragraph(str, width, indent)
  {
    var wordList := Split(str, ' ');
    var count := 0;
    r := "";
    var i := 0;
    while i < |wordList|
      invariant 0 <= i <= |wordList|
      invariant i < |wordList| ==> LoopState(wordList, width, indent, i, r, count)
      invariant i == |wordList| ==> r == Paragraph(str, width, indent)
    {
      var word := wordList[i];
      LoopStep(wordList, width, indent, i, r, count);
      r := r + word;
      count := count + ByteLen(word);
      if i != |wordList| - 1 {
        if count > width {
          r := r + ("\n" + Spaces(indent));
          count := indent;
        } else {
          r := r + " ";
          count := count + 1;
        }
      }
      i := i + 1;
    }
  }

  /** With every separator a space, weaving is joining. */
  lemma {:induction false} WeaveSpaces(words: seq<string>, seps: seq<string>)
    requires |words| >= 1 && |seps| == |words| - 1
    requires forall i :: 0 <= i < |seps| ==> seps[i] == " "
    ensures Weave(words, seps) == Join(words, ' ')
  {
    if |words| > 1 {
      WeaveSpaces(words[1..], seps[1..]);
    }
  }

  /** A text with no space is one word, and comes back unchanged. */
  lemma ParagraphNoSpace(s: string, width: int, indent: int)
    requires ' ' !in s
    ensures Paragraph(s, width, indent) == s
  {
    SplitNoSep(s, ' ');
  }

  /** Undoing every wrap gives the input back: turning each wrap that
      `paragraph` puts between the words back into a space yields `s`. */
  lemma ParagraphUnwrap(s: string, width: int, indent: int)
    ensures var words := Split(s, ' ');
      var seps := Separators(words, width, indent);
      Weave(words, seq(|seps|, i requires 0 <= i < |seps| => if seps[i] == Break(indent) then " " else seps[i])) == s
  {
    var words := Split(s, ' ');
    var seps := Separators(words, width, indent);
    var unwrapped := seq(|seps|, i requires 0 <= i < |seps| => if seps[i] == Break(indent) then " " else seps[i]);
    WeaveSpaces(words, unwrapped);
    JoinSplit(s, ' ');
  }

  /** While nothing has wrapped, the count after word i plus what is still
      to come (a space and the remaining words) is the whole text's length
      in bytes. */
  lemma {:induction false} CountsWhileFitting(words: seq<string>, width: int, indent: int, i: nat)
    requires |words| >= 1 && i < |words|
    requires ByteLen(Join(words, ' ')) <= width
    ensures var cs := Counts(words, width, indent, 0);
      cs[i] + (if i < |words| - 1 then 1 + ByteLen(Join(words[i + 1..], ' ')) else 0)
        == ByteLen(Join(words, ' '))
  {
    var cs := Counts(words, width, indent, 0);
    if i == 0 {
      if |words| > 1 {
        ByteLenAppend(words[0] + " ", Join(words[1..], ' '));
        ByteLenAppend(words[0], " ");
      }
    } else {
      CountsWhileFitting(words, width, indent, i - 1);
      CountsNext(words, width, indent, 0, i - 1);
      assert cs[i - 1] <= width;
      var tail := Join(words[i..], ' ');
      assert words[i..][1..] == words[i + 1..];
      if i < |words| - 1 {
        assert tail == words[i] + " " + Join(words[i + 1..], ' ');
        ByteLenAppend(words[i] + " ", Join(words[i + 1..], ' '));
        ByteLenAppend(words[i], " ");
      } else {
        assert tail == words[i];
      }
    }
  }

  /** A text no longer than the width, in bytes, is never wrapped. */
  lemma ParagraphFits(s: string, width: int, indent: int)
    requires ByteLen(s) <= width
    ensures Paragraph(s, width, indent) == s
  {
    var words := Split(s, ' ');
    var cs := Counts(words, width, indent, 0);
    var seps := Separators(words, width, indent);
    JoinSplit(s, ' ');
    forall i | 0 <= i < |seps| ensures seps[i] == " " {
      CountsWhileFitting(words, width, indent, i);
    }
    WeaveSpaces(words, seps);
  }

  /** The first word of the output line that word i ends: the word after
      the last wrap before it, or the first word. */
  function LineStart(cs: seq<int>, width: int, i: nat): (j: nat)
    requires i < |cs|
    ensures j <= i
    ensures 0 < j ==> cs[j - 1] > width
    ensures forall k :: j <= k < i ==> cs[k] <= width
  {
    if i == 0 then 0 else if cs[i - 1] > width then i else LineStart(cs, width, i - 1)
  }

  /** The text of the output line that word i ends, up to that word: the
      indentation after a wrap, then the words since, one space apart. */
  function CurrentLine(words: seq<string>, width: int, indent: int, i: nat): string
    requires i < |words|
  {
    var j := LineStart(Counts(words, width, indent, 0), width, i);
    (if j == 0 then "" else Spaces(indent)) + Join(words[j..i + 1], ' ')
  }

  lemma {:induction false} SpacesBytes(n: int)
    ensures ByteLen(Spaces(n)) == if n > 0 then n else 0
  {
    if n > 0 {
      SpacesBytes(n - 1);
      ByteLenAppend(Spaces(n - 1), " ");
    }
  }

  /** The running count is the length in bytes of the output line so far,
      indentation included. */
  lemma {:induction false} CountIsLineLength(words: seq<string>, width: int, indent: int, i: nat)
    requires indent >= 0 && i < |words|
    ensures Counts(words, width, indent, 0)[i] == ByteLen(CurrentLine(words, width, indent, i))
  {
    var cs := Counts(words, width, indent, 0);
    if i == 0 {
      assert words[0..1] == [words[0]];
      assert CurrentLine(words, width, indent, i) == words[0];
    } else if cs[i - 1] > width {
      CountsNext(words, width, indent, 0, i - 1);
      assert words[i..i + 1] == [words[i]];
      assert CurrentLine(words, width, indent, i) == Spaces(indent) + words[i];
      SpacesBytes(indent);
      ByteLenAppend(Spaces(indent), words[i]);
    } else {
      CountIsLineLength(words, width, indent, i - 1);
      CountsNext(words, width, indent, 0, i - 1);
      LineGrows(words, width, indent, i);
    }
  }

  /** Without a wrap after word i-1, the line that word i ends is the
      previous one, a space, and word i. */
  lemma LineGrows(words: seq<string>, width: int, indent: int, i: nat)
    requires 0 < i < |words| && Counts(words, width, indent, 0)[i - 1] <= width
    ensures ByteLen(CurrentLine(words, width, indent, i))
      == ByteLen(CurrentLine(words, width, indent, i - 1)) + 1 + ByteLen(words[i])
  {
    var cs := Counts(words, width, indent, 0);
    var j := LineStart(cs, width, i);
    JoinSlice(words, ' ', j, i);
    var before := (if j == 0 then "" else Spaces(indent)) + Join(words[j..i], ' ');
    assert CurrentLine(words, width, indent, i) == before + " " + words[i];
    assert CurrentLine(words, width, indent, i - 1) == before;
    ByteLenAppend(before + " ", words[i]);
    ByteLenAppend(before, " ");
  }

  /** A wrap follows word i exactly when the output line that word ends is
      longer than the width. */
  lemma WrapIffLineTooLong(words: seq<string>, width: int, indent: int, i: nat)
    requires indent >= 0 && i < |words| - 1
    ensures Separators(words, width, indent)[i] == Break(indent)
      <==> ByteLen(CurrentLine(words, width, indent, i)) > width
  {
    CountIsLineLength(words, width, indent, i);
    assert Break(indent)[0] == '\n';
  }

  /** `Paragraph` of words glued with spaces weaves those same words. */
  lemma ParagraphOfWords(words: seq<string>, width: int, indent: int)
    requires |words| >= 1 && forall i :: 0 <= i < |words| ==> ' ' !in words[i]
    ensures Paragraph(Join(words, ' '), width, indent) == Weave(words, Separators(words, width, indent))
  {
    SplitJoin(words, ' ');
  }

  /** Two words are joined by a wrap exactly when the first alone is
      longer than the width, and by a space otherwise. */
  lemma ParagraphTwoWords(a: string, b: string, width: int, indent: int)
    requires ' ' !in a && ' ' !in b
    ensures ByteLen(a) <= width ==> Paragraph(a + " " + b, width, indent) == a + " " + b
    ensures ByteLen(a) > width ==> Paragraph(a + " " + b, width, indent) == a + Break(indent) + b
  {
    var words := [a, b];
    assert Join(words, ' ') == a + " " + b by {
      assert Join(words[1..], ' ') == b;
    }
    ParagraphOfWords(words, width, indent);
    var sep := if ByteLen(a) > width then Break(indent) else " ";
    assert Separators(words, width, indent) == [sep];
    assert Weave(words, [sep]) == a + sep + Weave([b], []);
  }

  /** A count of exactly the width does not wrap; one more byte does. */
  lemma ParagraphStrictBound(a: string, b: string, width: int, indent: int)
    requires ' ' !in a && ' ' !in b && ByteLen(a) == width
    ensures Paragraph(a + " " + b, width, indent) == a + " " + b
    ensures Paragraph(a + " " + b, width - 1, indent) == a + Break(indent) + b
  {
    ParagraphTwoWords(a, b, width, indent);
    ParagraphTwoWords(a, b, width - 1, indent);
  }

  /** The count is checked only after a word is appended, so a line runs
      past the width: when the first word fits, the second joins its line
      however long it is, and the wrap comes only after it. */
  lemma ParagraphWrapsLate(a: string, b: string, c: string, width: int, indent: int)
    requires ' ' !in a && ' ' !in b && ' ' !in c
    requires ByteLen(a) <= width < ByteLen(a) + 1 + ByteLen(b)
    ensures Paragraph(a + " " + b + " " + c, width, indent) == a + " " + b + Break(indent) + c
    ensures ByteLen(a + " " + b) > width
  {
    JoinThree(a, b, c);
    ParagraphOfWords([a, b, c], width, indent);
    WrapsLateWeave(a, b, c, width, indent);
    ByteLenAppend(a, " ");
    ByteLenAppend(a + " ", b);
  }

  lemma JoinThree(a: string, b: string, c: string)
    ensures Join([a, b, c], ' ') == a + " " + b + " " + c
  {
    assert [a, b, c][1..] == [b, c] && [b, c][1..] == [c];
    assert Join([b, c], ' ') == b + " " + c;
  }

  lemma WrapsLateWeave(a: string, b: string, c: string, width: int, indent: int)
    requires ByteLen(a) <= width < ByteLen(a) + 1 + ByteLen(b)
    ensures Weave([a, b, c], Separators([a, b, c], width, indent)) == a + " " + b + Break(indent) + c
  {
    var words := [a, b, c];
    var cs := Counts(words, width, indent, 0);
    assert cs[0] == ByteLen(a) && cs[1] == ByteLen(a) + 1 + ByteLen(b);
    var seps := Separators(words, width, indent);
    var br := Break(indent);
    assert seps == [" ", br];
    assert words[1..] == [b, c] && seps[1..] == [br];
    assert Weave([b, c], [br]) == b + br + c;
    assert Weave(words, seps) == (a + " ") + ((b + br) + c);
    AppendAssoc(a + " ", b + br, c);
    AppendAssoc(a + " ", b, br);
  }
}
