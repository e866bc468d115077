/**
 The pieces of Go's standard library that the task manager relies on
 (`unicode.IsSpace`, the regexp class `\s`, `strings.TrimSpace`,
 `strings.ToUpper`, `strings.Split`, `strings.ReplaceAll`, `len` and the
 `%d` verb of `fmt`), over strings as sequences of Unicode code points.
 */
module Text {

  // ---------------------------------------------------------------------
  // White space
  // ---------------------------------------------------------------------

  /** `unicode.IsSpace`: the characters `strings.TrimSpace` strips. */
  predicate IsSpace(c: char) {
    || c == '\t' || c == '\n' || c == '\U{0B}' || c == '\U{0C}' || c == '\r' || c == ' '
    || c == '\U{85}' || c == '\U{A0}' || c == '\U{1680}'
    || ('\U{2000}' <= c <= '\U{200A}')
    || c == '\U{2028}' || c == '\U{2029}' || c == '\U{202F}' || c == '\U{205F}' || c == '\U{3000}'
  }

  /** The class `\s` of Go's regular expressions: `[\t\n\f\r ]`. It is
      narrower than `IsSpace`: the vertical tab and the non-ASCII spaces
      are not in it. */
  predicate IsRegexSpace(c: char) {
    c == '\t' || c == '\n' || c == '\U{0C}' || c == '\r' || c == ' '
  }

  predicate AllSpace(s: string) {
    forall i :: 0 <= i < |s| ==> IsSpace(s[i])
  }

  /** The characters of `s` that are not white space, in order. */
  function Visible(s: string): (r: string)
    ensures |r| <= |s|
    ensures forall i :: 0 <= i < |r| ==> !IsSpace(r[i])
  {
    if |s| == 0 then "" else (if IsSpace(s[0]) then "" else [s[0]]) + Visible(s[1..])
  }

  lemma {:induction false} VisibleAppend(a: string, b: string)
    ensures Visible(a + b) == Visible(a) + Visible(b)
  {
    if |a| == 0 {
      assert a + b == b;
    } else {
      assert (a + b)[1..] == a[1..] + b;
      VisibleAppend(a[1..], b);
    }
  }

  lemma {:induction false} VisibleEmpty(s: string)
    ensures Visible(s) == "" <==> AllSpace(s)
  {
    if |s| > 0 {
      VisibleEmpty(s[1..]);
      assert AllSpace(s) <==> IsSpace(s[0]) && AllSpace(s[1..]) by {
        if IsSpace(s[0]) && AllSpace(s[1..]) {
          forall i | 0 <= i < |s| ensures IsSpace(s[i]) {
            if i > 0 { assert s[i] == s[1..][i - 1]; }
          }
        }
      }
    }
  }

  lemma AppendAssoc<T>(x: seq<T>, y: seq<T>, z: seq<T>)
    ensures x + (y + z) == (x + y) + z
  {
  }

  // ---------------------------------------------------------------------
  // strings.TrimSpace
  // ---------------------------------------------------------------------

  /** `strings.TrimSpace`: what remains has white space at neither end,
      and a string with none at either end is left alone. The leading run
      goes first, then the trailing one. */
  function TrimSpace(s: string): (r: string)
    ensures |r| > 0 ==> !IsSpace(r[0]) && !IsSpace(r[|r| - 1])
    ensures |s| == 0 || (!IsSpace(s[0]) && !IsSpace(s[|s| - 1])) ==> r == s
  {
    if |s| > 0 && IsSpace(s[0]) then TrimSpace(s[1..])
    else if |s| > 0 && IsSpace(s[|s| - 1]) then TrimSpace(s[..|s| - 1])
    else s
  }

  /** `strings.TrimSpace` removes only white space: the visible characters
      are all kept, and nothing is left exactly when there were none. */
  lemma {:induction false} TrimSpaceVisible(s: string)
    ensures Visible(TrimSpace(s)) == Visible(s)
    ensures TrimSpace(s) == "" <==> AllSpace(s)
  {
    VisibleEmpty(s);
    if |s| > 0 && IsSpace(s[0]) {
      TrimSpaceVisible(s[1..]);
      VisibleEmpty(s[1..]);
    } else if |s| > 0 && IsSpace(s[|s| - 1]) {
      var t := s[..|s| - 1];
      TrimSpaceVisible(t);
      VisibleEmpty(t);
      assert s == t + [s[|s| - 1]];
      VisibleAppend(t, [s[|s| - 1]]);
      assert Visible([s[|s| - 1]]) == "";
    }
  }

  lemma AllSpaceAppend(a: string, b: string)
    ensures AllSpace(a + b) <==> AllSpace(a) && AllSpace(b)
  {
    if AllSpace(a + b) {
      forall i | 0 <= i < |a| ensures IsSpace(a[i]) {
        assert a[i] == (a + b)[i];
      }
      forall i | 0 <= i < |b| ensures IsSpace(b[i]) {
        assert b[i] == (a + b)[|a| + i];
      }
    }
    if AllSpace(a) && AllSpace(b) {
      forall i | 0 <= i < |a + b| ensures IsSpace((a + b)[i]) {
        if i < |a| { assert (a + b)[i] == a[i]; } else { assert (a + b)[i] == b[i - |a|]; }
      }
    }
  }

  /** `r` sits in `s` at `i` with only white space around it. */
  ghost predicate PaddedAt(s: string, r: string, i: int) {
    0 <= i <= |s| - |r| && r == s[i..i + |r|] && AllSpace(s[..i]) && AllSpace(s[i + |r|..])
  }

  lemma PaddedCons(c: char, t: string, r: string, i: int)
    requires IsSpace(c) && PaddedAt(t, r, i)
    ensures PaddedAt([c] + t, r, i + 1)
  {
    var s := [c] + t;
    assert s[..i + 1] == [c] + t[..i];
    AllSpaceAppend([c], t[..i]);
    assert s[i + 1 + |r|..] == t[i + |r|..];
    assert s[i + 1..i + 1 + |r|] == t[i..i + |r|];
  }

  lemma PaddedSnoc(t: string, c: char, r: string, i: int)
    requires IsSpace(c) && PaddedAt(t, r, i)
    ensures PaddedAt(t + [c], r, i)
  {
    var s := t + [c];
    assert s[..i] == t[..i];
    assert s[i + |r|..] == t[i + |r|..] + [c];
    AllSpaceAppend(t[i + |r|..], [c]);
    assert s[i..i + |r|] == t[i..i + |r|];
  }

  lemma PaddedSelf(s: string)
    ensures PaddedAt(s, s, 0)
  {
    assert s[..0] == "" && s[|s|..] == "" && s[0..|s|] == s;
  }

  /** `strings.TrimSpace` cuts only at the ends: what remains is a slice of
      `s` with nothing but white space before it and after it. */
  lemma {:induction false} TrimSpaceOnlyEnds(s: string)
    ensures exists i :: PaddedAt(s, TrimSpace(s), i)
  {
    if |s| > 0 && IsSpace(s[0]) {
      var t := s[1..];
      assert s == [s[0]] + t;
      TrimSpaceOnlyEnds(t);
      TrimFrontStep(s[0], t);
    } else if |s| > 0 && IsSpace(s[|s| - 1]) {
      var t := s[..|s| - 1];
      assert s == t + [s[|s| - 1]];
      TrimSpaceOnlyEnds(t);
      TrimBackStep(t, s[|s| - 1]);
    } else {
      assert TrimSpace(s) == s;
      PaddedSelf(s);
    }
  }

  lemma TrimFrontStep(c: char, t: string)
    requires IsSpace(c)
    requires exists i :: PaddedAt(t, TrimSpace(t), i)
    ensures exists i :: PaddedAt([c] + t, TrimSpace([c] + t), i)
  {
    var r := TrimSpace(t);
    assert ([c] + t)[1..] == t;
    assert TrimSpace([c] + t) == r;
    var i :| PaddedAt(t, r, i);
    PaddedCons(c, t, r, i);
  }

  lemma TrimBackStep(t: string, c: char)
    requires |t| == 0 || !IsSpace(t[0])
    requires IsSpace(c)
    requires exists i :: PaddedAt(t, TrimSpace(t), i)
    ensures exists i :: PaddedAt(t + [c], TrimSpace(t + [c]), i)
  {
    var r := TrimSpace(t);
    assert (t + [c])[..|t|] == t;
    assert TrimSpace(t + [c]) == r;
    var i :| PaddedAt(t, r, i);
    PaddedSnoc(t, c, r, i);
  }

  /** Removing white space leaves the visible characters alone. */
  lemma DropSpaceVisible(w: string, t: string)
    requires AllSpace(w)
    ensures Visible(w + t) == Visible(t) && Visible(t + w) == Visible(t)
  {
    VisibleEmpty(w);
    VisibleAppend(w, t);
    VisibleAppend(t, w);
  }

  // ---------------------------------------------------------------------
  // strings.ToUpper
  // ---------------------------------------------------------------------

  predicate IsLower(c: char) {
    'a' <= c <= 'z'
  }

  function UpperChar(c: char): char {
    if IsLower(c) then (c as int - 32) as char else c
  }

  /** `strings.ToUpper` on ASCII letters: every lower-case letter becomes
      its capital, and nothing else changes. */
  function ToUpper(s: string): (r: string)
    ensures |r| == |s|
    ensures forall i :: 0 <= i < |r| ==> !IsLower(r[i])
    ensures forall i :: 0 <= i < |r| ==>
      if IsLower(s[i]) then r[i] as int == s[i] as int - 32 else r[i] == s[i]
  {
    seq(|s|, i requires 0 <= i < |s| => UpperChar(s[i]))
  }

  // ---------------------------------------------------------------------
  // strings.Split and its inverse
  // ---------------------------------------------------------------------

  /** The pieces of `ws` glued back together with `sep` between them. */
  function Join(ws: seq<string>, sep: char): string
    requires |ws| >= 1
  {
    if |ws| == 1 then ws[0] else ws[0] + [sep] + Join(ws[1..], sep)
  }

  lemma {:induction false} JoinSnoc(ws: seq<string>, sep: char, w: string)
    requires |ws| >= 1
    ensures Join(ws + [w], sep) == Join(ws, sep) + [sep] + w
  {
    if |ws| > 1 {
      assert (ws + [w])[1..] == ws[1..] + [w];
      JoinSnoc(ws[1..], sep, w);
    }
  }

  lemma JoinSlice(ws: seq<string>, sep: char, j: nat, i: nat)
    requires j < i < |ws|
    ensures Join(ws[j..i + 1], sep) == Join(ws[j..i], sep) + [sep] + ws[i]
  {
    assert ws[j..i] + [ws[i]] == ws[j..i + 1];
    JoinSnoc(ws[j..i], sep, ws[i]);
  }

  /** `strings.Split(s, string(sep))`: at least one piece, and no piece
      holds the separator. */
  function Split(s: string, sep: char): (r: seq<string>)
    ensures |r| >= 1
    ensures forall i :: 0 <= i < |r| ==> sep !in r[i]
  {
    if |s| == 0 then [""]
    else
      var rest := Split(s[1..], sep);
      if s[0] == sep then [""] + rest
      else
        var r := [[s[0]] + rest[0]] + rest[1..];
        assert r[1..] == rest[1..];
        r
  }

  /** Joining the pieces with the separator gives `s` back. */
  lemma {:induction false} JoinSplit(s: string, sep: char)
    ensures Join(Split(s, sep), sep) == s
  {
    if |s| > 0 {
      var rest := Split(s[1..], sep);
      JoinSplit(s[1..], sep);
      if s[0] == sep {
        assert ([""] + rest)[1..] == rest;
      } else {
        var r := [[s[0]] + rest[0]] + rest[1..];
        assert r[1..] == rest[1..];
        if |rest| > 1 {
          assert Join(rest, sep) == rest[0] + [sep] + Join(rest[1..], sep);
        }
      }
      assert s == [s[0]] + s[1..];
    }
  }

  lemma {:induction false} SplitNoSep(w: string, sep: char)
    requires sep !in w
    ensures Split(w, sep) == [w]
  {
    if |w| > 0 {
      SplitNoSep(w[1..], sep);
      assert [w[0]] + w[1..] == w;
    }
  }

  /** Splitting at a separator splits the two sides independently. */
  lemma {:induction false} SplitAppend(a: string, sep: char, b: string)
    ensures Split(a + [sep] + b, sep) == Split(a, sep) + Split(b, sep)
  {
    if |a| == 0 {
      assert a + [sep] + b == [sep] + b;
      assert ([sep] + b)[1..] == b;
    } else {
      assert (a + [sep] + b)[1..] == a[1..] + [sep] + b;
      SplitAppend(a[1..], sep, b);
    }
  }

  /** `Split` undoes `Join` when no piece holds the separator. */
  lemma {:induction false} SplitJoin(ws: seq<string>, sep: char)
    requires |ws| >= 1
    requires forall i :: 0 <= i < |ws| ==> sep !in ws[i]
    ensures Split(Join(ws, sep), sep) == ws
  {
    SplitNoSep(ws[0], sep);
    if |ws| > 1 {
      SplitJoin(ws[1..], sep);
      SplitAppend(ws[0], sep, Join(ws[1..], sep));
      assert [ws[0]] + ws[1..] == ws;
    }
  }

  // ---------------------------------------------------------------------
  // strings.ReplaceAll with one-character operands
  // ---------------------------------------------------------------------

  /** Every `from` in `s` becomes `to`; no `from` is left. */
  function ReplaceChar(s: string, from: char, to: char): (r: string)
    ensures |r| == |s|
    ensures from != to ==> from !in r
    ensures forall i :: 0 <= i < |s| ==> r[i] == if s[i] == from then to else s[i]
  {
    seq(|s|, i requires 0 <= i < |s| => if s[i] == from then to else s[i])
  }

  // ---------------------------------------------------------------------
  // len: the length of a string in bytes
  // ---------------------------------------------------------------------

  /** The number of bytes of `c` in UTF-8. */
  function RuneLen(c: char): (n: nat)
    ensures 1 <= n <= 4
    ensures n == 1 <==> c as int < 0x80
  {
    if c as int < 0x80 then 1
    else if c as int < 0x800 then 2
    else if c as int < 0x1_0000 then 3
    else 4
  }

  /** Go's `len` of a string: its length in UTF-8 bytes. */
  function ByteLen(s: string): (n: nat)
    ensures |s| <= n <= 4 * |s|
  {
    if |s| == 0 then 0 else RuneLen(s[0]) + ByteLen(s[1..])
  }

  lemma {:induction false} ByteLenAppend(a: string, b: string)
    ensures ByteLen(a + b) == ByteLen(a) + ByteLen(b)
  {
    if |a| == 0 {
      assert a + b == b;
    } else {
      assert (a + b)[1..] == a[1..] + b;
      ByteLenAppend(a[1..], b);
    }
  }

  // ---------------------------------------------------------------------
  // fmt's %d on a non-negative integer
  // ---------------------------------------------------------------------

  predicate IsDigit(c: char) {
    '0' <= c <= '9'
  }

  function DigitChar(d: nat): (c: char)
    requires d < 10
    ensures IsDigit(c)
  {
    ('0' as int + d) as char
  }

  /** The decimal numeral of `n`, without leading zeros. */
  function Decimal(n: nat): (r: string)
    ensures |r| >= 1
    ensures forall i :: 0 <= i < |r| ==> IsDigit(r[i])
    ensures r[0] == '0' ==> n == 0
    ensures |r| == 1 <==> n < 10
    ensures |r| == 2 <==> 10 <= n < 100
  {
    if n < 10 then [DigitChar(n)] else Decimal(n / 10) + [DigitChar(n % 10)]
  }

  /** The value of a numeral; an independent reading of `Decimal`. */
  function ParseDecimal(s: string): nat
    requires forall i :: 0 <= i < |s| ==> IsDigit(s[i])
  {
    if |s| == 0 then 0
    else
      assert IsDigit(s[|s| - 1]);
      10 * ParseDecimal(s[..|s| - 1]) + (s[|s| - 1] as int - '0' as int)
  }

  lemma {:induction false} DecimalRoundTrip(n: nat)
    ensures ParseDecimal(Decimal(n)) == n
  {
    var r := Decimal(n);
    if n >= 10 {
      DecimalRoundTrip(n / 10);
      assert r[..|r| - 1] == Decimal(n / 10);
    }
  }
}
