/** The cosmetic framing of the debug rendering: lines are joined with
    newlines, or, with boundaries, every line is padded to the width of the
    longest one, framed by "| " and " |", and the block is put between a rule
    of underscores and a rule of dashes. A char stands for one byte of a Go
    string. */
module Boxing {

  function Repeat(c: char, n: nat): (s: string)
    ensures |s| == n
    ensures forall i :: 0 <= i < n ==> s[i] == c
  {
    seq(n, _ => c)
  }

  /** strings.Join. */
  function Join(lines: seq<string>, sep: string): string {
    if |lines| == 0 then ""
    else if |lines| == 1 then lines[0]
    else lines[0] + sep + Join(lines[1..], sep)
  }

  /** Cuts a text at every newline; the inverse of joining with "\n". */
  function SplitLines(s: string): (ls: seq<string>)
    ensures |ls| >= 1
    decreases |s|
  {
    if |s| == 0 then
      [""]
    else
      var rest := SplitLines(s[1..]);
      if s[0] == '\n' then [""] + rest else [[s[0]] + rest[0]] + rest[1..]
  }

  lemma {:induction false} SplitLinesAfter(a: string, b: string)
    requires '\n' !in a
    ensures SplitLines(a + "\n" + b) == [a] + SplitLines(b)
    decreases |a|
  {
    if |a| == 0 {
      assert a + "\n" + b == "\n" + b;
      assert ("\n" + b)[1..] == b;
    } else {
      SplitLinesAfter(a[1..], b);
      assert (a + "\n" + b)[1..] == a[1..] + "\n" + b;
      assert [a[0]] + a[1..] == a;
    }
  }

  lemma {:induction false} SplitLinesSingle(a: string)
    requires '\n' !in a
    ensures SplitLines(a) == [a]
    decreases |a|
  {
    if |a| > 0 {
      SplitLinesSingle(a[1..]);
      assert [a[0]] + a[1..] == a;
    }
  }

  predicate NoNewlines(lines: seq<string>) {
    forall i :: 0 <= i < |lines| ==> '\n' !in lines[i]
  }

  /** Joining lines that hold no newline with "\n" and cutting the result at
      newlines gives the lines back. */
  lemma {:induction false} SplitJoin(lines: seq<string>)
    requires |lines| >= 1 && NoNewlines(lines)
    ensures SplitLines(Join(lines, "\n")) == lines
    decreases |lines|
  {
    if |lines| == 1 {
      SplitLinesSingle(lines[0]);
    } else {
      SplitJoin(lines[1..]);
      SplitLinesAfter(lines[0], Join(lines[1..], "\n"));
    }
  }

  /** Joining two non-empty lists puts one separator between them. */
  lemma {:induction false} JoinAppend(a: seq<string>, b: seq<string>, sep: string)
    requires |a| >= 1 && |b| >= 1
    ensures Join(a + b, sep) == Join(a, sep) + sep + Join(b, sep)
    decreases |a|
  {
    if |a| > 1 {
      JoinAppend(a[1..], b, sep);
      assert (a + b)[1..] == a[1..] + b;
    } else {
      assert (a + b)[1..] == b;
    }
  }

  /** The width of the longest line, 0 when there are none. */
  function MaxLen(lines: seq<string>): (m: nat)
    ensures forall i :: 0 <= i < |lines| ==> |lines[i]| <= m
    ensures m == 0 || exists i :: 0 <= i < |lines| && |lines[i]| == m
  {
    if |lines| == 0 then
      0
    else
      var m := MaxLen(lines[..|lines| - 1]);
      var last := |lines[|lines| - 1]|;
      assert forall i :: 0 <= i < |lines| - 1 ==> lines[..|lines| - 1][i] == lines[i];
      if last > m then last else m
  }

  /** One framed line: "| ", the line, spaces up to width, " |". */
  function PadLine(line: string, width: nat): (r: string)
    requires |line| <= width
    ensures |r| == width + 4
    ensures r[..2] == "| " && r[2..2 + |line|] == line && r[width + 2..] == " |"
    ensures forall k :: 2 + |line| <= k < width + 2 ==> r[k] == ' '
  {
    "| " + line + Repeat(' ', width - |line|) + " |"
  }

  /** No line is wider than width. */
  predicate FitsIn(lines: seq<string>, width: nat) {
    forall i :: 0 <= i < |lines| ==> |lines[i]| <= width
  }

  /** Every line padded to width and framed. */
  function Framed(lines: seq<string>, width: nat): (framed: seq<string>)
    requires FitsIn(lines, width)
    ensures |framed| == |lines|
    ensures forall i :: 0 <= i < |lines| ==> framed[i] == PadLine(lines[i], width)
    ensures forall i :: 0 <= i < |framed| ==> |framed[i]| == width + 4
  {
    seq(|lines|, i requires 0 <= i < |lines| => PadLine(lines[i], width))
  }

  /** The boxed text at a given width: a newline, a rule of underscores, the
      framed lines joined with newlines, a space, a rule of dashes. */
  function BoxText(lines: seq<string>, width: nat): string
    requires FitsIn(lines, width)
  {
    var top := Repeat('_', width + 4) + "\n";
    var body := Join(Framed(lines, width), "\n") + " \n";
    var bottom := Repeat('-', width + 4) + "\n";
    "\n" + top + body + bottom
  }

  /** The rendering's last step: the lines as they are, or boxed to the width
      of the longest one. */
  function Box(lines: seq<string>, withBoundaries: bool): string {
    if !withBoundaries then Join(lines, "\n") else BoxText(lines, MaxLen(lines))
  }

  /** Without boundaries the output, cut at newlines, is the lines themselves. */
  lemma BoxPlain(lines: seq<string>)
    requires |lines| >= 1 && NoNewlines(lines)
    ensures SplitLines(Box(lines, false)) == lines
  {
    SplitJoin(lines);
  }

  /** A block of lines between an opening and a closing rule, with the empty
      lines that the leading and the final newline produce. */
  function Frame(top: string, body: seq<string>, bottom: string): (out: seq<string>)
    ensures |out| == |body| + 4
    ensures out[0] == "" && out[1] == top
    ensures forall i :: 0 <= i < |body| ==> out[i + 2] == body[i]
    ensures out[|body| + 2] == bottom && out[|body| + 3] == ""
  {
    ["", top] + body + [bottom, ""]
  }

  /** The lines of the boxed output for a given width: the framed lines, the
      last one followed by the trailing space, between a rule of underscores
      and one of dashes. */
  function BoxedLines(lines: seq<string>, width: nat): (out: seq<string>)
    requires |lines| >= 1 && FitsIn(lines, width)
    ensures |out| == |lines| + 4
  {
    var framed := Framed(lines, width);
    var n := |lines|;
    Frame(Repeat('_', width + 4), framed[..n - 1] + [framed[n - 1] + " "], Repeat('-', width + 4))
  }

  /** Appending to the last of several joined lines appends to the joined text. */
  lemma JoinExtendLast(ls: seq<string>, sep: string, tail: string)
    requires |ls| >= 1
    ensures Join(ls[..|ls| - 1] + [ls[|ls| - 1] + tail], sep) == Join(ls, sep) + tail
  {
    var n := |ls|;
    if n > 1 {
      assert ls == ls[..n - 1] + [ls[n - 1]];
      JoinAppend(ls[..n - 1], [ls[n - 1]], sep);
      JoinAppend(ls[..n - 1], [ls[n - 1] + tail], sep);
    } else {
      assert ls[..n - 1] + [ls[n - 1] + tail] == [ls[0] + tail];
    }
  }

  /** Two lines before and two after a joined block. */
  lemma JoinFramedBlock(a: string, b: string, body: seq<string>, c: string, d: string, sep: string)
    requires |body| >= 1
    ensures Join([a, b] + body + [c, d], sep) == a + sep + b + sep + Join(body, sep) + sep + c + sep + d
  {
    JoinAppend([a, b], body, sep);
    JoinAppend([a, b] + body, [c, d], sep);
    assert Join([a, b], sep) == a + sep + b;
    assert Join([c, d], sep) == c + sep + d;
  }

  /** Box's output text, regrouped line by line. */
  lemma BoxTextShape(t: string, j: string, b: string)
    ensures "\n" + (t + "\n") + (j + " \n") + (b + "\n")
         == "" + "\n" + t + "\n" + (j + " ") + "\n" + b + "\n" + ""
  {
    assert j + " \n" == (j + " ") + "\n";
  }

  /** The boxed text at a given width is its lines joined with newlines. */
  lemma {:induction false} BoxedTextIsJoin(lines: seq<string>, width: nat)
    requires |lines| >= 1 && FitsIn(lines, width)
    ensures BoxText(lines, width) == Join(BoxedLines(lines, width), "\n")
  {
    var n := |lines|;
    var framed := Framed(lines, width);
    var top := Repeat('_', width + 4);
    var bottom := Repeat('-', width + 4);
    var body := framed[..n - 1] + [framed[n - 1] + " "];
    var joined := Join(framed, "\n");
    BoxTextShape(top, joined, bottom);
    JoinExtendLast(framed, "\n", " ");
    JoinFramedBlock("", top, body, bottom, "", "\n");
    assert BoxedLines(lines, width) == Frame(top, body, bottom);
  }

  /** A framed line holds a newline only where its line does. */
  lemma PadLineNoNewline(line: string, width: nat)
    requires |line| <= width && '\n' !in line
    ensures '\n' !in PadLine(line, width)
    ensures '\n' !in PadLine(line, width) + " "
  {
    var spaces := Repeat(' ', width - |line|);
    assert forall k :: 0 <= k < |spaces| ==> spaces[k] != '\n';
    assert '\n' !in spaces;
  }

  lemma RuleNoNewline(c: char, width: nat)
    requires c != '\n'
    ensures '\n' !in Repeat(c, width)
  {
  }

  lemma BoxedLinesAt(lines: seq<string>, width: nat)
    requires |lines| >= 1 && FitsIn(lines, width)
    ensures
      var out := BoxedLines(lines, width);
      var n := |lines|;
      && out[0] == ""
      && out[1] == Repeat('_', width + 4)
      && (forall i :: 0 <= i < n - 1 ==> out[i + 2] == PadLine(lines[i], width))
      && out[n + 1] == PadLine(lines[n - 1], width) + " "
      && out[n + 2] == Repeat('-', width + 4)
      && out[n + 3] == ""
  {
    var n := |lines|;
    var framed := Framed(lines, width);
    var body := framed[..n - 1] + [framed[n - 1] + " "];
    assert BoxedLines(lines, width) == Frame(Repeat('_', width + 4), body, Repeat('-', width + 4));
    assert forall i :: 0 <= i < n - 1 ==> body[i] == framed[i];
    assert body[n - 1] == framed[n - 1] + " ";
  }

  lemma BoxedLinesNoNewlines(lines: seq<string>, width: nat)
    requires |lines| >= 1 && FitsIn(lines, width) && NoNewlines(lines)
    ensures NoNewlines(BoxedLines(lines, width))
  {
    var out := BoxedLines(lines, width);
    var n := |lines|;
    BoxedLinesAt(lines, width);
    RuleNoNewline('_', width + 4);
    RuleNoNewline('-', width + 4);
    forall i | 0 <= i < |out|
      ensures '\n' !in out[i]
    {
      if 2 <= i < n + 2 {
        PadLineNoNewline(lines[i - 2], width);
      }
    }
  }

  lemma BoxSplitsIntoBoxedLines(lines: seq<string>)
    requires |lines| >= 1 && NoNewlines(lines)
    ensures FitsIn(lines, MaxLen(lines))
    ensures SplitLines(Box(lines, true)) == BoxedLines(lines, MaxLen(lines))
  {
    var m := MaxLen(lines);
    BoxedTextIsJoin(lines, m);
    BoxedLinesNoNewlines(lines, m);
    SplitJoin(BoxedLines(lines, m));
  }

  /** With boundaries the output, cut at newlines, is: an empty line, a rule of
      max+4 underscores, every line framed to width max+4 (the last one with
      one trailing space more), a rule of max+4 dashes, and an empty line. */
  lemma BoxFramed(lines: seq<string>)
    requires |lines| >= 1 && NoNewlines(lines)
    ensures
      var out := SplitLines(Box(lines, true));
      var m := MaxLen(lines);
      var n := |lines|;
      && |out| == n + 4
      && out[0] == ""
      && out[1] == Repeat('_', m + 4)
      && (forall i :: 0 <= i < n - 1 ==> out[i + 2] == PadLine(lines[i], m))
      && out[n + 1] == PadLine(lines[n - 1], m) + " "
      && out[n + 2] == Repeat('-', m + 4)
      && out[n + 3] == ""
  {
    var m := MaxLen(lines);
    BoxSplitsIntoBoxedLines(lines);
    BoxedLinesAt(lines, m);
  }
}
