/**
 The text wrapper of the command line parser. A step cuts one line out of the text at a position; the
 wrapped text is the non-empty lines, indented and joined.
 */
module TextWrap {
  import opened Basics

  /** The characters the parser takes for whitespace: " \a\b\f\n\r\t\v". */
  predicate Blank(c: char) {
    c == ' ' || ('\U{7}' <= c <= '\U{d}')
  }

  /** `find_first_not_of`, with the length for "none". */
  function FirstNonBlank(s: string): (k: nat)
    ensures k <= |s|
  {
    if s == "" || !Blank(s[0]) then 0 else 1 + FirstNonBlank(s[1..])
  }

  lemma {:induction false} FirstNonBlankIs(s: string, k: nat)
    requires k == FirstNonBlank(s)
    ensures (forall i :: 0 <= i < k ==> Blank(s[i])) && (k < |s| ==> !Blank(s[k]))
  {
    if k > 0 { FirstNonBlankIs(s[1..], k - 1); }
  }

  /** The position behind the one `find_last_not_of` gives, with zero for "none". */
  function EndOfNonBlank(s: string): (k: nat)
    ensures k <= |s|
  {
    if s == "" then 0 else if !Blank(s[|s| - 1]) then |s| else EndOfNonBlank(s[..|s| - 1])
  }

  lemma {:induction false} EndOfNonBlankIs(s: string, k: nat)
    requires k == EndOfNonBlank(s)
    ensures (forall i :: k <= i < |s| ==> Blank(s[i])) && (k > 0 ==> !Blank(s[k - 1]))
  {
    if s != "" && Blank(s[|s| - 1]) { EndOfNonBlankIs(s[..|s| - 1], k); }
  }

  /** `find_first_of("\n")`, with the length for "none". */
  function FirstNewline(s: string): (k: nat)
    ensures k <= |s|
  {
    if s == "" || s[0] == '\n' then 0 else 1 + FirstNewline(s[1..])
  }

  lemma {:induction false} FirstNewlineIs(s: string, k: nat)
    requires k <= |s|
    ensures k == FirstNewline(s) <==> (forall i :: 0 <= i < k ==> s[i] != '\n') && (k < |s| ==> s[k] == '\n')
  {
    if s != "" && s[0] != '\n' && k > 0 {
      FirstNewlineIs(s[1..], k - 1);
      assert (forall i :: 0 <= i < k ==> s[i] != '\n') <==> (forall i :: 0 <= i < k - 1 ==> s[1..][i] != '\n') by {
        assert forall i :: 0 < i < k ==> s[i] == s[1..][i - 1];
      }
    }
  }

  /** One more than what `find_last_of` gives for the whitespace, with zero for "none". */
  function EndOfBlank(s: string): (k: nat)
    ensures k <= |s| && (k > 0 ==> Blank(s[k - 1]))
  {
    if s == "" then 0 else if Blank(s[|s| - 1]) then |s| else EndOfBlank(s[..|s| - 1])
  }

  /** `trimmedString`. */
  function Trimmed(s: string): (t: string)
    ensures FirstNonBlank(s) + |t| <= |s|
  {
    var first, end := FirstNonBlank(s), EndOfNonBlank(s);
    FirstNonBlankIs(s, first);
    EndOfNonBlankIs(s, end);
    if first == |s| then "" else s[first..end]
  }

  /** What trimming takes away is whitespace, and it leaves none at the front. */
  lemma TrimmedIs(s: string, a: nat, t: string)
    requires a == FirstNonBlank(s) && t == Trimmed(s)
    ensures t == s[a..a + |t|]
    ensures forall i :: 0 <= i < a || a + |t| <= i < |s| ==> Blank(s[i])
    ensures t != "" ==> !Blank(t[0]) && !Blank(t[|t| - 1])
  {
    var e := EndOfNonBlank(s);
    FirstNonBlankIs(s, a);
    EndOfNonBlankIs(s, e);
    if a < |s| {
      assert t == s[a..e] && a + |t| == e;
      assert t[0] == s[a] && t[|t| - 1] == s[e - 1];
    }
  }

  /** One line's place in the text, and where the next step reads on. */
  datatype Cut = Cut(start: nat, end: nat, next: nat)

  /** A position, or the end of the text if it is behind that. */
  function Clip(s: string, k: nat): (r: nat)
    ensures r <= |s|
  {
    if k < |s| then k else |s|
  }

  /** The text a step looks at: at most `room` characters, up to the first newline. */
  function Looked(s: string, room: nat, pos: nat): (line: string)
    requires pos < |s|
    ensures pos + |line| <= |s| && |line| <= room
  {
    var raw := s[pos..Clip(s, pos + room)];
    raw[..FirstNewline(raw)]
  }

  lemma LookedIs(s: string, room: nat, pos: nat, line: string)
    requires pos < |s| && line == Looked(s, room, pos)
    ensures line == s[pos..pos + |line|] && '\n' !in line
    ensures |line| < room ==> pos + |line| == |s| || s[pos + |line|] == '\n'
  {
    var raw := s[pos..Clip(s, pos + room)];
    FirstNewlineIs(raw, FirstNewline(raw));
  }

  /**
   The cut of a line of `length` characters whose trimmed text has `size` characters from the `a`-th on, the
   last whitespace among these in front of its `last`-th: a line that fills the room is broken there, or,
   without whitespace, where the room ends.
   */
  function CutOf(room: nat, pos: nat, length: nat, a: nat, size: nat, last: nat): Cut {
    if length < room then Cut(pos + a, pos + a + size, pos + size + 1)
    else if last > 0 then Cut(pos + a, pos + a + last - 1, pos + last)
    else Cut(pos + a, pos + a + size, pos + room)
  }

  /** One step of the loop, for a position inside the text. */
  function NextCut(s: string, room: nat, pos: nat): Cut
    requires pos < |s| && room > 0
  {
    var line := Looked(s, room, pos);
    var t := Trimmed(line);
    CutOf(room, pos, |line|, FirstNonBlank(line), |t|, EndOfBlank(t))
  }

  function Slice(s: string, c: Cut): string {
    if c.start <= c.end <= |s| then s[c.start..c.end] else ""
  }

  /** A step makes progress and skips nothing but whitespace; its line fits and has no newline in it. */
  ghost predicate GoodCut(s: string, room: nat, pos: nat, c: Cut) {
    pos < c.next && pos <= c.start <= c.end <= |s| && c.end <= c.start + room && c.end <= pos + room &&
    (c.end <= c.next || c.next == pos + (c.end - c.start) + 1) &&
    (forall i :: pos <= i < c.start ==> Blank(s[i])) &&
    (forall i :: c.start <= i < c.end ==> s[i] != '\n') &&
    (forall i :: pos <= i < c.next && i < |s| && !Blank(s[i]) ==> c.start <= i < c.end)
  }

  lemma CutIsGood(s: string, room: nat, pos: nat)
    requires pos < |s| && room > 0
    ensures GoodCut(s, room, pos, NextCut(s, room, pos))
  {
    var line := Looked(s, room, pos);
    var t := Trimmed(line);
    LookedIs(s, room, pos, line);
    TrimmedIs(line, FirstNonBlank(line), t);
    TextIsGood(s, room, pos, line, FirstNonBlank(line), t, EndOfBlank(t));
  }

  lemma TextIsGood(s: string, room: nat, pos: nat, line: string, a: nat, t: string, last: nat)
    requires pos + |line| <= |s| && 0 < room && |line| <= room && line == s[pos..pos + |line|] && '\n' !in line
    requires |line| < room ==> pos + |line| == |s| || s[pos + |line|] == '\n'
    requires a + |t| <= |line| && t == line[a..a + |t|] && last <= |t|
    requires forall i :: 0 <= i < a || a + |t| <= i < |line| ==> Blank(line[i])
    requires (t != "" ==> !Blank(t[0])) && (last > 0 ==> Blank(t[last - 1]))
    ensures GoodCut(s, room, pos, CutOf(room, pos, |line|, a, |t|, last))
  {
    forall i | pos <= i < pos + |line| ensures s[i] == line[i - pos] && s[i] != '\n' {}
    assert t != "" ==> t[0] == s[pos + a];
    assert last > 0 ==> t[last - 1] == s[pos + a + last - 1];
    LineIsGood(s, room, pos, |line|, a, |t|, last);
  }

  /** `length` characters looked at, `size` of them left by trimming, the last whitespace in these in front of `last`. */
  lemma LineIsGood(s: string, room: nat, pos: nat, length: nat, a: nat, size: nat, last: nat)
    requires pos + length <= |s| && 0 < room && length <= room && a + size <= length && last <= size
    requires forall i :: pos <= i < pos + length ==> s[i] != '\n'
    requires length < room ==> pos + length == |s| || s[pos + length] == '\n'
    requires forall i :: pos <= i < pos + a || pos + a + size <= i < pos + length ==> Blank(s[i])
    requires size > 0 ==> !Blank(s[pos + a])
    requires last > 0 ==> Blank(s[pos + a + last - 1])
    ensures GoodCut(s, room, pos, CutOf(room, pos, length, a, size, last))
  {
  }

  function Cuts(s: string, room: nat, pos: nat): seq<Cut>
    requires room > 0
    decreases |s| - pos
  {
    if pos >= |s| then []
    else
      var c := NextCut(s, room, pos);
      CutIsGood(s, room, pos);
      [c] + Cuts(s, room, c.next)
  }

  function Spaces(n: nat): string {
    seq(n, _ => ' ')
  }

  /** What a cut adds to the lines: nothing when it is empty, else its text, indented. */
  function LineOf(s: string, c: Cut, indent: nat): seq<string> {
    if Slice(s, c) == "" then [] else [Spaces(indent) + Slice(s, c)]
  }

  function Lines(s: string, cs: seq<Cut>, indent: nat): seq<string> {
    if cs == [] then [] else LineOf(s, cs[0], indent) + Lines(s, cs[1..], indent)
  }

  lemma CutsStep(s: string, room: nat, pos: nat, cs: seq<Cut>)
    requires room > 0 && pos < |s| && cs == Cuts(s, room, pos)
    ensures cs != [] && cs[0] == NextCut(s, room, pos) && pos < cs[0].next && cs[1..] == Cuts(s, room, cs[0].next)
    ensures GoodCut(s, room, pos, cs[0])
  {
    CutIsGood(s, room, pos);
  }

  function Join(lines: seq<string>): string {
    if lines == [] then "" else if |lines| == 1 then lines[0] else lines[0] + "\n" + Join(lines[1..])
  }

  lemma {:induction false} JoinOneMore(lines: seq<string>, line: string)
    ensures Join(lines + [line]) == if lines == [] then line else Join(lines) + "\n" + line
  {
    if |lines| > 0 {
      JoinOneMore(lines[1..], line);
      assert (lines + [line])[1..] == lines[1..] + [line];
      if |lines| > 1 {
        assert lines[0] + "\n" + (Join(lines[1..]) + "\n" + line) == lines[0] + "\n" + Join(lines[1..]) + "\n" + line;
      }
    }
  }

  /** The lines a text is cut into. */
  function CutLines(s: string, room: nat, indent: nat): seq<string>
    requires room > 0
  {
    Lines(s, Cuts(s, room, 0), indent)
  }

  /** `formatString`, with the room it leaves for text and the lines it makes. */
  method FormatString(s: string, width: nat, indent: nat)
    returns (formatted: string, ghost room: nat, ghost lines: seq<string>)
    ensures indent >= width ==> formatted == s
    ensures indent < width ==> room == width - indent && lines == CutLines(s, room, indent) && formatted == Join(lines)
  {
    if indent >= width {
      formatted, room, lines := s, 0, [];
    } else {
      var left := width - indent;
      var taken := TakeLines(s, left, indent);
      formatted := JoinLines(taken);
      room, lines := left, taken;
    }
  }

  /** Its first loop. */
  method TakeLines(s: string, room: nat, indent: nat) returns (lines: seq<string>)
    requires room > 0
    ensures lines == CutLines(s, room, indent)
  {
    lines := [];
    var pos := 0;
    ghost var left := Cuts(s, room, pos);
    while pos < |s|
      invariant left == Cuts(s, room, pos) && lines + Lines(s, left, indent) == CutLines(s, room, indent)
      decreases |s| - pos
    {
      CutsStep(s, room, pos, left);
      var line, next := TakeLine(s, room, pos, left[0]);
      LinesStep(s, left, indent, lines, line);
      if line != "" { lines := lines + [Spaces(indent) + line]; }
      pos, left := next, left[1..];
    }
    assert left == [] && lines + [] == lines;
  }

  lemma LinesStep(s: string, cs: seq<Cut>, indent: nat, done: seq<string>, line: string)
    requires cs != [] && line == Slice(s, cs[0])
    ensures (if line == "" then done else done + [Spaces(indent) + line]) + Lines(s, cs[1..], indent)
         == done + Lines(s, cs, indent)
  {
    Associative(done, LineOf(s, cs[0], indent), Lines(s, cs[1..], indent));
  }

  /** One round of the loop: the line without its indentation, and the next position. */
  method TakeLine(s: string, room: nat, pos: nat, ghost c: Cut) returns (line: string, next: nat)
    requires pos < |s| && room > 0 && c == NextCut(s, room, pos) && GoodCut(s, room, pos, c)
    ensures line == Slice(s, c) && next == c.next
  {
    var looked := LookAt(s, room, pos);
    line := Trimmed(looked);
    ghost var a := FirstNonBlank(looked);
    LookedIs(s, room, pos, looked);
    TrimmedIs(looked, a, line);
    SubSlice(s, pos, looked, a, line, |line|);
    line, next := Break(line, |looked| >= room, room, pos, s, a, |looked|, c);
  }

  /** Extracting it. */
  method LookAt(s: string, room: nat, pos: nat) returns (line: string)
    requires pos < |s|
    ensures line == Looked(s, room, pos)
  {
    line := s[pos..Clip(s, pos + room)];
    var newline := FirstNewline(line);
    if newline < |line| { line := line[..newline]; }
  }

  /** Its second half, for a line looked at of `length` characters and trimmed to `t`. */
  method Break(t: string, whole: bool, room: nat, pos: nat, ghost s: string, ghost a: nat, ghost length: nat, ghost c: Cut)
    returns (line: string, next: nat)
    requires pos + a + |t| <= |s| && t == s[pos + a..pos + a + |t|] && whole == (length >= room)
    requires c == CutOf(room, pos, length, a, |t|, EndOfBlank(t))
    ensures line == Slice(s, c) && next == c.next
  {
    line := t;
    if !whole {
      next := pos + |line| + 1;
    } else {
      var last := EndOfBlank(line);
      if last > 0 {
        Shortened(s, pos + a, t, last - 1);
        line := line[..last - 1];
        next := pos + last;
      } else {
        next := pos + room;
      }
    }
  }

  lemma Shortened(s: string, start: nat, t: string, k: nat)
    requires start + |t| <= |s| && t == s[start..start + |t|] && k <= |t|
    ensures t[..k] == s[start..start + k]
  {
  }

  lemma SubSlice(s: string, pos: nat, line: string, a: nat, t: string, k: nat)
    requires pos + |line| <= |s| && line == s[pos..pos + |line|]
    requires a + |t| <= |line| && t == line[a..a + |t|] && k <= |t|
    ensures t[..k] == s[pos + a..pos + a + k] && t[..|t|] == t
  {
    forall j | 0 <= j < k ensures t[j] == s[pos + a + j] {
      assert t[j] == line[a + j];
    }
  }

  /** The loop that puts the lines together. */
  method JoinLines(lines: seq<string>) returns (formatted: string)
    ensures formatted == Join(lines)
  {
    formatted := "";
    var first := true;
    for i := 0 to |lines|
      invariant first == (i == 0) && formatted == Join(lines[..i])
    {
      JoinOneMore(lines[..i], lines[i]);
      assert lines[..i + 1] == lines[..i] + [lines[i]];
      if !first { formatted := formatted + "\n"; } else { first := false; }
      formatted := formatted + lines[i];
    }
    assert lines[..|lines|] == lines;
  }

  // The lines of the result ---------------------------------------------------------------------

  /** A text's lines. */
  function SplitLines(s: string): seq<string>
    decreases |s|
  {
    var k := FirstNewline(s);
    if k == |s| then [s] else [s[..k]] + SplitLines(s[k + 1..])
  }

  lemma {:induction false} SplitJoined(lines: seq<string>, width: nat)
    requires lines != [] && forall i :: 0 <= i < |lines| ==> FitsIn(lines[i], width)
    ensures SplitLines(Join(lines)) == lines
    decreases |lines|
  {
    var text := Join(lines);
    if |lines| == 1 {
      FirstNewlineIs(text, |text|);
    } else {
      var rest := Join(lines[1..]);
      SplitJoined(lines[1..], width);
      var k := |lines[0]|;
      assert text[..k] == lines[0] && text[k] == '\n' && text[k + 1..] == rest;
      FirstNewlineIs(text, k);
    }
  }

  lemma {:induction false} LinesFit(s: string, room: nat, pos: nat, indent: nat, cs: seq<Cut>)
    requires room > 0 && cs == Cuts(s, room, pos)
    ensures forall i :: 0 <= i < |Lines(s, cs, indent)| ==> FitsIn(Lines(s, cs, indent)[i], indent + room)
    decreases |s| - pos
  {
    if pos < |s| {
      CutsStep(s, room, pos, cs);
      LinesFit(s, room, cs[0].next, indent, cs[1..]);
      LineFits(s, room, pos, indent, cs[0]);
    }
  }

  predicate FitsIn(line: string, width: nat) {
    0 < |line| <= width && forall i :: 0 <= i < |line| ==> line[i] != '\n'
  }

  lemma LineFits(s: string, room: nat, pos: nat, indent: nat, c: Cut)
    requires GoodCut(s, room, pos, c)
    ensures forall i :: 0 <= i < |LineOf(s, c, indent)| ==> FitsIn(LineOf(s, c, indent)[i], indent + room)
  {
  }

  /** Sane parameters: the lines of the result are the cut lines, and each fits into the width. */
  lemma EveryLineFits(s: string, width: nat, room: nat, indent: nat, lines: seq<string>)
    requires width == indent + room && room > 0 && lines == CutLines(s, room, indent)
    ensures forall i :: 0 <= i < |lines| ==> FitsIn(lines[i], width)
    ensures SplitLines(Join(lines)) == if lines == [] then [""] else lines
  {
    LinesFit(s, room, 0, indent, Cuts(s, room, 0));
    if lines == [] { FirstNewlineIs("", 0); } else { SplitJoined(lines, width); }
  }

  predicate Holds(c: Cut, i: nat) {
    c.start <= i < c.end
  }

  /** And every character that is not whitespace lies on some line. */
  lemma {:induction false} NothingIsLost(s: string, room: nat, pos: nat, cs: seq<Cut>, i: nat)
    requires room > 0 && pos <= i < |s| && !Blank(s[i]) && cs == Cuts(s, room, pos)
    ensures exists k :: 0 <= k < |cs| && Holds(cs[k], i)
    decreases |s| - pos
  {
    CutsStep(s, room, pos, cs);
    if i < cs[0].next {
      assert Holds(cs[0], i);
    } else {
      NothingIsLost(s, room, cs[0].next, cs[1..], i);
      var k :| 0 <= k < |cs[1..]| && Holds(cs[1..][k], i);
      assert cs[1..][k] == cs[k + 1];
    }
  }

  // What is printed twice ------------------------------------------------------------------------

  /** A text without its whitespace. */
  function Visible(s: string): string {
    if s == "" then "" else (if Blank(s[0]) then "" else [s[0]]) + Visible(s[1..])
  }

  lemma {:induction false} VisibleConcat(a: string, b: string)
    ensures Visible(a + b) == Visible(a) + Visible(b)
  {
    if a == "" {
      assert a + b == b;
    } else {
      VisibleConcat(a[1..], b);
      assert (a + b)[1..] == a[1..] + b && (a + b)[0] == a[0];
      Associative(if Blank(a[0]) then "" else [a[0]], Visible(a[1..]), Visible(b));
    }
  }

  lemma {:induction false} VisibleOfBlank(s: string)
    ensures Visible(s) == "" <==> forall i :: 0 <= i < |s| ==> Blank(s[i])
  {
    if s != "" {
      VisibleOfBlank(s[1..]);
      assert forall i :: 0 < i < |s| ==> s[i] == s[1..][i - 1];
    }
  }

  function VisibleLines(lines: seq<string>): string {
    if lines == [] then "" else Visible(lines[0]) + VisibleLines(lines[1..])
  }

  lemma {:induction false} VisibleJoined(lines: seq<string>)
    ensures Visible(Join(lines)) == VisibleLines(lines)
  {
    if |lines| == 1 {
      assert Visible(lines[0]) + "" == Visible(lines[0]);
    } else if |lines| > 1 {
      VisibleJoined(lines[1..]);
      VisibleConcat(lines[0] + "\n", Join(lines[1..]));
      VisibleConcat(lines[0], "\n");
    }
  }

  /** The visible text of the slices cut. */
  function CutText(s: string, cs: seq<Cut>): string {
    if cs == [] then "" else Visible(Slice(s, cs[0])) + CutText(s, cs[1..])
  }

  lemma VisibleOfLine(indent: nat, line: string, rest: seq<string>)
    ensures VisibleLines([Spaces(indent) + line] + rest) == Visible(line) + VisibleLines(rest)
  {
    VisibleConcat(Spaces(indent), line);
    VisibleOfBlank(Spaces(indent));
    assert "" + Visible(line) == Visible(line);
    assert ([Spaces(indent) + line] + rest)[1..] == rest;
  }

  lemma {:induction false} VisibleOfLines(s: string, cs: seq<Cut>, indent: nat)
    ensures VisibleLines(Lines(s, cs, indent)) == CutText(s, cs)
  {
    if cs != [] {
      VisibleOfLines(s, cs[1..], indent);
      var line, rest := Slice(s, cs[0]), Lines(s, cs[1..], indent);
      if line == "" {
        assert [] + rest == rest && "" + CutText(s, cs[1..]) == CutText(s, cs[1..]);
      } else {
        VisibleOfLine(indent, line, rest);
      }
    }
  }

  /** Between two positions there is something to see. */
  predicate Shows(s: string, from: nat, to: nat) {
    exists i :: from <= i < to && i < |s| && !Blank(s[i])
  }

  /** Some step reads visible text of its line once more, behind the position it goes on from. */
  predicate Rereads(s: string, cs: seq<Cut>) {
    exists k :: 0 <= k < |cs| && Shows(s, cs[k].next, cs[k].end)
  }

  /** The part of a slice that is in front of the next position ends here. */
  function Middle(c: Cut): (m: nat)
    requires c.start <= c.end
    ensures c.start <= m <= c.end
  {
    if c.next < c.start then c.start else if c.next < c.end then c.next else c.end
  }

  lemma ShowsIs(s: string, a: nat, b: nat)
    requires a <= b <= |s|
    ensures Visible(s[a..b]) != "" <==> Shows(s, a, b)
  {
    VisibleOfBlank(s[a..b]);
    assert forall i :: a <= i < b ==> s[i] == s[a..b][i - a];
    assert Shows(s, a, b) <==> exists j :: 0 <= j < b - a && !Blank(s[a..b][j]) by {
      if j :| 0 <= j < b - a && !Blank(s[a..b][j]) { assert !Blank(s[a + j]); }
    }
  }

  /** What a step passes over is, to the eye, the part of its slice in front of the next position. */
  lemma PassedOver(s: string, room: nat, pos: nat, c: Cut)
    requires GoodCut(s, room, pos, c) && pos < |s|
    ensures Visible(s[pos..Clip(s, c.next)]) == Visible(s[c.start..Middle(c)])
  {
    var n := Clip(s, c.next);
    if c.next <= c.start {
      ShowsIs(s, pos, n);
    } else {
      var m := Middle(c);
      assert s[pos..n] == s[pos..c.start] + s[c.start..m] + s[m..n];
      VisibleConcat(s[pos..c.start] + s[c.start..m], s[m..n]);
      VisibleConcat(s[pos..c.start], s[c.start..m]);
      ShowsIs(s, pos, c.start);
      ShowsIs(s, m, n);
    }
  }

  /** And the rest of the slice is read again, if there is anything to see in it. */
  lemma ReadAgain(s: string, room: nat, pos: nat, c: Cut)
    requires GoodCut(s, room, pos, c)
    ensures Visible(Slice(s, c)) == Visible(s[c.start..Middle(c)]) + Visible(s[Middle(c)..c.end])
    ensures Visible(s[Middle(c)..c.end]) != "" <==> Shows(s, c.next, c.end)
  {
    var m := Middle(c);
    assert s[c.start..c.end] == s[c.start..m] + s[m..c.end];
    VisibleConcat(s[c.start..m], s[m..c.end]);
    ShowsIs(s, m, c.end);
  }

  /** Text `p`, what is printed, against `t`, what was to be printed: more of it iff something was read again. */
  predicate Kept(p: string, t: string, again: bool) {
    if again then |p| > |t| else p == t
  }

  lemma StepKept(passed: string, again: string, p: string, t: string, more: bool)
    requires Kept(p, t, more)
    ensures Kept(passed + again + p, passed + t, again != "" || more)
  {
    if again == "" { assert passed + "" == passed; }
  }

  lemma {:induction false} Conservation(s: string, room: nat, pos: nat, cs: seq<Cut>)
    requires room > 0 && cs == Cuts(s, room, pos)
    ensures Kept(CutText(s, cs), Visible(s[Clip(s, pos)..]), Rereads(s, cs))
    decreases |s| - pos
  {
    if pos < |s| {
      CutsStep(s, room, pos, cs);
      var c, rest := cs[0], cs[1..];
      Conservation(s, room, c.next, rest);
      RereadsStep(s, cs);
      OneStepKept(s, room, pos, c, CutText(s, rest), Rereads(s, rest));
    } else {
      assert s[Clip(s, pos)..] == "";
    }
  }

  lemma VisibleFrom(s: string, a: nat, b: nat)
    requires a <= b <= |s|
    ensures Visible(s[a..]) == Visible(s[a..b]) + Visible(s[b..])
  {
    assert s[a..] == s[a..b] + s[b..];
    VisibleConcat(s[a..b], s[b..]);
  }

  lemma OneStepKept(s: string, room: nat, pos: nat, c: Cut, p: string, more: bool)
    requires GoodCut(s, room, pos, c) && pos < |s| && Kept(p, Visible(s[Clip(s, c.next)..]), more)
    ensures Kept(Visible(Slice(s, c)) + p, Visible(s[pos..]), Shows(s, c.next, c.end) || more)
  {
    PassedOver(s, room, pos, c);
    ReadAgain(s, room, pos, c);
    var n := Clip(s, c.next);
    VisibleFrom(s, pos, n);
    StepKept(Visible(s[pos..n]), Visible(s[Middle(c)..c.end]), p, Visible(s[n..]), more);
  }

  lemma RereadsStep(s: string, cs: seq<Cut>)
    requires cs != []
    ensures Rereads(s, cs) <==> Shows(s, cs[0].next, cs[0].end) || Rereads(s, cs[1..])
  {
    assert forall k :: 0 < k < |cs| ==> cs[k] == cs[1..][k - 1];
    if Rereads(s, cs[1..]) {
      var k :| 0 <= k < |cs[1..]| && Shows(s, cs[1..][k].next, cs[1..][k].end);
      assert cs[k + 1] == cs[1..][k];
    }
  }

  /** Wrapping keeps the visible text, no more and no less, iff no step reads any of its line again. */
  lemma KeepsTextExactly(s: string, room: nat, indent: nat, cs: seq<Cut>, lines: seq<string>)
    requires room > 0 && cs == Cuts(s, room, 0) && lines == CutLines(s, room, indent)
    ensures Visible(Join(lines)) == Visible(s) <==> !Rereads(s, cs)
  {
    VisibleJoined(lines);
    VisibleOfLines(s, cs, indent);
    Conservation(s, room, 0, cs);
    assert s[Clip(s, 0)..] == s;
  }

  /**
   The guard of a step that reads text again, on the text it looks at: two whitespace characters in front of
   something to see and, when the line fills the room and is broken, something to see between the place where
   reading goes on and the break.
   */
  predicate ReadsAgain(line: string, room: nat) {
    |line| >= 2 && Blank(line[0]) && Blank(line[1]) &&
    if |line| < room then exists i :: 0 <= i < |line| && !Blank(line[i])
    else
      var next := EndOfBlank(Trimmed(line));
      next > 0 && exists i :: next <= i < FirstNonBlank(line) + next - 1 && i < |line| && !Blank(line[i])
  }

  lemma TwoBlanks(line: string, a: nat)
    requires a == FirstNonBlank(line)
    ensures a >= 2 <==> |line| >= 2 && Blank(line[0]) && Blank(line[1])
    ensures a < |line| <==> exists i :: 0 <= i < |line| && !Blank(line[i])
  {
    FirstNonBlankIs(line, a);
    if i :| 0 <= i < |line| && !Blank(line[i]) { assert a <= i; }
  }

  lemma WindowShows(s: string, pos: nat, line: string, from: nat, to: nat)
    requires pos + |line| <= |s| && line == s[pos..pos + |line|] && to <= |line|
    ensures Shows(s, pos + from, pos + to) <==> exists i :: from <= i < to && !Blank(line[i])
  {
    assert forall i :: 0 <= i < |line| ==> line[i] == s[pos + i];
    if Shows(s, pos + from, pos + to) {
      var j :| pos + from <= j < pos + to && j < |s| && !Blank(s[j]);
      assert !Blank(line[j - pos]);
    }
    if i :| from <= i < to && !Blank(line[i]) { assert !Blank(s[pos + i]); }
  }

  /** A step reads visible text again exactly when its guard holds. */
  lemma ReadsAgainIff(s: string, room: nat, pos: nat, c: Cut)
    requires pos < |s| && room > 0 && c == NextCut(s, room, pos)
    ensures Shows(s, c.next, c.end) <==> ReadsAgain(Looked(s, room, pos), room)
  {
    var line := Looked(s, room, pos);
    var a, t := FirstNonBlank(line), Trimmed(line);
    LookedIs(s, room, pos, line);
    LineReadsAgainIff(s, room, pos, line, a, t, EndOfBlank(t));
  }

  lemma LineReadsAgainIff(s: string, room: nat, pos: nat, line: string, a: nat, t: string, last: nat)
    requires pos + |line| <= |s| && line == s[pos..pos + |line|] && |line| <= room
    requires a == FirstNonBlank(line) && t == Trimmed(line) && last == EndOfBlank(t)
    ensures var c := CutOf(room, pos, |line|, a, |t|, last); Shows(s, c.next, c.end) <==> ReadsAgain(line, room)
  {
    TwoBlanks(line, a);
    TrimmedIs(line, a, t);
    if |line| < room {
      FirstNonBlankIs(line, a);
      ShortWindow(line, a, t);
      WindowShows(s, pos, line, |t| + 1, a + |t|);
    } else if last > 0 {
      WindowShows(s, pos, line, last, a + last - 1);
    }
  }

  lemma ShortWindow(line: string, a: nat, t: string)
    requires a + |t| <= |line| && t == line[a..a + |t|] && (t == "" <==> a == |line|)
    requires (t == "" || !Blank(t[|t| - 1])) && forall i :: 0 <= i < a ==> Blank(line[i])
    ensures (exists i :: |t| + 1 <= i < a + |t| && !Blank(line[i])) <==> a >= 2 && a < |line|
  {
    if t != "" && a >= 2 {
      assert t[|t| - 1] == line[a + |t| - 1];
      assert !Blank(line[a + |t| - 1]);
    }
  }

  /** The positions the loop reads on from. */
  function Positions(s: string, room: nat, pos: nat): seq<nat>
    requires room > 0
    decreases |s| - pos
  {
    if pos >= |s| then []
    else
      CutIsGood(s, room, pos);
      [pos] + Positions(s, room, NextCut(s, room, pos).next)
  }

  /** So visible text is read again iff the guard holds at some position of the loop. */
  lemma {:induction false} RereadsIff(s: string, room: nat, pos: nat, cs: seq<Cut>, ps: seq<nat>)
    requires room > 0 && cs == Cuts(s, room, pos) && ps == Positions(s, room, pos)
    ensures forall k :: 0 <= k < |ps| ==> ps[k] < |s|
    ensures Rereads(s, cs) <==> exists k :: 0 <= k < |ps| && ReadsAgain(Looked(s, room, ps[k]), room)
    decreases |s| - pos
  {
    if pos < |s| {
      CutsStep(s, room, pos, cs);
      RereadsIff(s, room, cs[0].next, cs[1..], ps[1..]);
      RereadsStep(s, cs);
      ReadsAgainIff(s, room, pos, cs[0]);
      if k :| 0 <= k < |ps[1..]| && ReadsAgain(Looked(s, room, ps[1..][k]), room) { assert ps[k + 1] == ps[1..][k]; }
      assert ps[0] == pos && forall k :: 0 < k < |ps| ==> ps[k] == ps[1..][k - 1];
    }
  }

  /** Wrapping keeps the visible text iff no step of the loop looks at a text that meets the guard. */
  lemma KeepsTextUnlessGuard(s: string, room: nat, indent: nat, ps: seq<nat>, lines: seq<string>)
    requires room > 0 && ps == Positions(s, room, 0) && lines == CutLines(s, room, indent)
    ensures forall k :: 0 <= k < |ps| ==> ps[k] < |s|
    ensures Visible(Join(lines)) == Visible(s) <==>
      forall k :: 0 <= k < |ps| ==> !ReadsAgain(Looked(s, room, ps[k]), room)
  {
    var cs := Cuts(s, room, 0);
    RereadsIff(s, room, 0, cs, ps);
    KeepsTextExactly(s, room, indent, cs, lines);
  }

  predicate NoDoubleBlank(s: string) {
    forall i, j :: 0 <= i < |s| && j == i + 1 && j < |s| ==> !(Blank(s[i]) && Blank(s[j]))
  }

  lemma {:induction false} SingleBlanksReadOnce(s: string, room: nat, pos: nat, cs: seq<Cut>)
    requires room > 0 && cs == Cuts(s, room, pos) && NoDoubleBlank(s)
    ensures !Rereads(s, cs)
    decreases |s| - pos
  {
    if pos < |s| {
      CutsStep(s, room, pos, cs);
      SingleBlanksReadOnce(s, room, cs[0].next, cs[1..]);
      RereadsStep(s, cs);
      var i, j := pos, pos + 1;
      assert j < |s| ==> !(Blank(s[i]) && Blank(s[j]));
    }
  }

  /** Text without two whitespace characters side by side is always kept. */
  lemma {:induction false} SingleBlanksKeepText(s: string, room: nat, indent: nat, cs: seq<Cut>, lines: seq<string>)
    requires room > 0 && cs == Cuts(s, room, 0) && lines == CutLines(s, room, indent) && NoDoubleBlank(s)
    ensures Visible(Join(lines)) == Visible(s)
  {
    SingleBlanksReadOnce(s, room, 0, cs);
    KeepsTextExactly(s, room, indent, cs, lines);
  }

  lemma {:induction false} BlankTailReadOnce(s: string, room: nat, pos: nat, cs: seq<Cut>)
    requires room > 0 && cs == Cuts(s, room, pos) && forall i :: pos <= i < |s| ==> Blank(s[i])
    ensures !Rereads(s, cs)
    decreases |s| - pos
  {
    if pos < |s| {
      CutsStep(s, room, pos, cs);
      BlankTailReadOnce(s, room, cs[0].next, cs[1..]);
      RereadsStep(s, cs);
    }
  }

  /** A text of one line that does not fill the room is printed again iff it starts with two whitespace characters. */
  lemma ShortTextExactly(s: string, room: nat, cs: seq<Cut>)
    requires 1 < |s| < room && '\n' !in s && cs == Cuts(s, room, 0)
    requires exists i :: 0 <= i < |s| && !Blank(s[i])
    ensures Rereads(s, cs) <==> Blank(s[0]) && Blank(s[1])
  {
    CutsStep(s, room, 0, cs);
    RereadsStep(s, cs);
    var c := cs[0];
    ShortCut(s, room, c);
    if c.start >= 2 {
      assert Shows(s, c.next, c.end) by { assert !Blank(s[c.end - 1]); }
    } else {
      BlankTailReadOnce(s, room, c.next, cs[1..]);
    }
  }

  lemma ShortCut(s: string, room: nat, c: Cut)
    requires 1 < |s| < room && '\n' !in s && c == NextCut(s, room, 0)
    requires exists i :: 0 <= i < |s| && !Blank(s[i])
    ensures c.start < c.end <= |s| && c.next == c.end - c.start + 1
    ensures forall i :: 0 <= i < c.start || c.end <= i < |s| ==> Blank(s[i])
    ensures !Blank(s[c.start]) && !Blank(s[c.end - 1])
  {
    assert s[0..|s|] == s;
    FirstNewlineIs(s, |s|);
    assert s[..|s|] == s;
    TrimmedIs(s, FirstNonBlank(s), Trimmed(s));
  }
}
