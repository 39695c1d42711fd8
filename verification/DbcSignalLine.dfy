/**
 The signal lines of a DBC file: the text the exporter writes for a signal, and the two regular expressions
 with which the importer takes a line apart. Matching is greedy and backtracks, from the line's start.
 */
module DbcSignalLine {
  import opened Basics

  /** The character classes the importer's expressions use. */
  datatype Class = Word | Digit | Number | Sign | Space | Any

  predicate IsDigit(c: char) { '0' <= c <= '9' }

  predicate In(kind: Class, c: char) {
    match kind
    case Word => IsDigit(c) || 'a' <= c <= 'z' || 'A' <= c <= 'Z' || c == '_'
    case Digit => IsDigit(c)
    case Number => IsDigit(c) || c == '.' || c == '+' || c == '-' || c == 'e' || c == 'E'
    case Sign => c == '+' || c == '|' || c == '-'
    case Space => c == ' '
    case Any => c != '\n'
  }

  predicate AllIn(kind: Class, s: string) {
    forall i :: 0 <= i < |s| ==> In(kind, s[i])
  }

  /** A run of a class is captured by a group or skipped; `One` is a group of exactly one character. */
  datatype Regex = Done
                 | Lits(text: string, next: Regex)
                 | One(kind: Class, next: Regex)
                 | Run(kind: Class, least: nat, captured: bool, next: Regex)

  /** The longest run of a class a text starts with. */
  function RunLength(kind: Class, s: string): (n: nat)
    ensures n <= |s|
  {
    if s == "" || !In(kind, s[0]) then 0 else 1 + RunLength(kind, s[1..])
  }

  function Prepend(first: string, groups: Option<seq<string>>): Option<seq<string>> {
    if groups.Some? then Some([first] + groups.value) else None
  }

  /** The groups of a match, if there is one. */
  function Match(r: Regex, s: string): Option<seq<string>>
    decreases r, |s| + 2
  {
    match r
    case Done => Some([])
    case Lits(text, next) => if text <= s then Match(next, s[|text|..]) else None
    case One(kind, next) => if s != "" && In(kind, s[0]) then Prepend(s[..1], Match(next, s[1..])) else None
    case Run(kind, least, captured, next) => Backtrack(r, s, RunLength(kind, s))
  }

  /** Trying a run of `n` characters, then shorter ones. */
  function Backtrack(r: Regex, s: string, n: nat): Option<seq<string>>
    requires r.Run? && n <= |s|
    decreases r, n + 1
  {
    if n < r.least then None
    else
      var rest := Match(r.next, s[n..]);
      if rest.Some? then (if r.captured then Prepend(s[..n], rest) else rest)
      else if n == 0 then None else Backtrack(r, s, n - 1)
  }

  lemma LitsStep(r: Regex, s: string)
    requires r.Lits?
    ensures Match(r, r.text + s) == Match(r.next, s)
  {
    assert (r.text + s)[|r.text|..] == s;
  }

  lemma {:induction false} RunLengthIs(kind: Class, w: string, s: string)
    requires AllIn(kind, w) && (s == "" || !In(kind, s[0]))
    ensures RunLength(kind, w + s) == |w|
    decreases |w|
  {
    if w == "" {
      assert w + s == s;
    } else {
      assert (w + s)[1..] == w[1..] + s;
      RunLengthIs(kind, w[1..], s);
    }
  }

  /** A run that the next character ends takes all of itself, if what follows matches. */
  lemma RunStep(r: Regex, w: string, s: string)
    requires r.Run? && AllIn(r.kind, w) && |w| >= r.least && (s == "" || !In(r.kind, s[0])) && Match(r.next, s).Some?
    ensures Match(r, w + s) == if r.captured then Prepend(w, Match(r.next, s)) else Match(r.next, s)
  {
    RunLengthIs(r.kind, w, s);
    assert (w + s)[|w|..] == s && (w + s)[..|w|] == w;
  }

  lemma OneStep(r: Regex, c: char, s: string)
    requires r.One? && In(r.kind, c)
    ensures Match(r, [c] + s) == Prepend([c], Match(r.next, s))
  {
    assert ([c] + s)[1..] == s && ([c] + s)[..1] == [c];
  }

  /** A greedy `(.*)` in front of a quote and a space stops at the last such place: here the text behind has no quote. */
  lemma {:induction false} LastQuote(r: Regex, u: string, v: string, n: nat)
    requires r == QuotedPart() && '"' !in v && AllIn(Any, u + "\" " + v) && |u| <= n <= |u + "\" " + v|
    ensures Backtrack(r, u + "\" " + v, n) == Some([u, v])
    decreases n
  {
    var s := u + "\" " + v;
    if n == |u| {
      assert s[n..] == "\" " + v && s[..n] == u;
      LitsStep(r.next, v);
      RestOfLine(r.next.next, v);
      assert [u] + [v] == [u, v];
    } else {
      assert !("\" " <= s[n..]) by { NoQuoteThere(u, v, n); }
      LastQuote(r, u, v, n - 1);
    }
  }

  lemma NoQuoteThere(u: string, v: string, n: nat)
    requires '"' !in v && |u| < n <= |u + "\" " + v|
    ensures !("\" " <= (u + "\" " + v)[n..])
  {
    var s := u + "\" " + v;
    assert n < |s| ==> s[n..][0] == s[n] && s[n] != '"';
  }

  lemma RestOfLine(r: Regex, v: string)
    requires r == Run(Any, 0, true, Done) && AllIn(Any, v)
    ensures Match(r, v) == Some([v])
  {
    assert v + "" == v;
    RunStep(r, v, "");
    assert [v] + [] == [v];
  }

  // The importer's expressions -------------------------------------------------------------------

  function QuotedPart(): Regex { Run(Any, 0, true, Lits("\" ", Run(Any, 0, true, Done))) }

  function LimitsPart(): Regex {
    Run(Number, 1, true, Lits("|", Run(Number, 1, true, Lits("] \"", QuotedPart()))))
  }

  function ScalePart(): Regex {
    Run(Number, 1, true, Lits(",", Run(Number, 1, true, Lits(") [", LimitsPart()))))
  }

  function SignedPart(): Regex { Run(Digit, 1, true, One(Sign, Lits(" (", ScalePart()))) }

  function BitsPart(): Regex {
    Run(Digit, 1, true, Lits("|", Run(Digit, 1, true, Lits("@", SignedPart()))))
  }

  function PlainLine(): Regex { Lits("SG_ ", Run(Word, 1, true, Lits(" : ", BitsPart()))) }

  function TaggedLine(): Regex {
    Lits("SG_ ", Run(Word, 1, true, Lits(" ", Run(Word, 1, true, Run(Space, 0, false, Lits(": ", BitsPart()))))))
  }

  // Numbers --------------------------------------------------------------------------------------

  function DigitChar(d: nat): char
    requires d < 10
  {
    ['0', '1', '2', '3', '4', '5', '6', '7', '8', '9'][d]
  }

  /** `%d`. */
  function Decimal(n: nat): string {
    if n < 10 then [DigitChar(n)] else Decimal(n / 10) + [DigitChar(n % 10)]
  }

  /** `int`. */
  function NumberOf(s: string): nat
    requires AllIn(Digit, s)
  {
    if s == "" then 0 else NumberOf(s[..|s| - 1]) * 10 + (s[|s| - 1] as int - '0' as int)
  }

  lemma {:induction false} DecimalDigits(n: nat)
    ensures AllIn(Digit, Decimal(n)) && Decimal(n) != ""
  {
    if n >= 10 { DecimalDigits(n / 10); }
  }

  lemma {:induction false} DecimalReads(n: nat)
    ensures AllIn(Digit, Decimal(n)) && Decimal(n) != "" && NumberOf(Decimal(n)) == n
  {
    DecimalDigits(n);
    var s := Decimal(n);
    if n >= 10 {
      DecimalReads(n / 10);
      assert s[..|s| - 1] == Decimal(n / 10);
    } else {
      assert s[..0] == "";
    }
  }

  // Signals --------------------------------------------------------------------------------------

  datatype Multiplex = Plain | Multiplexor | Multiplexed(value: nat)

  datatype Signal = Signal(name: string, startBit: nat, size: nat, byteOrder: nat, valueType: char,
                           factor: string, offset: string, min: string, max: string, unit: string,
                           receivers: seq<string>, multiplex: Multiplex)

  function MultiplexText(m: Multiplex): string {
    match m
    case Plain => ""
    case Multiplexor => " M "
    case Multiplexed(value) => " m" + Decimal(value) + " "
  }

  /** `','.join`. */
  function JoinCommas(parts: seq<string>): string {
    if parts == [] then "" else if |parts| == 1 then parts[0] else parts[0] + "," + JoinCommas(parts[1..])
  }

  /** `split(',')`. */
  function SplitCommas(s: string): (parts: seq<string>)
    ensures parts != []
    decreases |s|
  {
    var k := CommaAt(s);
    if k == |s| then [s] else [s[..k]] + SplitCommas(s[k + 1..])
  }

  function CommaAt(s: string): (k: nat)
    ensures k <= |s|
  {
    if s == "" || s[0] == ',' then 0 else 1 + CommaAt(s[1..])
  }

  lemma {:induction false} CommaAtIs(w: string, s: string)
    requires ',' !in w && (s == "" || s[0] == ',')
    ensures CommaAt(w + s) == |w|
    decreases |w|
  {
    if w == "" {
      assert w + s == s;
    } else {
      assert (w + s)[1..] == w[1..] + s;
      CommaAtIs(w[1..], s);
    }
  }

  lemma {:induction false} SplitJoined(parts: seq<string>)
    requires parts != [] && forall i :: 0 <= i < |parts| ==> ',' !in parts[i]
    ensures SplitCommas(JoinCommas(parts)) == parts
    decreases |parts|
  {
    var first := parts[0];
    if |parts| == 1 {
      CommaAtIs(first, "");
      assert first + "" == first;
    } else {
      var rest := JoinCommas(parts[1..]);
      SplitJoined(parts[1..]);
      assert first + "," + rest == first + ("," + rest);
      CommaAtIs(first, "," + rest);
      var s := JoinCommas(parts);
      assert s[..|first|] == first && s[|first| + 1..] == rest;
    }
  }

  /** What `strip` takes away. */
  predicate Blank(c: char) {
    c == ' ' || '\t' <= c <= '\r'
  }

  function StripLeft(s: string): string {
    if s == "" || !Blank(s[0]) then s else StripLeft(s[1..])
  }

  function StripRight(s: string): string {
    if s == "" || !Blank(s[|s| - 1]) then s else StripRight(s[..|s| - 1])
  }

  function Strip(s: string): string { StripRight(StripLeft(s)) }

  // Printing -------------------------------------------------------------------------------------

  function QuotedText(unit: string, rest: string): string { unit + "\" " + rest }

  function LimitsText(s: Signal, rest: string): string {
    s.min + ("|" + (s.max + ("] \"" + QuotedText(s.unit, rest))))
  }

  function ScaleText(s: Signal, rest: string): string {
    s.factor + ("," + (s.offset + (") [" + LimitsText(s, rest))))
  }

  function BitsText(s: Signal, rest: string): string {
    Decimal(s.startBit) + ("|" + (Decimal(s.size) + ("@" + (Decimal(s.byteOrder) + ([s.valueType] + (" (" + ScaleText(s, rest)))))))
  }

  /** A signal with its receivers as the exporter leaves them. */
  function WithReceivers(s: Signal): Signal {
    if s.receivers == [] then s.(receivers := ["Vector__XXX"]) else s
  }

  /** What the exporter can print so that it can be read: see the two expressions. */
  predicate Printable(s: Signal) {
    s.name != "" && AllIn(Word, s.name) && (s.valueType == '+' || s.valueType == '-') &&
    s.factor != "" && AllIn(Number, s.factor) && s.offset != "" && AllIn(Number, s.offset) &&
    s.min != "" && AllIn(Number, s.min) && s.max != "" && AllIn(Number, s.max) && '\n' !in s.unit &&
    forall i :: 0 <= i < |s.receivers| ==> GoodReceiver(s.receivers[i])
  }

  predicate GoodReceiver(r: string) {
    r != "" && forall i :: 0 <= i < |r| ==> r[i] != ',' && r[i] != '"' && !Blank(r[i])
  }

  /** The line from `SG_` on, with `rest` for the receivers. */
  function Body(s: Signal, rest: string): string {
    "SG_ " + (s.name + (MultiplexText(s.multiplex) + (" : " + BitsText(s, rest))))
  }

  /** The line the exporter writes, without its newline. */
  function Line(s: Signal): string {
    " " + Body(s, JoinCommas(WithReceivers(s).receivers))
  }

  // Reading --------------------------------------------------------------------------------------

  /** The signal made from the ten groups both expressions share; `None` when a number is none. */
  function Built(name: string, g: seq<string>, m: Option<Multiplex>): Option<Signal> {
    if |g| == 10 && m.Some? && AllIn(Digit, g[0]) && AllIn(Digit, g[1]) && AllIn(Digit, g[2]) && |g[3]| == 1
    then Some(Signal(name, NumberOf(g[0]), NumberOf(g[1]), NumberOf(g[2]), g[3][0], g[4], g[5], g[6], g[7], g[8],
                     StripAll(SplitCommas(g[9])), m.value))
    else None
  }

  function StripAll(parts: seq<string>): seq<string> {
    seq(|parts|, i requires 0 <= i < |parts| => Strip(parts[i]))
  }

  /** `M`, or a letter and a number; anything else stops the importer. */
  function ReadMultiplex(tag: string): Option<Multiplex> {
    if tag == "M" then Some(Multiplexor)
    else if |tag| > 1 && AllIn(Digit, tag[1..]) then Some(Multiplexed(NumberOf(tag[1..])))
    else None
  }

  /** The importer's test for a signal line; other lines go to other branches. */
  predicate IsSignalLine(line: string) {
    "SG_ " <= Strip(line)
  }

  /** A signal line as a signal; `None` for one that stops the importer with an exception. */
  function ParseLine(line: string): Option<Signal> {
    var l := Strip(line);
    var plain := Match(PlainLine(), l);
    if plain.Some? then
      if |plain.value| == 11 then Built(plain.value[0], plain.value[1..], Some(Multiplex.Plain)) else None
    else
      var tagged := Match(TaggedLine(), l);
      if tagged.Some? && |tagged.value| == 12
      then Built(tagged.value[0], tagged.value[2..], ReadMultiplex(tagged.value[1])) else None
  }

  // Printing and reading -------------------------------------------------------------------------

  lemma MatchQuoted(unit: string, rest: string)
    requires AllIn(Any, unit) && AllIn(Any, rest) && '"' !in rest
    ensures Match(QuotedPart(), QuotedText(unit, rest)) == Some([unit, rest])
  {
    var s := QuotedText(unit, rest);
    assert AllIn(Any, s);
    assert s + "" == s;
    RunLengthIs(Any, s, "");
    LastQuote(QuotedPart(), unit, rest, |s|);
  }

  /** Two numbers, taken apart at the fixed texts behind them. */
  lemma MatchPair(a: string, mid: string, b: string, end: string, r: Regex, s: string, groups: seq<string>)
    requires a != "" && AllIn(Number, a) && b != "" && AllIn(Number, b) && Match(r, s) == Some(groups)
    requires mid != "" && !In(Number, mid[0]) && end != "" && !In(Number, end[0])
    ensures Match(Run(Number, 1, true, Lits(mid, Run(Number, 1, true, Lits(end, r)))), a + (mid + (b + (end + s))))
         == Some([a, b] + groups)
  {
    var r3 := Lits(end, r);
    LitsStep(r3, s);
    var r2 := Run(Number, 1, true, r3);
    RunStep(r2, b, end + s);
    var r1 := Lits(mid, r2);
    LitsStep(r1, b + (end + s));
    RunStep(Run(Number, 1, true, r1), a, mid + (b + (end + s)));
    assert [a] + ([b] + groups) == [a, b] + groups;
  }

  lemma MatchScale(s: Signal, rest: string)
    requires Printable(s) && AllIn(Any, rest) && '"' !in rest
    ensures Match(ScalePart(), ScaleText(s, rest)) == Some([s.factor, s.offset, s.min, s.max, s.unit, rest])
  {
    MatchQuoted(s.unit, rest);
    MatchPair(s.min, "|", s.max, "] \"", QuotedPart(), QuotedText(s.unit, rest), [s.unit, rest]);
    MatchPair(s.factor, ",", s.offset, ") [", LimitsPart(), LimitsText(s, rest), [s.min, s.max] + [s.unit, rest]);
    assert [s.factor, s.offset] + ([s.min, s.max] + [s.unit, rest])
        == [s.factor, s.offset, s.min, s.max, s.unit, rest];
  }

  function Groups(s: Signal, rest: string): seq<string> {
    [Decimal(s.startBit), Decimal(s.size), Decimal(s.byteOrder), [s.valueType],
     s.factor, s.offset, s.min, s.max, s.unit, rest]
  }

  /** A number and a sign, likewise. */
  lemma MatchSigned(c: string, sign: char, r: Regex, s: string, groups: seq<string>)
    requires c != "" && AllIn(Digit, c) && (sign == '+' || sign == '-') && Match(r, s) == Some(groups)
    ensures Match(Run(Digit, 1, true, One(Sign, Lits(" (", r))), c + ([sign] + (" (" + s))) == Some([c, [sign]] + groups)
  {
    var r2 := Lits(" (", r);
    LitsStep(r2, s);
    var r1 := One(Sign, r2);
    OneStep(r1, sign, " (" + s);
    RunStep(Run(Digit, 1, true, r1), c, [sign] + (" (" + s));
    assert [c] + ([[sign]] + groups) == [c, [sign]] + groups;
  }

  lemma MatchNumber(a: string, end: string, r: Regex, s: string, groups: seq<string>)
    requires a != "" && AllIn(Digit, a) && end != "" && !In(Digit, end[0]) && Match(r, s) == Some(groups)
    ensures Match(Run(Digit, 1, true, Lits(end, r)), a + (end + s)) == Some([a] + groups)
  {
    LitsStep(Lits(end, r), s);
    RunStep(Run(Digit, 1, true, Lits(end, r)), a, end + s);
  }

  lemma MatchBits(s: Signal, rest: string)
    requires Printable(s) && AllIn(Any, rest) && '"' !in rest
    ensures Match(BitsPart(), BitsText(s, rest)) == Some(Groups(s, rest))
  {
    DecimalDigits(s.startBit);
    DecimalDigits(s.size);
    DecimalDigits(s.byteOrder);
    MatchScale(s, rest);
    var a, b, c, sign := Decimal(s.startBit), Decimal(s.size), Decimal(s.byteOrder), s.valueType;
    var g0 := [s.factor, s.offset, s.min, s.max, s.unit, rest];
    MatchSigned(c, sign, ScalePart(), ScaleText(s, rest), g0);
    var r1, s1, g1 := SignedPart(), c + ([sign] + (" (" + ScaleText(s, rest))), [c, [sign]] + g0;
    MatchNumber(b, "@", r1, s1, g1);
    MatchNumber(a, "|", Run(Digit, 1, true, Lits("@", r1)), b + ("@" + s1), [b] + g1);
    assert [a] + ([b] + ([c, [sign]] + g0)) == Groups(s, rest);
  }

  /** Text behind which the multiplex tag is empty: the first expression matches. */
  lemma MatchPlain(name: string, text: string, groups: seq<string>)
    requires name != "" && AllIn(Word, name) && Match(BitsPart(), text) == Some(groups)
    ensures Match(PlainLine(), "SG_ " + (name + (" : " + text))) == Some([name] + groups)
  {
    var r2 := Lits(" : ", BitsPart());
    LitsStep(r2, text);
    RunStep(PlainLine().next, name, " : " + text);
    LitsStep(PlainLine(), name + (" : " + text));
  }

  /** A tag between the name and the colon: the first expression fails, wherever it ends the name. */
  lemma {:induction false} NoPlainEnd(r: Regex, name: string, s: string, n: nat)
    requires r == PlainLine().next && AllIn(Word, name) && n <= |name|
    requires |s| > 1 && s[0] == ' ' && s[1] != ':'
    ensures Backtrack(r, name + s, n) == None
    decreases n
  {
    var rest := (name + s)[n..];
    assert rest[0] == if n < |name| then name[n] else ' ';
    assert n == |name| ==> rest[1] == s[1];
    if n > 0 { NoPlainEnd(r, name, s, n - 1); }
  }

  lemma NotPlain(name: string, s: string)
    requires AllIn(Word, name) && |s| > 1 && s[0] == ' ' && s[1] != ':'
    ensures Match(PlainLine(), "SG_ " + (name + s)) == None
  {
    LitsStep(PlainLine(), name + s);
    RunLengthIs(Word, name, s);
    NoPlainEnd(PlainLine().next, name, s, |name|);
  }

  /** And the second one matches, taking the spaces in front of the colon. */
  lemma MatchTagged(name: string, tag: string, text: string, groups: seq<string>)
    requires name != "" && AllIn(Word, name) && tag != "" && AllIn(Word, tag) && Match(BitsPart(), text) == Some(groups)
    ensures Match(TaggedLine(), "SG_ " + (name + (" " + (tag + ("  " + (": " + text)))))) == Some([name, tag] + groups)
  {
    var r5 := Lits(": ", BitsPart());
    LitsStep(r5, text);
    var s5 := ": " + text;
    var r4 := Run(Space, 0, false, r5);
    RunStep(r4, "  ", s5);
    var s4 := "  " + s5;
    var r3 := Run(Word, 1, true, r4);
    RunStep(r3, tag, s4);
    var s3 := tag + s4;
    var r2 := Lits(" ", r3);
    LitsStep(r2, s3);
    var s2 := " " + s3;
    RunStep(TaggedLine().next, name, s2);
    LitsStep(TaggedLine(), name + s2);
    assert [name] + ([tag] + groups) == [name, tag] + groups;
  }

  // Stripping ------------------------------------------------------------------------------------

  lemma StripNothing(s: string)
    requires s != "" && !Blank(s[0]) && !Blank(s[|s| - 1])
    ensures Strip(s) == s
  {
  }

  /** The blank in front and the newline behind a line go. */
  lemma StripLine(s: string)
    requires s != "" && !Blank(s[0]) && !Blank(s[|s| - 1])
    ensures Strip(" " + s + "\n") == s
  {
    var line := " " + s + "\n";
    assert line[1..] == s + "\n";
    assert StripLeft(s + "\n") == s + "\n";
    assert StripLeft(line) == StripLeft(line[1..]);
    assert (s + "\n")[..|s|] == s;
    StripNothing(s);
  }

  predicate Solid(rest: string) {
    rest != "" && forall i :: 0 <= i < |rest| ==> !Blank(rest[i]) && rest[i] != '"'
  }

  lemma {:induction false} ReceiversSolid(parts: seq<string>)
    requires parts != [] && forall i :: 0 <= i < |parts| ==> GoodReceiver(parts[i])
    ensures Solid(JoinCommas(parts))
    decreases |parts|
  {
    if |parts| > 1 {
      ReceiversSolid(parts[1..]);
      SolidTogether(parts[0], JoinCommas(parts[1..]));
    }
  }

  lemma SolidTogether(first: string, rest: string)
    requires GoodReceiver(first) && Solid(rest)
    ensures Solid(first + "," + rest)
  {
  }

  lemma ReceiversRead(parts: seq<string>)
    requires parts != [] && forall i :: 0 <= i < |parts| ==> GoodReceiver(parts[i])
    ensures StripAll(SplitCommas(JoinCommas(parts))) == parts
  {
    SplitJoined(parts);
    forall i | 0 <= i < |parts| ensures Strip(parts[i]) == parts[i] {
      StripNothing(parts[i]);
    }
  }

  /** A text ends as its last part does. */
  predicate EndsLike(s: string, rest: string) {
    |s| >= |rest| > 0 && s[|s| - 1] == rest[|rest| - 1]
  }

  lemma EndsOn(a: string, s: string, rest: string)
    requires EndsLike(s, rest)
    ensures EndsLike(a + s, rest)
  {
  }

  lemma ScaleEnds(s: Signal, rest: string)
    requires rest != ""
    ensures EndsLike(ScaleText(s, rest), rest)
  {
    var s1 := QuotedText(s.unit, rest);
    EndsOn(s.max, "] \"" + s1, rest);
    EndsOn("|", s.max + ("] \"" + s1), rest);
    EndsOn(s.min, "|" + (s.max + ("] \"" + s1)), rest);
    var s2 := LimitsText(s, rest);
    EndsOn(s.offset, ") [" + s2, rest);
    EndsOn(",", s.offset + (") [" + s2), rest);
    EndsOn(s.factor, "," + (s.offset + (") [" + s2)), rest);
  }

  lemma BitsEnd(s: Signal, rest: string)
    requires rest != ""
    ensures EndsLike(BitsText(s, rest), rest)
  {
    ScaleEnds(s, rest);
    var s1 := [s.valueType] + (" (" + ScaleText(s, rest));
    EndsOn(" (", ScaleText(s, rest), rest);
    EndsOn([s.valueType], " (" + ScaleText(s, rest), rest);
    var s2 := "@" + (Decimal(s.byteOrder) + s1);
    EndsOn(Decimal(s.byteOrder), s1, rest);
    EndsOn("@", Decimal(s.byteOrder) + s1, rest);
    EndsOn(Decimal(s.size), s2, rest);
    EndsOn("|", Decimal(s.size) + s2, rest);
    EndsOn(Decimal(s.startBit), "|" + (Decimal(s.size) + s2), rest);
  }

  lemma BodyEnds(s: Signal, rest: string)
    requires rest != ""
    ensures EndsLike(Body(s, rest), rest) && Body(s, rest)[0] == 'S'
  {
    BitsEnd(s, rest);
    var s1 := " : " + BitsText(s, rest);
    EndsOn(" : ", BitsText(s, rest), rest);
    EndsOn(MultiplexText(s.multiplex), s1, rest);
    EndsOn(s.name, MultiplexText(s.multiplex) + s1, rest);
    EndsOn("SG_ ", s.name + (MultiplexText(s.multiplex) + s1), rest);
  }

  lemma BuiltFrom(s: Signal, receivers: seq<string>, a: string, b: string, c: string, sign: string, rest: string)
    requires AllIn(Digit, a) && AllIn(Digit, b) && AllIn(Digit, c) && sign == [s.valueType]
    requires NumberOf(a) == s.startBit && NumberOf(b) == s.size && NumberOf(c) == s.byteOrder
    requires StripAll(SplitCommas(rest)) == receivers
    ensures Built(s.name, [a, b, c, sign, s.factor, s.offset, s.min, s.max, s.unit, rest], Some(s.multiplex))
         == Some(s.(receivers := receivers))
  {
  }

  lemma BuiltBack(s: Signal, receivers: seq<string>, rest: string)
    requires receivers != [] && forall i :: 0 <= i < |receivers| ==> GoodReceiver(receivers[i])
    requires rest == JoinCommas(receivers)
    ensures Built(s.name, Groups(s, rest), Some(s.multiplex)) == Some(s.(receivers := receivers))
  {
    DecimalReads(s.startBit);
    DecimalReads(s.size);
    DecimalReads(s.byteOrder);
    ReceiversRead(receivers);
    BuiltFrom(s, receivers, Decimal(s.startBit), Decimal(s.size), Decimal(s.byteOrder), [s.valueType], rest);
  }

  /** The tag in front of the colon, as the second expression sees it. */
  lemma TagText(m: Multiplex, tag: string, text: string)
    requires !m.Plain? && tag == (if m.Multiplexor? then "M" else "m" + Decimal(m.value))
    ensures MultiplexText(m) + (" : " + text) == " " + (tag + ("  " + (": " + text)))
  {
    assert MultiplexText(m) == " " + (tag + " ");
    assert " : " + text == " " + (": " + text);
    TagParts(tag, ": " + text);
  }

  lemma TagParts(tag: string, text: string)
    ensures " " + (tag + " ") + (" " + text) == " " + (tag + ("  " + text))
  {
  }

  lemma TagReads(m: Multiplex, tag: string)
    requires !m.Plain? && tag == (if m.Multiplexor? then "M" else "m" + Decimal(m.value))
    ensures tag != "" && AllIn(Word, tag) && tag[0] != ':' && ReadMultiplex(tag) == Some(m)
  {
    if m.Multiplexed? {
      DecimalReads(m.value);
      assert tag[1..] == Decimal(m.value);
    }
  }

  lemma ParsedPlain(line: string, l: string, name: string, groups: seq<string>)
    requires l == Strip(line) && |groups| == 10 && Match(PlainLine(), l) == Some([name] + groups)
    ensures ParseLine(line) == Built(name, groups, Some(Multiplex.Plain))
  {
    assert ([name] + groups)[1..] == groups;
  }

  lemma ParsedTagged(line: string, l: string, name: string, tag: string, groups: seq<string>)
    requires l == Strip(line) && |groups| == 10
    requires Match(PlainLine(), l) == None && Match(TaggedLine(), l) == Some([name, tag] + groups)
    ensures ParseLine(line) == Built(name, groups, ReadMultiplex(tag))
  {
    assert ([name, tag] + groups)[2..] == groups;
  }

  lemma BodyParses(s: Signal, line: string, rest: string)
    requires Printable(s) && Solid(rest) && Strip(line) == Body(s, rest)
    ensures IsSignalLine(line) && ParseLine(line) == Built(s.name, Groups(s, rest), Some(s.multiplex))
  {
    MatchBits(s, rest);
    var text, groups := BitsText(s, rest), Groups(s, rest);
    if s.multiplex.Plain? {
      assert "" + (" : " + text) == " : " + text;
      MatchPlain(s.name, text, groups);
      ParsedPlain(line, Body(s, rest), s.name, groups);
    } else {
      var tag := if s.multiplex.Multiplexor? then "M" else "m" + Decimal(s.multiplex.value);
      TagReads(s.multiplex, tag);
      TagText(s.multiplex, tag, text);
      NotPlain(s.name, " " + (tag + ("  " + (": " + text))));
      MatchTagged(s.name, tag, text, groups);
      ParsedTagged(line, Body(s, rest), s.name, tag, groups);
    }
  }

  lemma LineStrips(s: Signal, rest: string, line: string)
    requires Solid(rest) && line == " " + Body(s, rest) + "\n"
    ensures Strip(line) == Body(s, rest)
  {
    BodyEnds(s, rest);
    StripLine(Body(s, rest));
  }

  lemma LineReads(s: Signal, receivers: seq<string>, rest: string, line: string)
    requires Printable(s) && receivers == WithReceivers(s).receivers && rest == JoinCommas(receivers)
    requires line == " " + Body(s, rest) + "\n"
    ensures IsSignalLine(line) && ParseLine(line) == Some(s.(receivers := receivers))
  {
    ReceiversSolid(receivers);
    LineStrips(s, rest, line);
    BodyParses(s, line, rest);
    BuiltBack(s, receivers, rest);
  }

  /** Reading the line that was written for a printable signal gives the signal, with the receivers the exporter filled in. */
  lemma PrintedLineReads(s: Signal, line: string)
    requires Printable(s) && line == Line(s) + "\n"
    ensures IsSignalLine(line) && ParseLine(line) == Some(WithReceivers(s))
  {
    var receivers := WithReceivers(s).receivers;
    LineReads(s, receivers, JoinCommas(receivers), line);
  }

  // The writing and reading loops ----------------------------------------------------------------

  /** Text written in pieces, against the same text grouped from its end. */
  lemma Regroup(t: string, a: string, b: string, c: string, d: string, e: string, x: string)
    ensures t + (a + b + c + d + e) + x == t + (a + (b + (c + (d + (e + x)))))
  {
    Associative(d, e, x);
    Associative(c, d + e, x);
    Associative(b, c + (d + e), x);
    Associative(a, b + (c + (d + e)), x);
    Associative(c, d, e);
    Associative(b, c, d + e);
    Associative(a, b, c + d + e);
    Associative(a + b, c, d + e);
    Associative(a + b + c, d, e);
    Associative(t, a + b + c + d + e, x);
  }

  lemma UnitWritten(s: Signal, v: string, rest: string)
    ensures v + " \"" + s.unit + "\" " + rest == v + (" \"" + QuotedText(s.unit, rest))
  {
    Associative(v + " \"", s.unit, "\" ");
    Associative(v + " \"", s.unit + "\" ", rest);
    Associative(v, " \"", QuotedText(s.unit, rest));
  }

  lemma LimitsWritten(s: Signal, u: string, rest: string)
    ensures u + (" [" + s.min + "|" + s.max + "]") + " \"" + s.unit + "\" " + rest == u + (" [" + LimitsText(s, rest))
  {
    var q := QuotedText(s.unit, rest);
    UnitWritten(s, u + (" [" + s.min + "|" + s.max + "]"), rest);
    Regroup(u, " [", s.min, "|", s.max, "]", " \"" + q);
    Associative("]", " \"", q);
    assert "]" + " \"" == "] \"";
  }

  lemma ScaleWritten(s: Signal, t: string, rest: string)
    ensures t + (" (" + s.factor + "," + s.offset + ")") + (" [" + s.min + "|" + s.max + "]") + " \"" + s.unit + "\" " + rest
         == t + (" (" + ScaleText(s, rest))
  {
    LimitsWritten(s, t + (" (" + s.factor + "," + s.offset + ")"), rest);
    Regroup(t, " (", s.factor, ",", s.offset, ")", " [" + LimitsText(s, rest));
    Associative(")", " [", LimitsText(s, rest));
    assert ")" + " [" == ") [";
  }

  lemma BitsWritten(s: Signal, t: string, rest: string)
    ensures t + (" : " + Decimal(s.startBit) + "|" + Decimal(s.size) + "@" + Decimal(s.byteOrder) + [s.valueType])
              + (" (" + ScaleText(s, rest))
         == t + (" : " + BitsText(s, rest))
  {
    var a, b, c, x := Decimal(s.startBit), Decimal(s.size), Decimal(s.byteOrder), " (" + ScaleText(s, rest);
    Regroup(t, " : " + a + "|", b, "@", c, [s.valueType], x);
    var y := b + ("@" + (c + ([s.valueType] + x)));
    Associative(" : " + a, "|", y);
    Associative(" : ", a, "|" + y);
  }

  lemma StartWritten(s: Signal, x: string)
    ensures " SG_ " + s.name + MultiplexText(s.multiplex) + x == " " + ("SG_ " + (s.name + (MultiplexText(s.multiplex) + x)))
  {
    var m := MultiplexText(s.multiplex);
    Associative(" SG_ " + s.name, m, x);
    Associative(" SG_ ", s.name, m + x);
    assert " SG_ " == " " + "SG_ ";
    Associative(" ", "SG_ ", s.name + (m + x));
  }

  /** What one round leaves for a signal. */
  predicate Written(s: Signal, text: string, after: Signal) {
    after == WithReceivers(s) && text == Line(s) + "\n"
  }

  /** One round of the exporter's loop over a frame's signals; a signal without receivers gets one on the way. */
  method WriteSignal(s: Signal) returns (text: string, after: Signal)
    ensures Written(s, text, after)
  {
    text, after := " SG_ " + s.name, s;
    match s.multiplex {
      case Plain => text := text + "";
      case Multiplexor => text := text + " M ";
      case Multiplexed(value) => text := text + (" m" + Decimal(value) + " ");
    }
    ghost var t1 := text;
    text := text + (" : " + Decimal(s.startBit) + "|" + Decimal(s.size) + "@" + Decimal(s.byteOrder) + [s.valueType]);
    ghost var t2 := text;
    text := text + (" (" + s.factor + "," + s.offset + ")");
    text := text + (" [" + s.min + "|" + s.max + "]");
    text := text + " \"";
    text := text + s.unit;
    text := text + "\" ";
    if s.receivers == [] { after := s.(receivers := ["Vector__XXX"]); }
    ghost var rest := JoinCommas(after.receivers);
    ScaleWritten(s, t2, rest);
    BitsWritten(s, t1, rest);
    StartWritten(s, " : " + BitsText(s, rest));
    Associative(text, rest, "\n");
    text := text + (JoinCommas(after.receivers) + "\n");
  }

  predicate AllWritten(signals: seq<Signal>, lines: seq<string>, after: seq<Signal>) {
    |lines| == |signals| == |after| && forall i :: 0 <= i < |signals| ==> Written(signals[i], lines[i], after[i])
  }

  lemma OneMoreWritten(signals: seq<Signal>, lines: seq<string>, after: seq<Signal>, text: string, a: Signal)
    requires |lines| < |signals| && AllWritten(signals[..|lines|], lines, after) && Written(signals[|lines|], text, a)
    ensures AllWritten(signals[..|lines| + 1], lines + [text], after + [a])
  {
  }

  /** All the signals of a frame: their lines, and the signals as they are left. */
  method WriteSignals(signals: seq<Signal>) returns (lines: seq<string>, after: seq<Signal>)
    ensures AllWritten(signals, lines, after)
  {
    lines, after := [], [];
    while |lines| < |signals|
      invariant |lines| <= |signals| && AllWritten(signals[..|lines|], lines, after)
    {
      var text, s := WriteSignal(signals[|lines|]);
      OneMoreWritten(signals, lines, after, text, s);
      lines, after := lines + [text], after + [s];
    }
    assert signals[..|lines|] == signals;
  }

  function Filter<T>(s: seq<T>, p: T -> bool): seq<T>
    decreases |s|
  {
    if s == [] then [] else Filter(s[..|s| - 1], p) + if p(s[|s| - 1]) then [s[|s| - 1]] else []
  }

  /** The signal lines among the lines of a file. */
  function SignalLines(lines: seq<string>): seq<string> {
    Filter(lines, IsSignalLine)
  }

  /** The signals read are those of the first signal lines. */
  predicate ReadSoFar(lines: seq<string>, signals: seq<Signal>) {
    |signals| <= |lines| && forall i :: 0 <= i < |signals| ==> ParseLine(lines[i]) == Some(signals[i])
  }

  /**
   The signal branch of the importer's loop, which passes over all other lines; it stops at the first signal
   line that it cannot read.
   */
  method ReadSignals(lines: seq<string>) returns (ok: bool, signals: seq<Signal>)
    ensures ReadSoFar(SignalLines(lines), signals)
    ensures ok <==> |signals| == |SignalLines(lines)|
    ensures ok <==> forall i :: 0 <= i < |SignalLines(lines)| ==> ParseLine(SignalLines(lines)[i]).Some?
    ensures !ok ==> ParseLine(SignalLines(lines)[|signals|]) == None
  {
    signals := [];
    var i := 0;
    while i < |lines|
      invariant 0 <= i <= |lines|
      invariant ReadSoFar(SignalLines(lines[..i]), signals) && |signals| == |SignalLines(lines[..i])|
    {
      assert lines[..i + 1][..i] == lines[..i];
      if IsSignalLine(lines[i]) {
        var read := ParseLine(lines[i]);
        FilterPrefix(lines, IsSignalLine, i);
        if read.None? { return false, signals; }
        signals := signals + [read.value];
      }
      i := i + 1;
    }
    assert lines[..i] == lines;
    ok := true;
  }

  lemma {:induction false} FilterConcat<T>(a: seq<T>, b: seq<T>, p: T -> bool)
    ensures Filter(a + b, p) == Filter(a, p) + Filter(b, p)
    decreases |b|
  {
    if b == [] {
      assert a + b == a;
    } else {
      var rest := b[..|b| - 1];
      assert (a + b)[..|a + b| - 1] == a + rest;
      FilterConcat(a, rest, p);
    }
  }

  lemma FilterPrefix<T>(s: seq<T>, p: T -> bool, i: nat)
    requires i < |s| && p(s[i])
    ensures var k := |Filter(s[..i], p)|;
      k < |Filter(s, p)| && Filter(s, p)[..k] == Filter(s[..i], p) && Filter(s, p)[k] == s[i]
  {
    assert s == s[..i + 1] + s[i + 1..];
    FilterConcat(s[..i + 1], s[i + 1..], p);
    assert s[..i + 1][..i] == s[..i];
  }

  lemma {:induction false} FilterAll<T>(s: seq<T>, p: T -> bool)
    requires forall i :: 0 <= i < |s| ==> p(s[i])
    ensures Filter(s, p) == s
    decreases |s|
  {
    if s != [] { FilterAll(s[..|s| - 1], p); }
  }

  lemma {:induction false} FilterNone<T>(s: seq<T>, p: T -> bool)
    requires forall i :: 0 <= i < |s| ==> !p(s[i])
    ensures Filter(s, p) == []
    decreases |s|
  {
    if s != [] { FilterNone(s[..|s| - 1], p); }
  }

  lemma FilterAround<T>(a: seq<T>, s: seq<T>, b: seq<T>, p: T -> bool)
    requires (forall i :: 0 <= i < |a| ==> !p(a[i])) && (forall i :: 0 <= i < |b| ==> !p(b[i]))
    requires forall i :: 0 <= i < |s| ==> p(s[i])
    ensures Filter(a + s + b, p) == s
  {
    FilterConcat(a + s, b, p);
    FilterConcat(a, s, p);
    FilterNone(a, p);
    FilterAll(s, p);
    FilterNone(b, p);
    assert [] + s + [] == s;
  }

  lemma WrittenLinesRead(signals: seq<Signal>, lines: seq<string>, after: seq<Signal>)
    requires AllWritten(signals, lines, after) && forall i :: 0 <= i < |signals| ==> Printable(signals[i])
    ensures forall i :: 0 <= i < |lines| ==> IsSignalLine(lines[i])
    ensures forall i :: 0 <= i < |lines| ==> ParseLine(lines[i]) == Some(WithReceivers(signals[i]))
  {
    forall i | 0 <= i < |lines|
      ensures IsSignalLine(lines[i]) && ParseLine(lines[i]) == Some(WithReceivers(signals[i]))
    {
      assert Written(signals[i], lines[i], after[i]);
      PrintedLineReads(signals[i], lines[i]);
    }
  }

  /**
   Exporting a frame's signals and importing the lines, with any other lines around them, gives back the
   signals the exporter has left.
   */
  method WriteThenRead(signals: seq<Signal>, before: seq<string>, behind: seq<string>) returns (ok: bool, read: seq<Signal>)
    requires forall i :: 0 <= i < |signals| ==> Printable(signals[i])
    requires forall i :: 0 <= i < |before| ==> !IsSignalLine(before[i])
    requires forall i :: 0 <= i < |behind| ==> !IsSignalLine(behind[i])
    ensures ok && |read| == |signals| && forall i :: 0 <= i < |signals| ==> read[i] == WithReceivers(signals[i])
  {
    var lines, after := WriteSignals(signals);
    WrittenLinesRead(signals, lines, after);
    FilterAround(before, lines, behind, IsSignalLine);
    ok, read := ReadSignals(before + lines + behind);
  }
}
