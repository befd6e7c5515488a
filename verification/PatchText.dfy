/** Unified-diff patches: the parser and the printer of utils/check-style.py. */
module PatchText {

  datatype Option<+T> = None | Some(value: T) {
    predicate IsFailure() { None? }
    function PropagateFailure<U>(): Option<U> requires None? { None }
    function Extract(): T requires Some? { value }
  }

  datatype Kind = Src | Dst | Both

  datatype Line = Line(kind: Kind, text: string)

  datatype Chunk = Chunk(srcPos: nat, dstPos: nat, lines: seq<Line>)

  datatype Patch = Patch(src: string, dst: string, chunks: seq<Chunk>)

  predicate OnSrc(l: Line) { l.kind != Dst }

  predicate OnDst(l: Line) { l.kind != Src }

  function SrcLen(lines: seq<Line>): nat {
    if lines == [] then 0 else SrcLen(lines[..|lines| - 1]) + if OnSrc(lines[|lines| - 1]) then 1 else 0
  }

  function DstLen(lines: seq<Line>): nat {
    if lines == [] then 0 else DstLen(lines[..|lines| - 1]) + if OnDst(lines[|lines| - 1]) then 1 else 0
  }

  /** The positions of the lines on one side, in order. */
  function Side(lines: seq<Line>, n: nat, on: Line -> bool): (r: seq<nat>)
    requires n <= |lines|
    ensures |r| <= n
    ensures forall i :: 0 <= i < |r| ==> r[i] < n && on(lines[r[i]])
    ensures forall i, j :: 0 <= i < j < |r| ==> r[i] < r[j]
  {
    if n == 0 then [] else Side(lines, n - 1, on) + if on(lines[n - 1]) then [n - 1] else []
  }

  function SrcSide(lines: seq<Line>): (r: seq<nat>)
    ensures forall i :: 0 <= i < |r| ==> r[i] < |lines| && OnSrc(lines[r[i]])
    ensures forall i, j :: 0 <= i < j < |r| ==> r[i] < r[j]
  {
    Side(lines, |lines|, OnSrc)
  }

  function DstSide(lines: seq<Line>): (r: seq<nat>)
    ensures forall i :: 0 <= i < |r| ==> r[i] < |lines| && OnDst(lines[r[i]])
    ensures forall i, j :: 0 <= i < j < |r| ==> r[i] < r[j]
  {
    Side(lines, |lines|, OnDst)
  }

  lemma {:induction false} SideComplete(lines: seq<Line>, n: nat, on: Line -> bool, k: nat)
    requires k < n <= |lines| && on(lines[k])
    ensures k in Side(lines, n, on)
  {
    if k < n - 1 {
      SideComplete(lines, n - 1, on, k);
    }
  }

  /** The two sides hold exactly the lines on them. */
  lemma SidesAreComplete(lines: seq<Line>, k: nat)
    ensures k in SrcSide(lines) <==> k < |lines| && OnSrc(lines[k])
    ensures k in DstSide(lines) <==> k < |lines| && OnDst(lines[k])
  {
    hide Side;
    if k < |lines| && OnSrc(lines[k]) {
      SideComplete(lines, |lines|, OnSrc, k);
    }
    if k < |lines| && OnDst(lines[k]) {
      SideComplete(lines, |lines|, OnDst, k);
    }
  }

  /** The counts in a chunk header are the numbers of lines on the two sides. */
  lemma {:induction false} SideLengths(lines: seq<Line>, n: nat)
    requires n <= |lines|
    ensures |Side(lines, n, OnSrc)| == SrcLen(lines[..n]) && |Side(lines, n, OnDst)| == DstLen(lines[..n])
  {
    if n > 0 {
      SideLengths(lines, n - 1);
      assert lines[..n][..n - 1] == lines[..n - 1];
    }
  }

  // ---- decimal numbers ----

  predicate IsDigit(c: char) { '0' <= c <= '9' }

  function Digit(n: nat): char
    requires n < 10
    ensures IsDigit(Digit(n)) && Digit(n) as int - '0' as int == n
  {
    '0' + n as char
  }

  /** The %d form of a natural number. */
  function Decimal(n: nat): string {
    if n < 10 then [Digit(n)] else Decimal(n / 10) + [Digit(n % 10)]
  }

  predicate AllDigits(s: string) {
    forall i :: 0 <= i < |s| ==> IsDigit(s[i])
  }

  /** int() of a string of digits. */
  function ValueOf(s: string): nat
    requires AllDigits(s)
  {
    if s == [] then 0 else ValueOf(s[..|s| - 1]) * 10 + (s[|s| - 1] as int - '0' as int)
  }

  lemma {:induction false} DecimalValue(n: nat)
    ensures Decimal(n) != [] && AllDigits(Decimal(n)) && ValueOf(Decimal(n)) == n
  {
    if n >= 10 {
      DecimalValue(n / 10);
      var d := Decimal(n);
      assert d[..|d| - 1] == Decimal(n / 10);
    } else {
      assert [Digit(n)][..0] == [];
    }
  }

  // ---- the line patterns ----

  /** What `(.*)$` captures of a rest of a line: it stops at a newline, which may only be the very last character. */
  function Tail(rest: string): Option<string> {
    if '\n' !in rest then Some(rest)
    else if '\n' !in rest[..|rest| - 1] then Some(rest[..|rest| - 1])
    else None
  }

  function After(s: string, literal: string): Option<string> {
    if literal <= s then Some(s[|literal|..]) else None
  }

  function DigitCount(s: string): nat
    ensures DigitCount(s) <= |s| && AllDigits(s[..DigitCount(s)])
  {
    if s == [] || !IsDigit(s[0]) then 0
    else
      var n := 1 + DigitCount(s[1..]);
      assert s[..n] == [s[0]] + s[1..][..n - 1];
      n
  }

  /** One or more digits, and what follows them. */
  function Number(s: string): Option<(nat, string)> {
    var n := DigitCount(s);
    if n == 0 then None else Some((ValueOf(s[..n]), s[n..]))
  }

  datatype Head = Head(srcPos: nat, srcLen: nat, dstPos: nat, dstLen: nat)

  /** `^@@ -([0-9]+),([0-9]+) \+([0-9]+),([0-9]+) @@` */
  function ChunkHead(line: string): Option<Head> {
    var r0 :- After(line, "@@ -");
    var (a, r1) :- Number(r0);
    var r2 :- After(r1, ",");
    var (b, r3) :- Number(r2);
    var r4 :- After(r3, " +");
    var (c, r5) :- Number(r4);
    var r6 :- After(r5, ",");
    var (d, r7) :- Number(r6);
    var _ :- After(r7, " @@");
    Some(Head(a, b, c, d))
  }

  datatype Class =
    | SrcFile(name: string)
    | DstFile(name: string)
    | ChunkStart(head: Head)
    | Text(line: Line)
    | Unknown

  /** What the parser sees after a prefix, if the rest of the line is fit to be captured. */
  function Captured(line: string, prefix: string): Option<string> {
    var rest :- After(line, prefix);
    Tail(rest)
  }

  /** The patterns in the order the parser tries them. */
  function Classify(line: string): Class {
    if Captured(line, "--- ").Some? then SrcFile(Captured(line, "--- ").value)
    else if Captured(line, "+++ ").Some? then DstFile(Captured(line, "+++ ").value)
    else if ChunkHead(line).Some? then ChunkStart(ChunkHead(line).value)
    else if Captured(line, "-").Some? then Text(Line(Src, Captured(line, "-").value))
    else if Captured(line, "+").Some? then Text(Line(Dst, Captured(line, "+").value))
    else if Captured(line, " ").Some? then Text(Line(Both, Captured(line, " ").value))
    else Unknown
  }

  // ---- the parser ----

  /** The patches so far, and which chunk object `current_chunk` refers to (patch, position in it).
      It keeps referring to the last chunk of the previous patch until the new patch gets a chunk. */
  datatype ParseState = ParseState(patches: seq<Patch>, current: Option<(nat, nat)>)

  predicate ValidState(st: ParseState) {
    st.current.Some? ==>
      st.current.value.0 < |st.patches| && st.current.value.1 < |st.patches[st.current.value.0].chunks|
  }

  function WithLine(p: Patch, k: nat, l: Line): Patch
    requires k < |p.chunks|
  {
    p.(chunks := p.chunks[k := p.chunks[k].(lines := p.chunks[k].lines + [l])])
  }

  /** One line. None stands for the exceptions: an unknown line, or one that needs a patch or a chunk too early. */
  function Step(st: ParseState, line: string): (r: Option<ParseState>)
    requires ValidState(st)
    ensures r.Some? ==> ValidState(r.value)
  {
    var last := |st.patches| - 1;
    match Classify(line)
    case SrcFile(name) => Some(st.(patches := st.patches + [Patch(name, "", [])]))
    case DstFile(name) =>
      if last < 0 then None else Some(st.(patches := st.patches[last := st.patches[last].(dst := name)]))
    case ChunkStart(head) =>
      if last < 0 then None
      else
        var p := st.patches[last];
        Some(ParseState(st.patches[last := p.(chunks := p.chunks + [Chunk(head.srcPos, head.dstPos, [])])],
                        Some((last, |p.chunks|))))
    case Text(l) =>
      if st.current.None? then None
      else
        var (i, k) := st.current.value;
        Some(st.(patches := st.patches[i := WithLine(st.patches[i], k, l)]))
    case Unknown => None
  }

  function ParseFrom(st: ParseState, lines: seq<string>): (r: Option<ParseState>)
    requires ValidState(st)
    ensures r.Some? ==> ValidState(r.value)
    decreases |lines|
  {
    if lines == [] then Some(st)
    else
      var st' :- Step(st, lines[0]);
      ParseFrom(st', lines[1..])
  }

  const NOTHING := ParseState([], None)

  function Parse(lines: seq<string>): Option<seq<Patch>> {
    var st :- ParseFrom(NOTHING, lines);
    Some(st.patches)
  }

  /** The last three patterns, in order. */
  function TextLine(line: string): (l: Option<Line>)
    ensures !Classify(line).SrcFile? && !Classify(line).DstFile? && !Classify(line).ChunkStart? ==>
      Classify(line) == if l.Some? then Text(l.value) else Unknown
  {
    if Captured(line, "-").Some? then Some(Line(Src, Captured(line, "-").value))
    else if Captured(line, "+").Some? then Some(Line(Dst, Captured(line, "+").value))
    else if Captured(line, " ").Some? then Some(Line(Both, Captured(line, " ").value))
    else None
  }

  // ---- the printer ----

  function Mark(k: Kind): char {
    match k
    case Src => '-'
    case Dst => '+'
    case Both => ' '
  }

  function PrintLine(l: Line): string {
    [Mark(l.kind)] + l.text + "\n"
  }

  function PrintLines(lines: seq<Line>): seq<string> {
    if lines == [] then [] else [PrintLine(lines[0])] + PrintLines(lines[1..])
  }

  function HeaderText(h: Head): string {
    "@@ -" + (Decimal(h.srcPos) + ("," + (Decimal(h.srcLen) +
    (" +" + (Decimal(h.dstPos) + ("," + (Decimal(h.dstLen) + (" @@" + "\n"))))))))
  }

  function Header(c: Chunk): string {
    HeaderText(Head(c.srcPos, SrcLen(c.lines), c.dstPos, DstLen(c.lines)))
  }

  function PrintChunk(c: Chunk): seq<string> {
    [Header(c)] + PrintLines(c.lines)
  }

  function PrintChunks(cs: seq<Chunk>): seq<string> {
    if cs == [] then [] else PrintChunk(cs[0]) + PrintChunks(cs[1..])
  }

  function PrintPatch(p: Patch): seq<string> {
    ["--- " + p.src + "\n", "+++ " + p.dst + "\n"] + PrintChunks(p.chunks)
  }

  function Print(ps: seq<Patch>): seq<string> {
    if ps == [] then [] else PrintPatch(ps[0]) + Print(ps[1..])
  }

  // ---- printing, then parsing ----

  predicate OneLine(s: string) { '\n' !in s }

  /** What a parser result always is, and a printer needs: no text or name contains a newline. */
  predicate Clean(ps: seq<Patch>) {
    forall i :: 0 <= i < |ps| ==> OneLine(ps[i].src) && OneLine(ps[i].dst) && CleanChunks(ps[i].chunks)
  }

  predicate CleanChunks(cs: seq<Chunk>) {
    forall k :: 0 <= k < |cs| ==> CleanLines(cs[k].lines)
  }

  predicate CleanLines(lines: seq<Line>) {
    forall j :: 0 <= j < |lines| ==> OneLine(lines[j].text)
  }

  /** A removed line that prints as a source header, or an added line that prints as a destination header. */
  predicate Disguised(l: Line) {
    (l.kind == Src && "-- " <= l.text) || (l.kind == Dst && "++ " <= l.text)
  }

  predicate PlainLines(lines: seq<Line>) {
    forall j :: 0 <= j < |lines| ==> !Disguised(lines[j])
  }

  predicate PlainChunks(cs: seq<Chunk>) {
    forall k :: 0 <= k < |cs| ==> PlainLines(cs[k].lines)
  }

  predicate Plain(ps: seq<Patch>) {
    forall i :: 0 <= i < |ps| ==> PlainChunks(ps[i].chunks)
  }

  lemma TailOfLine(s: string)
    requires OneLine(s)
    ensures Tail(s + "\n") == Some(s)
  {
    assert (s + "\n")[|s|] == '\n';
    assert (s + "\n")[..|s|] == s;
  }

  lemma CapturedLine(prefix: string, s: string)
    requires OneLine(s)
    ensures Captured(prefix + s + "\n", prefix) == Some(s)
  {
    assert (prefix + s + "\n")[..|prefix|] == prefix;
    assert (prefix + s + "\n")[|prefix|..] == s + "\n";
    TailOfLine(s);
  }

  lemma ClassifySrcFile(name: string)
    requires OneLine(name)
    ensures Classify("--- " + name + "\n") == SrcFile(name)
  {
    CapturedLine("--- ", name);
  }

  lemma ClassifyDstFile(name: string)
    requires OneLine(name)
    ensures Classify("+++ " + name + "\n") == DstFile(name)
  {
    CapturedLine("+++ ", name);
    assert ("+++ " + name + "\n")[0] == '+';
  }

  /** A printed line is read back as itself, unless it is disguised as a file header. */
  lemma ClassifyText(l: Line)
    requires OneLine(l.text)
    ensures !Disguised(l) ==> Classify(PrintLine(l)) == Text(l)
    ensures Disguised(l) ==> !Classify(PrintLine(l)).Text?
  {
    var line := PrintLine(l);
    CapturedLine([Mark(l.kind)], l.text);
    assert line[0] == Mark(l.kind);
    assert line[1..] == l.text + "\n";
    assert "@@ -"[0] == '@';
    FileHeaderIff(l, "--- ", "-- ");
    FileHeaderIff(l, "+++ ", "++ ");
  }

  lemma FileHeaderIff(l: Line, header: string, rest: string)
    requires OneLine(l.text) && |header| == 4 && rest == header[1..] && OneLine(rest)
    ensures Captured(PrintLine(l), header).Some? <==> Mark(l.kind) == header[0] && rest <= l.text
  {
    var line := PrintLine(l);
    assert header == [header[0]] + rest;
    assert line == [Mark(l.kind)] + (l.text + "\n");
    if header <= line {
      assert line[..4] == header;
      assert (l.text + "\n")[..3] == rest;
      assert (l.text + "\n")[|l.text|] == '\n' && '\n' !in (l.text + "\n")[..3];
      assert |l.text| >= 3;
      assert line[4..] == l.text[3..] + "\n";
      TailOfLine(l.text[3..]);
    }
    if Mark(l.kind) == header[0] && rest <= l.text {
      assert header <= line;
    }
  }

  lemma {:induction false} DigitCountAppend(d: string, rest: string)
    requires AllDigits(d) && rest != [] && !IsDigit(rest[0])
    ensures DigitCount(d + rest) == |d|
  {
    if d == [] {
      assert d + rest == rest;
    } else {
      assert (d + rest)[1..] == d[1..] + rest;
      DigitCountAppend(d[1..], rest);
    }
  }

  lemma NumberOfDecimal(n: nat, rest: string)
    requires rest != [] && !IsDigit(rest[0])
    ensures Number(Decimal(n) + rest) == Some((n, rest))
  {
    DecimalValue(n);
    DigitCountAppend(Decimal(n), rest);
    assert (Decimal(n) + rest)[..|Decimal(n)|] == Decimal(n);
    assert (Decimal(n) + rest)[|Decimal(n)|..] == rest;
  }

  lemma AfterLiteral(literal: string, rest: string)
    ensures After(literal + rest, literal) == Some(rest)
  {
    assert (literal + rest)[..|literal|] == literal;
  }

  /** The printed header reads back as the positions and the numbers of lines on the two sides. */
  lemma HeaderRoundTrip(c: Chunk)
    ensures ChunkHead(Header(c)) == Some(Head(c.srcPos, SrcLen(c.lines), c.dstPos, DstLen(c.lines)))
    ensures Classify(Header(c)) == ChunkStart(Head(c.srcPos, SrcLen(c.lines), c.dstPos, DstLen(c.lines)))
  {
    hide Decimal, Number, After, SrcLen, DstLen;
    var r7 := " @@" + "\n";
    var r6 := Decimal(DstLen(c.lines)) + r7;
    var r5 := "," + r6;
    var r4 := Decimal(c.dstPos) + r5;
    var r3 := " +" + r4;
    var r2 := Decimal(SrcLen(c.lines)) + r3;
    var r1 := "," + r2;
    var r0 := Decimal(c.srcPos) + r1;
    AfterLiteral("@@ -", r0);
    NumberOfDecimal(c.srcPos, r1);
    AfterLiteral(",", r2);
    NumberOfDecimal(SrcLen(c.lines), r3);
    AfterLiteral(" +", r4);
    NumberOfDecimal(c.dstPos, r5);
    AfterLiteral(",", r6);
    NumberOfDecimal(DstLen(c.lines), r7);
    AfterLiteral(" @@", "\n");
    NotAfter(Header(c), "--- ");
    NotAfter(Header(c), "+++ ");
  }

  lemma NotAfter(line: string, prefix: string)
    requires line != [] && prefix != [] && line[0] != prefix[0]
    ensures After(line, prefix) == None
  {
  }

  // ---- parsing what was printed ----

  lemma {:induction false} ParseConcat(st: ParseState, a: seq<string>, b: seq<string>)
    requires ValidState(st)
    ensures ParseFrom(st, a + b) == match ParseFrom(st, a) { case None => None case Some(st') => ParseFrom(st', b) }
    decreases |a|
  {
    hide Step;
    if a == [] {
      assert a + b == b;
    } else {
      assert (a + b)[0] == a[0] && (a + b)[1..] == a[1..] + b;
      if Step(st, a[0]).Some? {
        ParseConcat(Step(st, a[0]).value, a[1..], b);
      }
    }
  }

  lemma ParseOne(st: ParseState, line: string)
    requires ValidState(st)
    ensures ParseFrom(st, [line]) == Step(st, line)
  {
    hide Step;
    assert [line][1..] == [];
    if Step(st, line).Some? {
      assert ParseFrom(Step(st, line).value, []) == Step(st, line);
    }
  }

  /** Reading into the last chunk of the last patch. */
  function Inside(before: seq<Patch>, p: Patch, c: Chunk): (st: ParseState)
    ensures ValidState(st)
  {
    ParseState(before + [p.(chunks := p.chunks + [c])], Some((|before|, |p.chunks|)))
  }

  lemma SetLast<T>(s: seq<T>, x: T, y: T)
    ensures (s + [x])[|s| := y] == s + [y]
  {
  }

  lemma StepText(before: seq<Patch>, p: Patch, c: Chunk, l: Line)
    requires OneLine(l.text) && !Disguised(l)
    ensures Step(Inside(before, p, c), PrintLine(l)) == Some(Inside(before, p, c.(lines := c.lines + [l])))
  {
    hide Classify, PrintLine;
    ClassifyText(l);
    var c' := c.(lines := c.lines + [l]);
    SetLast(p.chunks, c, c');
    SetLast(before, p.(chunks := p.chunks + [c]), p.(chunks := p.chunks + [c']));
  }

  lemma StepHeader(before: seq<Patch>, p: Patch, current: Option<(nat, nat)>, c: Chunk)
    requires ValidState(ParseState(before + [p], current))
    ensures Step(ParseState(before + [p], current), Header(c)) == Some(Inside(before, p, Chunk(c.srcPos, c.dstPos, [])))
  {
    hide Classify, Header;
    HeaderRoundTrip(c);
    SetLast(before, p, p.(chunks := p.chunks + [Chunk(c.srcPos, c.dstPos, [])]));
  }

  lemma {:induction false} ReadLines(before: seq<Patch>, p: Patch, c: Chunk, lines: seq<Line>)
    requires CleanLines(lines) && PlainLines(lines)
    ensures ParseFrom(Inside(before, p, c), PrintLines(lines)) == Some(Inside(before, p, c.(lines := c.lines + lines)))
    decreases |lines|
  {
    hide Step, Inside, PrintLine;
    if lines == [] {
      assert c.lines + lines == c.lines;
    } else {
      var l, c' := lines[0], c.(lines := c.lines + [lines[0]]);
      StepText(before, p, c, l);
      ReadLines(before, p, c', lines[1..]);
      assert c'.lines + lines[1..] == c.lines + lines;
      assert PrintLines(lines)[0] == PrintLine(l) && PrintLines(lines)[1..] == PrintLines(lines[1..]);
    }
  }

  /** What parsing leaves in the patches, if it gets that far. */
  predicate Reads(st: ParseState, lines: seq<string>, patches: seq<Patch>)
    requires ValidState(st)
  {
    ParseFrom(st, lines).Some? && ParseFrom(st, lines).value.patches == patches
  }

  lemma ReadChunk(before: seq<Patch>, p: Patch, current: Option<(nat, nat)>, c: Chunk)
    requires ValidState(ParseState(before + [p], current)) && CleanLines(c.lines) && PlainLines(c.lines)
    ensures ParseFrom(ParseState(before + [p], current), PrintChunk(c)) == Some(Inside(before, p, c))
  {
    hide Step, Header, ParseFrom, Inside, PrintLines;
    var st, empty := ParseState(before + [p], current), Chunk(c.srcPos, c.dstPos, []);
    StepHeader(before, p, current, c);
    ParseOne(st, Header(c));
    ParseConcat(st, [Header(c)], PrintLines(c.lines));
    ReadLines(before, p, empty, c.lines);
    assert [] + c.lines == c.lines;
  }

  lemma {:induction false} ReadChunks(before: seq<Patch>, p: Patch, current: Option<(nat, nat)>, cs: seq<Chunk>)
    requires ValidState(ParseState(before + [p], current)) && CleanChunks(cs) && PlainChunks(cs)
    ensures Reads(ParseState(before + [p], current), PrintChunks(cs), before + [p.(chunks := p.chunks + cs)])
    decreases |cs|
  {
    hide PrintChunk, Step, CleanLines, PlainLines;
    if cs == [] {
      assert p.chunks + cs == p.chunks;
    } else {
      var c, rest := cs[0], cs[1..];
      var p' := p.(chunks := p.chunks + [c]);
      ReadChunk(before, p, current, c);
      ParseConcat(ParseState(before + [p], current), PrintChunk(c), PrintChunks(rest));
      ReadChunks(before, p', Some((|before|, |p.chunks|)), rest);
      assert p'.chunks + rest == p.chunks + cs;
    }
  }

  lemma ReadPatch(st: ParseState, p: Patch)
    requires ValidState(st) && Clean([p]) && Plain([p])
    ensures Reads(st, PrintPatch(p), st.patches + [p])
  {
    hide Classify, ParseFrom;
    assert [p][0] == p;
    var heads := ["--- " + p.src + "\n", "+++ " + p.dst + "\n"];
    var p0, p1 := Patch(p.src, "", []), Patch(p.src, p.dst, []);
    ClassifySrcFile(p.src);
    ClassifyDstFile(p.dst);
    var st0 := Step(st, heads[0]).value;
    assert st0.patches == st.patches + [p0];
    var st1 := Step(st0, heads[1]).value;
    assert st1.patches == st.patches + [p1];
    ParseOne(st, heads[0]);
    ParseOne(st0, heads[1]);
    ParseConcat(st, [heads[0]], [heads[1]]);
    assert [heads[0]] + [heads[1]] == heads;
    ParseConcat(st, heads, PrintChunks(p.chunks));
    ReadChunks(st.patches, p1, st1.current, p.chunks);
    assert p1.chunks + p.chunks == p.chunks;
  }

  lemma {:induction false} ReadPatches(st: ParseState, ps: seq<Patch>)
    requires ValidState(st) && Clean(ps) && Plain(ps)
    ensures Reads(st, Print(ps), st.patches + ps)
    decreases |ps|
  {
    hide PrintPatch, Step, OneLine, CleanChunks, PlainChunks;
    if ps == [] {
      assert st.patches + ps == st.patches;
    } else {
      var p := ps[0];
      assert Clean([p]) && Plain([p]);
      ReadPatch(st, p);
      ParseConcat(st, PrintPatch(p), Print(ps[1..]));
      var st' := ParseFrom(st, PrintPatch(p)).value;
      ReadPatches(st', ps[1..]);
      assert st'.patches + ps[1..] == st.patches + ps;
    }
  }

  // ---- when the round trip fails ----

  function TextCount(lines: seq<string>): nat {
    if lines == [] then 0 else (if Classify(lines[0]).Text? then 1 else 0) + TextCount(lines[1..])
  }

  function ChunksTotal(cs: seq<Chunk>): nat {
    if cs == [] then 0 else |cs[0].lines| + ChunksTotal(cs[1..])
  }

  function Total(ps: seq<Patch>): nat {
    if ps == [] then 0 else ChunksTotal(ps[0].chunks) + Total(ps[1..])
  }

  lemma {:induction false} ChunksTotalUpdate(cs: seq<Chunk>, k: nat, c: Chunk)
    requires k < |cs|
    ensures ChunksTotal(cs[k := c]) + |cs[k].lines| == ChunksTotal(cs) + |c.lines|
    decreases |cs|
  {
    if k == 0 {
      assert cs[k := c][1..] == cs[1..];
    } else {
      assert cs[k := c][1..] == cs[1..][k - 1 := c];
      ChunksTotalUpdate(cs[1..], k - 1, c);
    }
  }

  lemma {:induction false} TotalUpdate(ps: seq<Patch>, i: nat, p: Patch)
    requires i < |ps|
    ensures Total(ps[i := p]) + ChunksTotal(ps[i].chunks) == Total(ps) + ChunksTotal(p.chunks)
    decreases |ps|
  {
    hide ChunksTotal;
    if i == 0 {
      assert ps[i := p][1..] == ps[1..];
    } else {
      assert ps[i := p][1..] == ps[1..][i - 1 := p];
      TotalUpdate(ps[1..], i - 1, p);
    }
  }

  lemma {:induction false} ChunksTotalAppend(cs: seq<Chunk>, c: Chunk)
    ensures ChunksTotal(cs + [c]) == ChunksTotal(cs) + |c.lines|
    decreases |cs|
  {
    if cs == [] {
      assert cs + [c] == [c] && [c][1..] == [];
    } else {
      assert (cs + [c])[1..] == cs[1..] + [c];
      ChunksTotalAppend(cs[1..], c);
    }
  }

  lemma {:induction false} TotalAppend(ps: seq<Patch>, p: Patch)
    ensures Total(ps + [p]) == Total(ps) + ChunksTotal(p.chunks)
    decreases |ps|
  {
    hide ChunksTotal;
    if ps == [] {
      assert ps + [p] == [p] && [p][1..] == [];
    } else {
      assert (ps + [p])[1..] == ps[1..] + [p];
      TotalAppend(ps[1..], p);
    }
  }

  lemma StepTotal(st: ParseState, line: string)
    requires ValidState(st) && Step(st, line).Some?
    ensures Total(Step(st, line).value.patches) == Total(st.patches) + if Classify(line).Text? then 1 else 0
  {
    hide Classify, Total, ChunksTotal;
    var last := |st.patches| - 1;
    match Classify(line)
    case SrcFile(name) =>
      TotalAppend(st.patches, Patch(name, "", []));
      EmptyTotal();
    case DstFile(name) => TotalUpdate(st.patches, last, st.patches[last].(dst := name));
    case ChunkStart(head) =>
      var p, c := st.patches[last], Chunk(head.srcPos, head.dstPos, []);
      ChunksTotalAppend(p.chunks, c);
      TotalUpdate(st.patches, last, p.(chunks := p.chunks + [c]));
    case Text(l) =>
      var (i, k) := st.current.value;
      var p := st.patches[i];
      TotalUpdate(st.patches, i, WithLine(p, k, l));
      ChunksTotalUpdate(p.chunks, k, p.chunks[k].(lines := p.chunks[k].lines + [l]));
    case Unknown =>
  }

  lemma EmptyTotal()
    ensures ChunksTotal([]) == 0
  {
  }

  /** The parser keeps exactly the lines it classifies as text. */
  lemma {:induction false} ParseTotal(st: ParseState, lines: seq<string>)
    requires ValidState(st) && ParseFrom(st, lines).Some?
    ensures Total(ParseFrom(st, lines).value.patches) == Total(st.patches) + TextCount(lines)
    decreases |lines|
  {
    hide Classify, Step, Total;
    if lines != [] {
      StepTotal(st, lines[0]);
      ParseTotal(Step(st, lines[0]).value, lines[1..]);
    }
  }

  lemma {:induction false} TextCountConcat(a: seq<string>, b: seq<string>)
    ensures TextCount(a + b) == TextCount(a) + TextCount(b)
    decreases |a|
  {
    hide Classify;
    if a == [] {
      assert a + b == b;
    } else {
      assert (a + b)[1..] == a[1..] + b;
      TextCountConcat(a[1..], b);
    }
  }

  lemma {:induction false} LinesCount(lines: seq<Line>)
    requires CleanLines(lines)
    ensures TextCount(PrintLines(lines)) <= |lines|
    ensures !PlainLines(lines) ==> TextCount(PrintLines(lines)) < |lines|
    decreases |lines|
  {
    hide Classify, PrintLine;
    if lines != [] {
      LinesCount(lines[1..]);
      ClassifyText(lines[0]);
      assert PrintLines(lines)[1..] == PrintLines(lines[1..]);
      assert PlainLines(lines[1..]) && !Disguised(lines[0]) ==> PlainLines(lines);
    }
  }

  lemma {:induction false} ChunksCount(cs: seq<Chunk>)
    requires CleanChunks(cs)
    ensures TextCount(PrintChunks(cs)) <= ChunksTotal(cs)
    ensures !PlainChunks(cs) ==> TextCount(PrintChunks(cs)) < ChunksTotal(cs)
    decreases |cs|
  {
    hide Classify, Header;
    if cs != [] {
      ChunksCount(cs[1..]);
      LinesCount(cs[0].lines);
      HeaderRoundTrip(cs[0]);
      TextCountConcat([Header(cs[0])], PrintLines(cs[0].lines));
      assert [Header(cs[0])][1..] == [];
      TextCountConcat(PrintChunk(cs[0]), PrintChunks(cs[1..]));
      assert PlainChunks(cs[1..]) && PlainLines(cs[0].lines) ==> PlainChunks(cs);
    }
  }

  lemma PatchCount(p: Patch)
    requires OneLine(p.src) && OneLine(p.dst) && CleanChunks(p.chunks)
    ensures TextCount(PrintPatch(p)) == TextCount(PrintChunks(p.chunks))
  {
    hide Classify, PrintChunks;
    var heads := ["--- " + p.src + "\n", "+++ " + p.dst + "\n"];
    ClassifySrcFile(p.src);
    ClassifyDstFile(p.dst);
    TextCountConcat(heads, PrintChunks(p.chunks));
    assert heads[1..] == [heads[1]] && heads[1..][1..] == [];
    assert TextCount(heads) == TextCount(heads[1..]) == TextCount(heads[1..][1..]) == 0;
  }

  lemma {:induction false} PatchesCount(ps: seq<Patch>)
    requires Clean(ps)
    ensures TextCount(Print(ps)) <= Total(ps)
    ensures !Plain(ps) ==> TextCount(Print(ps)) < Total(ps)
    decreases |ps|
  {
    hide TextCount, PrintPatch, PrintChunks, ChunksTotal;
    if ps == [] {
      var none: seq<string> := [];
      TextCountConcat(none, none);
      assert none + none == none;
    } else {
      PatchesCount(ps[1..]);
      PatchCount(ps[0]);
      ChunksCount(ps[0].chunks);
      TextCountConcat(PrintPatch(ps[0]), Print(ps[1..]));
      assert Plain(ps[1..]) && PlainChunks(ps[0].chunks) ==> Plain(ps);
    }
  }

  /** Printing and parsing give the patches back exactly when no removed text starts with "-- " and no added
      text starts with "++ ". */
  lemma RoundTripIff(ps: seq<Patch>)
    requires Clean(ps)
    ensures Parse(Print(ps)) == Some(ps) <==> Plain(ps)
  {
    hide Clean, Plain, Total, TextCount, Print, ParseFrom;
    if Plain(ps) {
      ReadPatches(NOTHING, ps);
      assert NOTHING.patches + ps == ps;
    }
    if Parse(Print(ps)) == Some(ps) {
      ParseTotal(NOTHING, Print(ps));
      PatchesCount(ps);
      EmptyPatchesTotal();
    }
  }

  lemma EmptyPatchesTotal()
    ensures Total([]) == 0
  {
  }

  // ---- everything the parser returns can be printed and read back ----

  lemma ClassifiedIsFit(line: string)
    ensures match Classify(line)
      case SrcFile(name) => OneLine(name)
      case DstFile(name) => OneLine(name)
      case Text(l) => OneLine(l.text) && !Disguised(l)
      case _ => true
  {
    hide ChunkHead, After, Tail;
    forall prefix | Captured(line, prefix).Some? ensures OneLine(Captured(line, prefix).value) {
      CapturedIsOneLine(line, prefix);
    }
    var c := Classify(line);
    if c.Text? && Disguised(c.line) {
      assert "--- " == "-" + "-- " && "+++ " == "+" + "++ ";
      if c.line.kind == Src {
        LongerPrefix(line, "-", "-- ");
      } else {
        LongerPrefix(line, "+", "++ ");
      }
    }
  }

  lemma CapturedIsOneLine(line: string, prefix: string)
    requires Captured(line, prefix).Some?
    ensures OneLine(Captured(line, prefix).value)
  {
    hide Tail;
    TailShape(line[|prefix|..]);
  }

  lemma TailShape(rest: string)
    requires Tail(rest).Some?
    ensures OneLine(Tail(rest).value) && (rest == Tail(rest).value || rest == Tail(rest).value + "\n")
  {
    if '\n' in rest {
      var n := |rest| - 1;
      assert rest == rest[..n] + [rest[n]];
      assert rest[n] == '\n';
    }
  }

  lemma TailOfRest(rest: string, more: string)
    requires Tail(rest).Some? && more <= Tail(rest).value
    ensures more <= rest && Tail(rest[|more|..]).Some?
  {
    hide Tail;
    var text := Tail(rest).value;
    TailShape(rest);
    var tail := text[|more|..];
    if rest == text {
      TailOfPlain(tail);
    } else {
      assert rest[|more|..] == tail + "\n";
      TailOfLine(tail);
    }
  }

  lemma TailOfPlain(s: string)
    requires OneLine(s)
    ensures Tail(s) == Some(s)
  {
  }

  lemma LongerPrefix(line: string, prefix: string, more: string)
    requires Captured(line, prefix).Some? && more <= Captured(line, prefix).value
    ensures Captured(line, prefix + more).Some?
  {
    hide Tail;
    var rest := line[|prefix|..];
    TailOfRest(rest, more);
    assert line == prefix + rest && rest == more + rest[|more|..];
    assert prefix + more <= line && line[|prefix + more|..] == rest[|more|..];
  }

  lemma StepFit(st: ParseState, line: string)
    requires ValidState(st) && Clean(st.patches) && Plain(st.patches) && Step(st, line).Some?
    ensures Clean(Step(st, line).value.patches) && Plain(Step(st, line).value.patches)
  {
    hide Classify, OneLine, Disguised;
    ClassifiedIsFit(line);
    EmptyIsOneLine();
  }

  lemma EmptyIsOneLine()
    ensures OneLine("")
  {
  }

  /** No newline and no disguised line in, none out. */
  lemma {:induction false} ParseFit(st: ParseState, lines: seq<string>)
    requires ValidState(st)
    ensures Clean(st.patches) && Plain(st.patches) && ParseFrom(st, lines).Some? ==>
      Clean(ParseFrom(st, lines).value.patches) && Plain(ParseFrom(st, lines).value.patches)
    decreases |lines|
  {
    hide Step, Clean, Plain;
    if lines != [] && Step(st, lines[0]).Some? && Clean(st.patches) && Plain(st.patches) {
      StepFit(st, lines[0]);
      ParseFit(Step(st, lines[0]).value, lines[1..]);
    }
  }

  /** Whatever the parser accepts, printing its result and parsing again gives the same result. */
  lemma ParsePrintParse(lines: seq<string>)
    requires Parse(lines).Some?
    ensures Parse(Print(Parse(lines).value)) == Parse(lines)
  {
    hide Print, ParseFrom;
    ParseFit(NOTHING, lines);
    RoundTripIff(Parse(lines).value);
  }

  /** Where the round trip fails: the removed text "-- a" comes back as the header of a second patch. */
  lemma DisguisedLineIsLost()
    ensures var ps := [Patch("a", "b", [Chunk(1, 1, [Line(Src, "-- a")])])];
      Clean(ps) && Parse(Print(ps)) != Some(ps)
  {
    var lines := [Line(Src, "-- a")];
    var ps := [Patch("a", "b", [Chunk(1, 1, lines)])];
    assert Disguised(lines[0]);
    assert ps[0].chunks[0].lines == lines;
    assert !Plain(ps);
    RoundTripIff(ps);
  }
}
