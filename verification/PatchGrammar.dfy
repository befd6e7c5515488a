/** What the parser of utils/check-style.py accepts and keeps, said without its functions: numbers by place value, line
    patterns by concatenation, chunks by the headers between their lines. */
module PatchGrammar {
  import opened PatchText

  // ---- numbers ----

  function Pow10(n: nat): nat {
    if n == 0 then 1 else 10 * Pow10(n - 1)
  }

  lemma DigitValue(d: nat)
    requires d < 10
    ensures Digit(d) == "0123456789"[d] && ValueOf([Digit(d)]) == d
  {
    assert [Digit(d)][..0] == [];
  }

  /** A digit string counts ten times as much for each digit that follows it. */
  lemma {:induction false} ValueOfConcat(a: string, b: string)
    requires AllDigits(a) && AllDigits(b)
    ensures AllDigits(a + b) && ValueOf(a + b) == ValueOf(a) * Pow10(|b|) + ValueOf(b)
    decreases |b|
  {
    hide ValueOf;
    if b == [] {
      EmptyValue();
      assert a + b == a;
    } else {
      var n := |b| - 1;
      ValueOfConcat(a, b[..n]);
      assert (a + b)[..|a| + n] == a + b[..n] && (a + b)[|a| + n] == b[n];
      ValueOfLast(a + b);
      ValueOfLast(b);
    }
  }

  lemma EmptyValue()
    ensures ValueOf([]) == 0
  {
  }

  lemma ValueOfLast(s: string)
    requires s != [] && AllDigits(s)
    ensures ValueOf(s) == ValueOf(s[..|s| - 1]) * 10 + (s[|s| - 1] as int - '0' as int)
  {
  }

  lemma {:induction false} Pow10Mono(a: nat, b: nat)
    requires a < b
    ensures 0 < Pow10(a) && 10 * Pow10(a) <= Pow10(b)
  {
    if a < b - 1 {
      Pow10Mono(a, b - 1);
    } else if a > 0 {
      Pow10Mono(a - 1, a);
    }
  }

  lemma {:induction false} DecimalBounds(n: nat)
    ensures Decimal(n) != [] && AllDigits(Decimal(n)) && n < Pow10(|Decimal(n)|)
    ensures n > 0 ==> Pow10(|Decimal(n)| - 1) <= n && Decimal(n)[0] != '0'
  {
    if n >= 10 {
      DecimalBounds(n / 10);
    }
  }

  /** The written form has no leading zero and k digits exactly when 10^(k-1) <= n < 10^k. */
  lemma DecimalShape(n: nat, k: nat)
    requires k >= 1
    ensures Decimal(0) == "0" && (n > 0 ==> Decimal(n) != [] && Decimal(n)[0] != '0')
    ensures n > 0 ==> (|Decimal(n)| == k <==> Pow10(k - 1) <= n < Pow10(k))
  {
    DecimalBounds(n);
    var d := |Decimal(n)|;
    if k < d {
      assert k == d - 1 || Pow10(k) <= Pow10(d - 1) by {
        if k < d - 1 {
          Pow10Mono(k, d - 1);
        }
      }
    } else if d < k && d < k - 1 {
      Pow10Mono(d, k - 1);
    }
  }

  /** A digit string without a leading zero is the written form of its value. */
  lemma {:induction false} DecimalUnique(s: string)
    requires s != [] && AllDigits(s) && (|s| > 1 ==> s[0] != '0')
    ensures Decimal(ValueOf(s)) == s
    ensures |s| > 1 || s != "0" ==> ValueOf(s) > 0
  {
    var n := |s| - 1;
    ValueOfLast(s);
    if n == 0 {
      assert s[..n] == [] && s == [s[0]];
    } else {
      hide ValueOf;
      DecimalUnique(s[..n]);
      assert s == s[..n] + [s[n]] && s[..n][0] == s[0];
      LastDigit(ValueOf(s[..n]), s[n] as int - '0' as int);
    }
  }

  lemma LastDigit(v: nat, d: nat)
    requires v > 0 && d < 10
    ensures Decimal(v * 10 + d) == Decimal(v) + [Digit(d)]
  {
    assert (v * 10 + d) / 10 == v && (v * 10 + d) % 10 == d;
  }

  // ---- line patterns ----

  /** The line is the prefix and then the text, with or without a newline. */
  predicate Reads(line: string, prefix: string, text: string) {
    OneLine(text) && (line == prefix + text || line == prefix + text + "\n")
  }

  lemma CapturedIff(line: string, prefix: string, text: string)
    ensures Captured(line, prefix) == Some(text) <==> Reads(line, prefix, text)
  {
    if Captured(line, prefix) == Some(text) {
      CapturedIsOneLine(line, prefix);
      var rest := line[|prefix|..];
      assert line == prefix + rest;
      TailShape(rest);
      assert prefix + (text + "\n") == prefix + text + "\n";
    }
    if Reads(line, prefix, text) {
      if line == prefix + text {
        assert line[..|prefix|] == prefix && line[|prefix|..] == text;
        TailOfPlain(text);
      } else {
        CapturedLine(prefix, text);
      }
    }
  }

  /** The four numbers of a header, as digit strings, and whatever follows it. */
  predicate IsHeader(line: string, h: Head, a: string, b: string, c: string, d: string, rest: string) {
    && a != "" && b != "" && c != "" && d != "" && AllDigits(a) && AllDigits(b) && AllDigits(c) && AllDigits(d)
    && line == "@@ -" + (a + ("," + (b + (" +" + (c + ("," + (d + (" @@" + rest))))))))
    && h == Head(ValueOf(a), ValueOf(b), ValueOf(c), ValueOf(d))
  }

  ghost predicate HeaderLine(line: string, h: Head) {
    exists a, b, c, d, rest :: IsHeader(line, h, a, b, c, d, rest)
  }

  lemma AfterIff(s: string, literal: string, rest: string)
    ensures After(s, literal) == Some(rest) <==> s == literal + rest
  {
    if literal <= s {
      assert s == literal + s[|literal|..];
    }
    if s == literal + rest {
      assert s[..|literal|] == literal && s[|literal|..] == rest;
    }
  }

  lemma NumberOfDigits(a: string, rest: string)
    requires a != "" && AllDigits(a) && rest != "" && !IsDigit(rest[0])
    ensures Number(a + rest) == Some((ValueOf(a), rest))
  {
    DigitCountAppend(a, rest);
    assert (a + rest)[..|a|] == a && (a + rest)[|a|..] == rest;
  }

  lemma NumberParts(s: string) returns (a: string)
    requires Number(s).Some?
    ensures a != "" && AllDigits(a) && s == a + Number(s).value.1 && Number(s).value.0 == ValueOf(a)
  {
    a := s[..DigitCount(s)];
    assert s == a + s[DigitCount(s)..];
  }

  /** A line starts a chunk exactly when it is such a header, and the four numbers are the values of its digit strings. */
  lemma HeaderIff(line: string, h: Head)
    ensures ChunkHead(line) == Some(h) <==> HeaderLine(line, h)
  {
    hide Number, After, ValueOf, AllDigits;
    if ChunkHead(line) == Some(h) {
      var r0 := After(line, "@@ -").value;
      var r1 := Number(r0).value.1;
      var r2 := After(r1, ",").value;
      var r3 := Number(r2).value.1;
      var r4 := After(r3, " +").value;
      var r5 := Number(r4).value.1;
      var r6 := After(r5, ",").value;
      var r7 := Number(r6).value.1;
      var rest := After(r7, " @@").value;
      AfterIff(line, "@@ -", r0);
      AfterIff(r1, ",", r2);
      AfterIff(r3, " +", r4);
      AfterIff(r5, ",", r6);
      AfterIff(r7, " @@", rest);
      var a := NumberParts(r0);
      var b := NumberParts(r2);
      var c := NumberParts(r4);
      var d := NumberParts(r6);
      assert IsHeader(line, h, a, b, c, d, rest);
    }
    if HeaderLine(line, h) {
      var a, b, c, d, rest :| IsHeader(line, h, a, b, c, d, rest);
      var r7 := " @@" + rest;
      var r6 := d + r7;
      var r5 := "," + r6;
      var r4 := c + r5;
      var r3 := " +" + r4;
      var r2 := b + r3;
      var r1 := "," + r2;
      var r0 := a + r1;
      AfterLiteral("@@ -", r0);
      NumberOfDigits(a, r1);
      AfterLiteral(",", r2);
      NumberOfDigits(b, r3);
      AfterLiteral(" +", r4);
      NumberOfDigits(c, r5);
      AfterLiteral(",", r6);
      NumberOfDigits(d, r7);
      AfterLiteral(" @@", rest);
    }
  }

  /** What each line is, by its characters alone. */
  lemma ClassifyIff(line: string, text: string, h: Head)
    ensures Classify(line) == SrcFile(text) <==> Reads(line, "--- ", text)
    ensures Classify(line) == DstFile(text) <==> Reads(line, "+++ ", text)
    ensures Classify(line) == ChunkStart(h) <==> HeaderLine(line, h)
    ensures Classify(line) == Text(Line(Src, text)) <==> Reads(line, "-", text) && !("-- " <= text)
    ensures Classify(line) == Text(Line(Dst, text)) <==> Reads(line, "+", text) && !("++ " <= text)
    ensures Classify(line) == Text(Line(Both, text)) <==> Reads(line, " ", text)
  {
    hide Reads, HeaderLine, ChunkHead, Captured;
    CapturedIff(line, "--- ", text);
    CapturedIff(line, "+++ ", text);
    CapturedIff(line, "-", text);
    CapturedIff(line, "+", text);
    CapturedIff(line, " ", text);
    HeaderIff(line, h);
    FirstCharacter(line);
    LongerPattern(line, "-", "-- ", text);
    LongerPattern(line, "+", "++ ", text);
    assert "-" + "-- " == "--- " && "+" + "++ " == "+++ ";
  }

  /** A pattern that matches shows in the first character, so no two of different marks match. */
  lemma FirstCharacter(line: string)
    ensures Captured(line, "--- ").Some? || Captured(line, "-").Some? ==> line != "" && line[0] == '-'
    ensures Captured(line, "+++ ").Some? || Captured(line, "+").Some? ==> line != "" && line[0] == '+'
    ensures Captured(line, " ").Some? ==> line != "" && line[0] == ' '
    ensures ChunkHead(line).Some? ==> line != "" && line[0] == '@'
  {
  }

  /** The longer pattern matches exactly when the text behind the mark goes on with the rest of it. */
  lemma LongerPattern(line: string, mark: string, more: string, text: string)
    requires OneLine(more)
    ensures Captured(line, mark) == Some(text) ==> (Captured(line, mark + more).Some? <==> more <= text)
    ensures Captured(line, mark + more).Some? ==> Captured(line, mark).Some?
  {
    if Captured(line, mark) == Some(text) && more <= text {
      LongerPrefix(line, mark, more);
    }
    if Captured(line, mark + more).Some? {
      var rest := Captured(line, mark + more).value;
      CapturedIff(line, mark + more, rest);
      assert mark + more + rest == mark + (more + rest);
      CapturedIff(line, mark, more + rest);
    }
  }

  // ---- what is accepted, and where the lines go ----

  ghost predicate SourceBefore(lines: seq<string>, n: nat)
    requires n <= |lines|
  {
    exists m :: 0 <= m < n && Classify(lines[m]).SrcFile?
  }

  ghost predicate HeaderBefore(lines: seq<string>, n: nat)
    requires n <= |lines|
  {
    exists m :: 0 <= m < n && Classify(lines[m]).ChunkStart?
  }

  /** Line n is of a known kind, and has what it needs before it. */
  ghost predicate InPlace(lines: seq<string>, n: nat)
    requires n < |lines|
  {
    match Classify(lines[n])
    case SrcFile(_) => true
    case DstFile(_) => SourceBefore(lines, n)
    case ChunkStart(_) => SourceBefore(lines, n)
    case Text(_) => HeaderBefore(lines, n)
    case Unknown => false
  }

  /** The chunks: one for each header, with the text lines between it and the next, wherever else lines come between. */
  function Grouped(lines: seq<string>): seq<Chunk> {
    if lines == [] then []
    else
      var before := Grouped(lines[..|lines| - 1]);
      match Classify(lines[|lines| - 1])
      case ChunkStart(h) => before + [Chunk(h.srcPos, h.dstPos, [])]
      case Text(l) =>
        if before == [] then before
        else before[|before| - 1 := before[|before| - 1].(lines := before[|before| - 1].lines + [l])]
      case _ => before
  }

  function SourceNames(lines: seq<string>): seq<string> {
    if lines == [] then []
    else
      SourceNames(lines[..|lines| - 1])
      + match Classify(lines[|lines| - 1]) { case SrcFile(name) => [name] case _ => [] }
  }

  function AllChunks(ps: seq<Patch>): seq<Chunk> {
    if ps == [] then [] else AllChunks(ps[..|ps| - 1]) + ps[|ps| - 1].chunks
  }

  predicate Named(ps: seq<Patch>, names: seq<string>) {
    |names| == |ps| && forall i :: 0 <= i < |ps| ==> ps[i].src == names[i]
  }

  /** The chunk in hand is the last of all: the last of its patch, and later patches have none. */
  predicate LastInHand(st: ParseState) {
    match st.current
    case None => forall i :: 0 <= i < |st.patches| ==> st.patches[i].chunks == []
    case Some((i, k)) =>
      && i < |st.patches| && k + 1 == |st.patches[i].chunks|
      && forall j :: i < j < |st.patches| ==> st.patches[j].chunks == []
  }

  lemma {:induction false} AllChunksUpTo(ps: seq<Patch>, i: nat)
    requires i < |ps| && forall j :: i < j < |ps| ==> ps[j].chunks == []
    ensures AllChunks(ps) == AllChunks(ps[..i]) + ps[i].chunks
    decreases |ps|
  {
    var n := |ps| - 1;
    if i < n {
      AllChunksUpTo(ps[..n], i);
      assert ps[..n][..i] == ps[..i];
    }
  }

  lemma {:induction false} NoChunks(ps: seq<Patch>)
    requires forall i :: 0 <= i < |ps| ==> ps[i].chunks == []
    ensures AllChunks(ps) == []
  {
    if ps != [] {
      NoChunks(ps[..|ps| - 1]);
    }
  }

  /** A text line goes to the end of the last chunk of all. */
  lemma TextGoesLast(st: ParseState, l: Line)
    requires ValidState(st) && LastInHand(st) && st.current.Some?
    ensures
      var (i, k) := st.current.value;
      var all, all' := AllChunks(st.patches), AllChunks(st.patches[i := WithLine(st.patches[i], k, l)]);
      all != [] && all' == all[|all| - 1 := all[|all| - 1].(lines := all[|all| - 1].lines + [l])]
  {
    hide AllChunks;
    var (i, k) := st.current.value;
    var ps, ps' := st.patches, st.patches[i := WithLine(st.patches[i], k, l)];
    AllChunksUpTo(ps, i);
    AllChunksUpTo(ps', i);
    assert ps'[..i] == ps[..i];
  }

  lemma HeaderGoesLast(ps: seq<Patch>, p: Patch)
    requires ps != [] && ps[|ps| - 1].chunks <= p.chunks
    ensures AllChunks(ps[|ps| - 1 := p]) == AllChunks(ps) + p.chunks[|ps[|ps| - 1].chunks|..]
  {
    var n := |ps| - 1;
    assert ps[n := p][..n] == ps[..n];
    assert p.chunks == ps[n].chunks + p.chunks[|ps[n].chunks|..];
  }

  /** One line: when it is taken, and what it adds to the chunks and to the file names. */
  lemma StepAdds(st: ParseState, line: string)
    requires ValidState(st) && LastInHand(st)
    ensures Step(st, line).Some? <==> match Classify(line)
      case SrcFile(_) => true
      case DstFile(_) => st.patches != []
      case ChunkStart(_) => st.patches != []
      case Text(_) => st.current.Some?
      case Unknown => false
    ensures Step(st, line).Some? ==>
      var st', all := Step(st, line).value, AllChunks(st.patches);
      && LastInHand(st')
      && (st'.patches != [] <==> st.patches != [] || Classify(line).SrcFile?)
      && (st'.current.Some? <==> st.current.Some? || Classify(line).ChunkStart?)
      && match Classify(line)
         case ChunkStart(h) => AllChunks(st'.patches) == all + [Chunk(h.srcPos, h.dstPos, [])]
         case Text(l) => all != [] && AllChunks(st'.patches) == all[|all| - 1 := all[|all| - 1].(lines := all[|all| - 1].lines + [l])]
         case _ => AllChunks(st'.patches) == all
  {
    hide Classify, AllChunks;
    var ps, n := st.patches, |st.patches| - 1;
    match Classify(line)
    case SrcFile(name) => AddsNoChunk(ps, Patch(name, "", []));
    case DstFile(name) => if ps != [] { HeaderGoesLast(ps, ps[n].(dst := name)); }
    case ChunkStart(h) => if ps != [] { HeaderGoesLast(ps, ps[n].(chunks := ps[n].chunks + [Chunk(h.srcPos, h.dstPos, [])])); }
    case Text(l) => if st.current.Some? { TextGoesLast(st, l); }
    case Unknown =>
  }

  lemma AddsNoChunk(ps: seq<Patch>, p: Patch)
    requires p.chunks == []
    ensures AllChunks(ps + [p]) == AllChunks(ps)
  {
    assert (ps + [p])[..|ps|] == ps;
  }

  lemma StepNames(st: ParseState, line: string, names: seq<string>)
    requires ValidState(st) && Named(st.patches, names) && Step(st, line).Some?
    ensures Named(Step(st, line).value.patches, names + match Classify(line) { case SrcFile(name) => [name] case _ => [] })
  {
    hide Classify;
  }

  /** What the parser has after n lines. */
  ghost predicate Reached(lines: seq<string>, n: nat, st: ParseState)
    requires n <= |lines|
  {
    && ValidState(st) && LastInHand(st)
    && (st.patches != [] <==> SourceBefore(lines, n)) && (st.current.Some? <==> HeaderBefore(lines, n))
    && AllChunks(st.patches) == Grouped(lines[..n]) && Named(st.patches, SourceNames(lines[..n]))
  }

  lemma GroupedStep(lines: seq<string>, n: nat)
    requires n < |lines|
    ensures
      var before, line := Grouped(lines[..n]), lines[n];
      Grouped(lines[..n + 1]) == match Classify(line)
        case ChunkStart(h) => before + [Chunk(h.srcPos, h.dstPos, [])]
        case Text(l) => if before == [] then before else before[|before| - 1 := before[|before| - 1].(lines := before[|before| - 1].lines + [l])]
        case _ => before
    ensures SourceNames(lines[..n + 1]) == SourceNames(lines[..n]) + match Classify(lines[n]) { case SrcFile(name) => [name] case _ => [] }
    ensures SourceBefore(lines, n + 1) <==> SourceBefore(lines, n) || Classify(lines[n]).SrcFile?
    ensures HeaderBefore(lines, n + 1) <==> HeaderBefore(lines, n) || Classify(lines[n]).ChunkStart?
  {
    hide Classify;
    assert lines[..n + 1][..n] == lines[..n];
  }

  lemma ReachedStep(lines: seq<string>, n: nat, st: ParseState)
    requires n < |lines| && Reached(lines, n, st)
    ensures Step(st, lines[n]).Some? <==> InPlace(lines, n)
    ensures Step(st, lines[n]).Some? ==> Reached(lines, n + 1, Step(st, lines[n]).value)
  {
    hide Classify, Step, AllChunks, Grouped, SourceNames, Named, SourceBefore, HeaderBefore, LastInHand, ValidState;
    GroupedStep(lines, n);
    StepAdds(st, lines[n]);
    if Step(st, lines[n]).Some? {
      StepNames(st, lines[n], SourceNames(lines[..n]));
    }
  }

  lemma NothingReached(lines: seq<string>)
    ensures Reached(lines, 0, NOTHING)
  {
  }

  lemma {:induction false} ParsePrefix(lines: seq<string>, n: nat)
    requires n <= |lines|
    ensures ParseFrom(NOTHING, lines[..n]).Some? <==> forall m: nat :: m < n ==> InPlace(lines, m)
    ensures ParseFrom(NOTHING, lines[..n]).Some? ==> Reached(lines, n, ParseFrom(NOTHING, lines[..n]).value)
  {
    hide Reached, InPlace, Step;
    if n == 0 {
      NothingReached(lines);
    } else {
      hide ParseFrom;
      ParsePrefix(lines, n - 1);
      var line := lines[n - 1];
      assert lines[..n] == lines[..n - 1] + [line];
      ParseConcat(NOTHING, lines[..n - 1], [line]);
      var r := ParseFrom(NOTHING, lines[..n - 1]);
      if r.Some? {
        ParseOne(r.value, line);
        ReachedStep(lines, n - 1, r.value);
      }
    }
  }

  /** A patchset is accepted exactly when every line is of a known kind, a destination name or a header has a source name
      somewhere before it, and a text line has a header somewhere before it. */
  lemma AcceptedIff(lines: seq<string>)
    ensures Parse(lines).Some? <==> forall n: nat :: n < |lines| ==> InPlace(lines, n)
  {
    hide ParseFrom, InPlace;
    ParsePrefix(lines, |lines|);
    assert lines[..|lines|] == lines;
  }

  /** The chunks of an accepted patchset, patch after patch, are the headers with the text lines that follow each, and
      there is one patch for each source name. */
  lemma ParsedChunks(lines: seq<string>)
    requires Parse(lines).Some?
    ensures AllChunks(Parse(lines).value) == Grouped(lines) && Named(Parse(lines).value, SourceNames(lines))
  {
    hide ParseFrom, InPlace, AllChunks, Grouped, SourceNames, Named;
    ParsePrefix(lines, |lines|);
    assert lines[..|lines|] == lines;
  }
}
