/** When a patchset still survives printing and parsing after the whitespace pass of utils/check-style.py. */
module PassRoundTrip {
  import opened PatchText
  import opened Whitespace

  // ---- what a pair reads, over the original lines ----

  /** Pair m, before pair n, has the source line of pair n as its destination line: a context line. */
  predicate Feeds(lines: seq<Line>, m: nat, n: nat)
    requires m < n < Pairs(lines)
  {
    DstSide(lines)[m] == SrcSide(lines)[n]
  }

  ghost predicate Fed(lines: seq<Line>, n: nat)
    requires n < Pairs(lines)
  {
    exists m: nat :: m < n && Feeds(lines, m, n)
  }

  ghost function Feeder(lines: seq<Line>, n: nat): (m: nat)
    requires n < Pairs(lines) && Fed(lines, n)
    ensures m < n && Feeds(lines, m, n)
  {
    var m: nat :| m < n && Feeds(lines, m, n);
    m
  }

  /** The text of the source line when pair n is reached: its own, or that of the source line of the earlier pair that
      lengthened it. */
  ghost function PartnerText(lines: seq<Line>, n: nat): string
    requires n < Pairs(lines)
  {
    var own := lines[SrcSide(lines)[n]].text;
    if !Fed(lines, n) then own
    else
      var longer := PartnerText(lines, Feeder(lines, n));
      if OneBlankMore(longer, own) then longer else own
  }

  lemma UnfedIsUntouched(lines: seq<Line>, n: nat)
    requires n < Pairs(lines) && !Fed(lines, n)
    ensures Fixed(lines, n)[SrcSide(lines)[n]] == lines[SrcSide(lines)[n]]
  {
    hide SrcSide, DstSide, Fixed;
    var s, dst := SrcSide(lines)[n], DstSide(lines);
    forall m: nat | m < n ensures dst[m] != s {
      assert !Feeds(lines, m, n);
    }
    FixedTouches(lines, n, s);
  }

  /** It is what the loop reads. */
  lemma {:induction false} PartnerTextIsRead(lines: seq<Line>, n: nat)
    requires n < Pairs(lines)
    ensures Fixed(lines, n)[SrcSide(lines)[n]].text == PartnerText(lines, n)
  {
    hide SrcSide, DstSide, Fixed, OneBlankMore, Fed;
    if Fed(lines, n) {
      var m := Feeder(lines, n);
      PartnerTextIsRead(lines, m);
      PairLeaves(lines, m, n);
    } else {
      UnfedIsUntouched(lines, n);
    }
  }

  /** Without a context hit it is the original text. */
  lemma PartnerTextIsOriginal(lines: seq<Line>, n: nat)
    requires n < Pairs(lines) && !ContextHit(lines)
    ensures PartnerText(lines, n) == lines[SrcSide(lines)[n]].text
  {
    hide SrcSide, DstSide, Fixed, Hits;
    assert forall i: nat :: i < n ==> !Hits(lines, i);
    SourceKept(lines, n);
    PartnerTextIsRead(lines, n);
  }

  /** Every destination line of a pair ends as the text its pair read, if that is one blank longer, or as it was. */
  lemma EditedEqualsRead(lines: seq<Line>, n: nat)
    requires n < Pairs(lines)
    ensures
      var text, d, d' := PartnerText(lines, n), lines[DstSide(lines)[n]], FixLines(lines)[DstSide(lines)[n]];
      d' == if text == d.text + " " || text == d.text + "\t" then d.(text := text) else d
  {
    PartnerTextIsRead(lines, n);
    PairLeaves(lines, n, Pairs(lines));
  }

  // ---- one chunk ----

  /** Pair n lengthens the added text "++" by a space. */
  ghost predicate Spoils(lines: seq<Line>, n: nat)
    requires n < Pairs(lines)
  {
    lines[DstSide(lines)[n]] == Line(Dst, "++") && PartnerText(lines, n) == "++ "
  }

  ghost predicate Spoiled(lines: seq<Line>) {
    exists n: nat :: n < Pairs(lines) && Spoils(lines, n)
  }

  /** A pair reads "++ " when that is the source line's own text and no earlier pair lengthened it, or when the source
      line is the context line "++" and an earlier pair, itself reading "++ ", had it as its destination line. */
  lemma ReadsSpacedIff(lines: seq<Line>, n: nat)
    requires n < Pairs(lines)
    ensures
      var own := lines[SrcSide(lines)[n]].text;
      PartnerText(lines, n) == "++ " <==>
        || (own == "++ " && (Fed(lines, n) ==> !OneBlankMore(PartnerText(lines, Feeder(lines, n)), own)))
        || (own == "++" && Fed(lines, n) && PartnerText(lines, Feeder(lines, n)) == "++ ")
  {
    hide SrcSide, DstSide, Fed;
    assert OneBlankMore("++ ", "++");
    if Fed(lines, n) && OneBlankMore(PartnerText(lines, Feeder(lines, n)), lines[SrcSide(lines)[n]].text) {
      assert "++ "[..2] == "++";
    }
  }

  /** The one text that a blank turns into a file header. */
  lemma BlankDisguises(l: Line, text: string)
    requires !Disguised(l) && l.kind != Src && OneBlankMore(text, l.text)
    ensures Disguised(l.(text := text)) <==> l == Line(Dst, "++") && text == "++ "
  {
    if l.kind == Dst && "++ " <= text {
      assert l.text == text[..|text| - 1];
      assert |text| == 3;
      assert l.text == text[..2] == "++ "[..2] == "++";
    }
  }

  /** Line k of the chunk is turned into a file header exactly by a pair that spoils it. */
  lemma LineSpoiledIff(lines: seq<Line>, k: nat)
    requires PlainLines(lines) && k < |lines|
    ensures Disguised(FixLines(lines)[k]) <==> exists n: nat :: n < Pairs(lines) && DstSide(lines)[n] == k && Spoils(lines, n)
  {
    hide SrcSide, DstSide, Disguised, Fixed, PartnerText, OneBlankMore;
    FixedTouches(lines, Pairs(lines), k);
    if n: nat :| n < Pairs(lines) && DstSide(lines)[n] == k {
      EditedEqualsRead(lines, n);
      var text := PartnerText(lines, n);
      if OneBlankMore(text, lines[k].text) {
        BlankDisguises(lines[k], text);
      }
    } else {
      assert k !in DstSide(lines)[..Pairs(lines)];
    }
  }

  /** The pass keeps a chunk without disguised lines free of them exactly when no pair spoils one. */
  lemma ChunkStaysPlainIff(lines: seq<Line>)
    requires PlainLines(lines)
    ensures PlainLines(FixLines(lines)) <==> !Spoiled(lines)
  {
    hide SrcSide, DstSide, Disguised, Spoils, FixLines;
    forall k: nat | k < |lines| ensures Disguised(FixLines(lines)[k]) <==> exists n: nat :: n < Pairs(lines) && DstSide(lines)[n] == k && Spoils(lines, n) {
      LineSpoiledIff(lines, k);
    }
    if Spoiled(lines) {
      var n: nat :| n < Pairs(lines) && Spoils(lines, n);
      assert Disguised(FixLines(lines)[DstSide(lines)[n]]);
    }
  }

  // ---- a patchset ----

  /** A chunk that the pass reaches has a pair that spoils a line. */
  ghost predicate SpoiledAt(ps: seq<Patch>, i: nat, k: nat)
    requires i < |ps| && k < |ps[i].chunks|
  {
    !ShortBefore(ps, i, k) && Spoiled(ps[i].chunks[k].lines)
  }

  ghost predicate AnySpoiled(ps: seq<Patch>) {
    exists i: nat, k: nat :: i < |ps| && k < |ps[i].chunks| && SpoiledAt(ps, i, k)
  }

  lemma ChunkAfter(ps: seq<Patch>, i: nat, k: nat)
    requires Clean(ps) && Plain(ps) && i < |ps| && k < |ps[i].chunks|
    ensures var qs := PassOver(ps);
      && |qs| == |ps| && qs[i].src == ps[i].src && qs[i].dst == ps[i].dst && |qs[i].chunks| == |ps[i].chunks|
      && CleanLines(qs[i].chunks[k].lines)
      && (PlainLines(qs[i].chunks[k].lines) <==> !SpoiledAt(ps, i, k))
  {
    hide PassOver, FixLines, Spoiled, Disguised, ShortBefore;
    ShapeKept(ps, i, k);
    var lines, lines' := ps[i].chunks[k].lines, PassOver(ps)[i].chunks[k].lines;
    assert CleanLines(lines) && PlainLines(lines) by {
      assert CleanChunks(ps[i].chunks) && PlainChunks(ps[i].chunks);
    }
    forall j | 0 <= j < |lines'| ensures OneLine(lines'[j].text) {
      assert Touched(lines[j], lines'[j]);
    }
    ChunkStaysPlainIff(lines);
  }

  lemma PassSizes(ps: seq<Patch>)
    ensures var qs := PassOver(ps);
      |qs| == |ps| && forall i :: 0 <= i < |ps| ==>
        qs[i].src == ps[i].src && qs[i].dst == ps[i].dst && |qs[i].chunks| == |ps[i].chunks|
  {
  }

  lemma PassStaysFit(ps: seq<Patch>)
    requires Clean(ps) && Plain(ps)
    ensures Clean(PassOver(ps))
    ensures Plain(PassOver(ps)) <==> !AnySpoiled(ps)
  {
    hide PassOver, SpoiledAt, CleanLines, PlainLines;
    PassSizes(ps);
    var qs := PassOver(ps);
    forall i: nat, k: nat | i < |ps| && k < |ps[i].chunks|
      ensures CleanLines(qs[i].chunks[k].lines) && (PlainLines(qs[i].chunks[k].lines) <==> !SpoiledAt(ps, i, k))
    {
      ChunkAfter(ps, i, k);
    }
    if AnySpoiled(ps) {
      var i: nat, k: nat :| i < |ps| && k < |ps[i].chunks| && SpoiledAt(ps, i, k);
      assert !PlainLines(qs[i].chunks[k].lines);
      assert !PlainChunks(qs[i].chunks);
    }
  }

  /** After the pass, printing and parsing give the same patches if and only if no chunk the pass reaches has a pair
      that lengthens the added text "++" to "++ ". */
  lemma PassRoundTripIff(ps: seq<Patch>)
    requires Clean(ps) && Plain(ps)
    ensures Parse(Print(PassOver(ps))) == Some(PassOver(ps)) <==> !AnySpoiled(ps)
  {
    hide *;
    PassStaysFit(ps);
    RoundTripIff(PassOver(ps));
  }

  /** The same for whatever the parser accepts. */
  lemma FilterRoundTripIff(input: seq<string>)
    requires Parse(input).Some?
    ensures var ps := Parse(input).value;
      Parse(Print(PassOver(ps))) == Some(PassOver(ps)) <==> !AnySpoiled(ps)
  {
    hide PassOver, AnySpoiled, ParseFrom, Print;
    ParseFit(NOTHING, input);
    PassRoundTripIff(Parse(input).value);
  }

  // ---- a patch that the pass loses ----

  /** The removed text "++ " next to the added text "++" is accepted, but what the pass makes of it does not come back. */
  lemma PassLosesPatch()
    ensures
      var input := ["--- a\n", "+++ b\n", "@@ -1,1 +1,1 @@\n", "-++ \n", "+++\n"];
      Parse(input).Some? && var ps := Parse(input).value; Parse(Print(PassOver(ps))) != Some(PassOver(ps))
  {
    hide PassOver, ParseFrom, Print, Parse;
    var input := ["--- a\n", "+++ b\n", "@@ -1,1 +1,1 @@\n", "-++ \n", "+++\n"];
    var lines := [Line(Src, "++ "), Line(Dst, "++")];
    var ps := [Patch("a", "b", [Chunk(1, 1, lines)])];
    ExampleIsFit(ps, lines);
    ExamplePrinted(ps, lines, input);
    RoundTripIff(ps);
    ExampleSpoils(lines);
    assert SpoiledAt(ps, 0, 0);
    PassRoundTripIff(ps);
  }

  lemma ExampleIsFit(ps: seq<Patch>, lines: seq<Line>)
    requires lines == [Line(Src, "++ "), Line(Dst, "++")] && ps == [Patch("a", "b", [Chunk(1, 1, lines)])]
    ensures Clean(ps) && Plain(ps)
  {
    assert "-- "[0] != "++ "[0] && |"++ "| > |"++"|;
    assert !Disguised(lines[0]) && !Disguised(lines[1]);
    assert PlainLines(lines) && CleanLines(lines);
    assert PlainChunks(ps[0].chunks) && CleanChunks(ps[0].chunks);
  }

  lemma ExamplePrinted(ps: seq<Patch>, lines: seq<Line>, input: seq<string>)
    requires lines == [Line(Src, "++ "), Line(Dst, "++")] && ps == [Patch("a", "b", [Chunk(1, 1, lines)])]
    requires input == ["--- a\n", "+++ b\n", "@@ -1,1 +1,1 @@\n", "-++ \n", "+++\n"]
    ensures Print(ps) == input
  {
    assert lines[..1] == [lines[0]] && lines[..1][..0] == [];
    assert SrcLen([]) == 0 && DstLen([]) == 0;
    assert SrcLen(lines[..1]) == 1 && DstLen(lines[..1]) == 0;
    assert Decimal(1) == "1";
    assert Header(ps[0].chunks[0]) == input[2];
    assert PrintLine(lines[0]) == input[3] && PrintLine(lines[1]) == input[4];
    assert PrintLines([]) == [] && lines[1..] == [lines[1]] && lines[1..][1..] == [];
    assert PrintLines(lines[1..]) == [input[4]];
    assert PrintLines(lines) == [input[3], input[4]];
    assert ps[0].chunks[1..] == [] && ps[1..] == [] && PrintChunks([]) == [] && Print([]) == [];
    assert PrintChunks(ps[0].chunks) == [input[2], input[3], input[4]];
    assert "--- " + "a" + "\n" == input[0] && "+++ " + "b" + "\n" == input[1];
  }

  lemma ExampleSpoils(lines: seq<Line>)
    requires lines == [Line(Src, "++ "), Line(Dst, "++")]
    ensures Spoiled(lines)
  {
    assert Side(lines, 1, OnSrc) == [0] && Side(lines, 1, OnDst) == [];
    assert SrcSide(lines) == [0] && DstSide(lines) == [1];
    assert !Fed(lines, 0);
    assert Spoils(lines, 0);
  }
}
