/** Undoing changes of trailing blanks: remove_trailing_whitespace_changes in utils/check-style.py.
    A context line is the same object on both sides, so what is appended to it changes the source side too. */
module Whitespace {
  import opened PatchText
  import opened PatchObjects

  /** The text is the other one and then one blank or tab. */
  predicate OneBlankMore(longer: string, shorter: string) {
    longer == shorter + " " || longer == shorter + "\t"
  }

  /** `^(.*)([ \t]+)$` on a text without a newline. The first group is greedy, so the second is one character. */
  function TrailingBlank(s: string): Option<(string, string)> {
    if s != "" && (s[|s| - 1] == ' ' || s[|s| - 1] == '\t') then Some((s[..|s| - 1], s[|s| - 1..])) else None
  }

  /** What the pass tests of two texts: the pattern matches the first, and its first group is the second text. */
  lemma MatchIff(longer: string, shorter: string)
    ensures TrailingBlank(longer).Some? && TrailingBlank(longer).value.0 == shorter <==>
      longer == shorter + " " || longer == shorter + "\t"
    ensures TrailingBlank(longer).Some? ==>
      longer == TrailingBlank(longer).value.0 + TrailingBlank(longer).value.1 && TrailingBlank(longer).value.1 in {" ", "\t"}
  {
    if TrailingBlank(longer).Some? {
      assert longer == longer[..|longer| - 1] + longer[|longer| - 1..];
      assert longer[|longer| - 1..] == [longer[|longer| - 1]];
    }
  }

  /** How many pairs are looked at before a missing destination line ends everything. */
  function Pairs(lines: seq<Line>): nat {
    if |SrcSide(lines)| <= |DstSide(lines)| then |SrcSide(lines)| else |DstSide(lines)|
  }

  /** The chunk runs out of destination lines, which ends the whole pass. */
  predicate Short(lines: seq<Line>) {
    |DstSide(lines)| < |SrcSide(lines)|
  }

  function Append(lines: seq<Line>, d: nat, c: char): seq<Line>
    requires d < |lines|
  {
    lines[d := lines[d].(text := lines[d].text + [c])]
  }

  /** The chunk's lines after the first n pairs; src and dst are the two sides taken before the first. */
  function Fixed(lines: seq<Line>, n: nat): (r: seq<Line>)
    requires n <= Pairs(lines)
    ensures |r| == |lines|
  {
    if n == 0 then lines
    else
      var before, s, d := Fixed(lines, n - 1), SrcSide(lines)[n - 1], DstSide(lines)[n - 1];
      var text := before[s].text;
      if OneBlankMore(text, before[d].text) then Append(before, d, text[|text| - 1]) else before
  }

  function FixLines(lines: seq<Line>): (r: seq<Line>)
    ensures |r| == |lines|
  {
    Fixed(lines, Pairs(lines))
  }

  function FixChunk(c: Chunk): Chunk {
    c.(lines := FixLines(c.lines))
  }

  // ---- what the pass may change ----

  /** Same kind, and the same text or one blank more. */
  predicate Touched(before: Line, after: Line) {
    after.kind == before.kind && (after.text == before.text || OneBlankMore(after.text, before.text))
  }

  /** Only destination lines among the first n are touched, each at most once. */
  lemma {:induction false} FixedTouches(lines: seq<Line>, n: nat, k: nat)
    requires n <= Pairs(lines) && k < |lines|
    ensures Touched(lines[k], Fixed(lines, n)[k])
    ensures k !in DstSide(lines)[..n] ==> Fixed(lines, n)[k] == lines[k]
  {
    hide SrcSide, DstSide;
    if n > 0 {
      FixedTouches(lines, n - 1, k);
      var dst := DstSide(lines);
      assert dst[..n] == dst[..n - 1] + [dst[n - 1]];
      if k == dst[n - 1] {
        assert k !in dst[..n - 1];
      }
    }
  }

  // ---- when the source side survives ----

  /** Pair i has a context line on the destination side that is one blank short of its source partner. */
  predicate Hits(lines: seq<Line>, i: nat)
    requires i < Pairs(lines)
  {
    var s, d := lines[SrcSide(lines)[i]], lines[DstSide(lines)[i]];
    d.kind == Both && OneBlankMore(s.text, d.text)
  }

  predicate ContextHit(lines: seq<Line>) {
    exists i: nat :: i < Pairs(lines) && Hits(lines, i)
  }

  predicate SameSource(before: seq<Line>, after: seq<Line>)
    requires |before| == |after|
  {
    forall k :: 0 <= k < |before| && OnSrc(before[k]) ==> after[k] == before[k]
  }

  /** As long as no pair has hit a context line, the source side is the original. */
  lemma {:induction false} SourceKept(lines: seq<Line>, n: nat)
    requires n <= Pairs(lines) && forall i: nat :: i < n ==> !Hits(lines, i)
    ensures SameSource(lines, Fixed(lines, n))
  {
    hide SrcSide, DstSide, OneBlankMore;
    if n > 0 {
      SourceKept(lines, n - 1);
      var s, d := SrcSide(lines)[n - 1], DstSide(lines)[n - 1];
      NotYetTouched(lines, n - 1);
      assert !Hits(lines, n - 1);
      assert Fixed(lines, n - 1)[s] == lines[s];
    }
  }

  lemma NotYetTouched(lines: seq<Line>, n: nat)
    requires n < Pairs(lines)
    ensures Fixed(lines, n)[DstSide(lines)[n]] == lines[DstSide(lines)[n]]
  {
    var dst := DstSide(lines);
    FixedTouches(lines, n, dst[n]);
    assert forall i :: 0 <= i < n ==> dst[i] != dst[n];
  }

  lemma {:induction false} TouchedStays(lines: seq<Line>, n: nat, m: nat, k: nat)
    requires n <= m <= Pairs(lines) && k < |lines| && k !in DstSide(lines)[n..m]
    ensures Fixed(lines, m)[k] == Fixed(lines, n)[k]
  {
    if n < m {
      var dst := DstSide(lines);
      assert dst[n..m] == dst[n..m - 1] + [dst[m - 1]];
      TouchedStays(lines, n, m - 1, k);
    }
  }

  lemma FixedStep(lines: seq<Line>, n: nat)
    requires n < Pairs(lines)
    ensures
      var before, s, d := Fixed(lines, n), SrcSide(lines)[n], DstSide(lines)[n];
      var text := before[s].text;
      Fixed(lines, n + 1) == if OneBlankMore(text, before[d].text) then Append(before, d, text[|text| - 1]) else before
  {
    hide SrcSide, DstSide;
  }

  lemma AllButLast(longer: string, shorter: string)
    requires OneBlankMore(longer, shorter)
    ensures shorter + [longer[|longer| - 1]] == longer
  {
  }

  /** What pair i leaves in its destination line for good: the text of its source line as it found it, if that was one
      blank longer, and otherwise nothing new. */
  lemma PairLeaves(lines: seq<Line>, i: nat, m: nat)
    requires i < m <= Pairs(lines)
    ensures
      var text, d := Fixed(lines, i)[SrcSide(lines)[i]].text, lines[DstSide(lines)[i]];
      Fixed(lines, m)[DstSide(lines)[i]] == if OneBlankMore(text, d.text) then d.(text := text) else d
  {
    hide SrcSide, DstSide, Fixed, OneBlankMore;
    var text, d := Fixed(lines, i)[SrcSide(lines)[i]].text, DstSide(lines)[i];
    NotYetTouched(lines, i);
    FixedStep(lines, i);
    TouchedStays(lines, i + 1, m, d);
    if OneBlankMore(text, lines[d].text) {
      AllButLast(text, lines[d].text);
    }
  }

  /** The first hit does change a source line, and the change stays. */
  lemma HitChangesSource(lines: seq<Line>, n: nat)
    requires n < Pairs(lines) && Hits(lines, n) && forall i: nat :: i < n ==> !Hits(lines, i)
    ensures !SameSource(lines, FixLines(lines))
  {
    hide SrcSide, DstSide;
    SourceKept(lines, n);
    PairLeaves(lines, n, Pairs(lines));
    var s, d := SrcSide(lines)[n], DstSide(lines)[n];
    assert OnSrc(lines[d]) && |lines[s].text| == |lines[d].text| + 1;
  }

  lemma {:induction false} FirstHit(lines: seq<Line>, n: nat) returns (i: nat)
    requires n <= Pairs(lines) && exists k: nat :: k < n && Hits(lines, k)
    ensures i < n && Hits(lines, i) && forall k: nat :: k < i ==> !Hits(lines, k)
  {
    if k: nat :| k < n - 1 && Hits(lines, k) {
      i := FirstHit(lines, n - 1);
    } else {
      i := n - 1;
    }
  }

  /** The source side is unchanged exactly when no pair would lengthen a context line. */
  lemma SourceUnchangedIff(lines: seq<Line>)
    ensures SameSource(lines, FixLines(lines)) <==> !ContextHit(lines)
  {
    if ContextHit(lines) {
      var i := FirstHit(lines, Pairs(lines));
      HitChangesSource(lines, i);
    } else {
      SourceKept(lines, Pairs(lines));
    }
  }

  /** Without such a pair, a destination line that lacks one trailing blank of its source partner is edited to equal it,
      and every other destination line is left alone. */
  lemma EditedEqualsPartner(lines: seq<Line>, i: nat)
    requires !ContextHit(lines) && i < Pairs(lines)
    ensures
      var s, d, d' := lines[SrcSide(lines)[i]], lines[DstSide(lines)[i]], FixLines(lines)[DstSide(lines)[i]];
      d' == if s.text == d.text + " " || s.text == d.text + "\t" then d.(text := s.text) else d
  {
    hide SrcSide, DstSide, Hits;
    SourceUnchangedIff(lines);
    SourceKept(lines, i);
    PairLeaves(lines, i, Pairs(lines));
  }

  // ---- the pass over a patchset ----

  /** Chunk (a, b) comes before chunk (i, k). */
  predicate Earlier(a: nat, b: nat, i: nat, k: nat) {
    a < i || (a == i && b < k)
  }

  predicate ShortAt(ps: seq<Patch>, a: nat, b: nat) {
    a < |ps| && b < |ps[a].chunks| && Short(ps[a].chunks[b].lines)
  }

  /** Some chunk before (i, k) runs out of destination lines. */
  ghost predicate ShortBefore(ps: seq<Patch>, i: nat, k: nat) {
    exists a: nat, b: nat :: ShortAt(ps, a, b) && Earlier(a, b, i, k)
  }

  ghost function MapChunks(ps: seq<Patch>, f: (nat, nat, Chunk) -> Chunk): seq<Patch> {
    seq(|ps|, i requires 0 <= i < |ps| =>
      ps[i].(chunks := seq(|ps[i].chunks|, k requires 0 <= k < |ps[i].chunks| => f(i, k, ps[i].chunks[k]))))
  }

  /** In order over all chunks of all patches, each is fixed until one runs out of destination lines;
      that one is fixed as far as it goes and the rest is left alone. */
  ghost function PassOver(ps: seq<Patch>): seq<Patch> {
    MapChunks(ps, (i: nat, k: nat, c: Chunk) => if ShortBefore(ps, i, k) then c else FixChunk(c))
  }

  /** The chunks before (i, k) fixed. */
  ghost function Progress(ps: seq<Patch>, i: nat, k: nat): seq<Patch> {
    MapChunks(ps, FixBefore(i, k))
  }

  ghost function WithChunk(ps: seq<Patch>, i: nat, k: nat, c: Chunk): seq<Patch>
    requires i < |ps| && k < |ps[i].chunks|
  {
    ps[i := ps[i].(chunks := ps[i].chunks[k := c])]
  }

  lemma SameChunks(ps: seq<Patch>, f: (nat, nat, Chunk) -> Chunk, g: (nat, nat, Chunk) -> Chunk)
    requires forall i: nat, k: nat {:trigger ps[i].chunks[k]} :: i < |ps| && k < |ps[i].chunks| ==>
      f(i, k, ps[i].chunks[k]) == g(i, k, ps[i].chunks[k])
    ensures MapChunks(ps, f) == MapChunks(ps, g)
  {
    forall i: nat | i < |ps| ensures MapChunks(ps, f)[i] == MapChunks(ps, g)[i] {
      forall k: nat | k < |ps[i].chunks| ensures MapChunks(ps, f)[i].chunks[k] == MapChunks(ps, g)[i].chunks[k] {
        assert f(i, k, ps[i].chunks[k]) == g(i, k, ps[i].chunks[k]);
      }
    }
  }

  function FixBefore(i: nat, k: nat): (nat, nat, Chunk) -> Chunk {
    (a: nat, b: nat, c: Chunk) => if Earlier(a, b, i, k) then FixChunk(c) else c
  }

  lemma ProgressStep(ps: seq<Patch>, i: nat, k: nat)
    requires i < |ps| && k < |ps[i].chunks|
    ensures Progress(ps, i, k)[i].chunks[k] == ps[i].chunks[k]
    ensures WithChunk(Progress(ps, i, k), i, k, FixChunk(ps[i].chunks[k])) == Progress(ps, i, k + 1)
  {
    hide FixChunk;
    var next := WithChunk(Progress(ps, i, k), i, k, FixChunk(ps[i].chunks[k]));
    forall a | 0 <= a < |ps| ensures next[a] == Progress(ps, i, k + 1)[a] {
      assert next[a].chunks == Progress(ps, i, k + 1)[a].chunks;
    }
  }

  lemma ProgressEnds(ps: seq<Patch>, i: nat)
    requires i < |ps|
    ensures Progress(ps, i, |ps[i].chunks|) == Progress(ps, i + 1, 0)
    ensures ShortBefore(ps, i + 1, 0) <==> ShortBefore(ps, i, |ps[i].chunks|)
  {
    hide FixChunk, Short;
    var f, g := FixBefore(i, |ps[i].chunks|), FixBefore(i + 1, 0);
    forall a: nat, b: nat | a < |ps| && b < |ps[a].chunks| ensures f(a, b, ps[a].chunks[b]) == g(a, b, ps[a].chunks[b]) {
      assert Earlier(a, b, i, |ps[i].chunks|) <==> Earlier(a, b, i + 1, 0);
    }
    SameChunks(ps, f, g);
    assert forall a: nat, b: nat :: ShortAt(ps, a, b) ==> (Earlier(a, b, i + 1, 0) <==> Earlier(a, b, i, |ps[i].chunks|));
  }

  /** The pass stops right after the first short chunk, or at the end. */
  lemma ProgressIsPass(ps: seq<Patch>, i: nat, k: nat)
    requires forall a: nat, b: nat :: a < |ps| && b < |ps[a].chunks| ==> (Earlier(a, b, i, k) <==> !ShortBefore(ps, a, b))
    ensures Progress(ps, i, k) == PassOver(ps)
  {
    hide FixChunk, ShortBefore;
    forall a: nat | 0 <= a < |ps| ensures Progress(ps, i, k)[a] == PassOver(ps)[a] {
      assert Progress(ps, i, k)[a].chunks == PassOver(ps)[a].chunks;
    }
  }

  lemma ShortStep(ps: seq<Patch>, i: nat, k: nat)
    requires i < |ps| && k < |ps[i].chunks| && !ShortBefore(ps, i, k)
    ensures ShortBefore(ps, i, k + 1) <==> Short(ps[i].chunks[k].lines)
    ensures Short(ps[i].chunks[k].lines) ==> Progress(ps, i, k + 1) == PassOver(ps)
  {
    hide Short, Progress, PassOver;
    assert ShortAt(ps, i, k) <==> Short(ps[i].chunks[k].lines);
    assert Earlier(i, k, i, k + 1);
    if ShortAt(ps, i, k) {
      forall a: nat, b: nat | a < |ps| && b < |ps[a].chunks|
        ensures Earlier(a, b, i, k + 1) <==> !ShortBefore(ps, a, b)
      {
        if !Earlier(a, b, i, k + 1) {
          assert ShortAt(ps, i, k) && Earlier(i, k, a, b);
        }
      }
      ProgressIsPass(ps, i, k + 1);
    }
  }

  lemma NoneShort(ps: seq<Patch>)
    requires !ShortBefore(ps, |ps|, 0)
    ensures Progress(ps, |ps|, 0) == PassOver(ps)
  {
    hide Short, Progress, PassOver;
    assert forall a: nat, b: nat :: ShortAt(ps, a, b) ==> Earlier(a, b, |ps|, 0);
    ProgressIsPass(ps, |ps|, 0);
  }

  lemma ProgressStarts(ps: seq<Patch>)
    ensures Progress(ps, 0, 0) == ps && !ShortBefore(ps, 0, 0)
  {
    hide FixChunk;
    forall a: nat | a < |ps| ensures Progress(ps, 0, 0)[a] == ps[a] {
      forall b: nat | b < |ps[a].chunks| ensures Progress(ps, 0, 0)[a].chunks[b] == ps[a].chunks[b] {
        assert !Earlier(a, b, 0, 0);
      }
    }
  }

  lemma FixedEnds(c: Chunk)
    ensures Fixed(c.lines, 0) == c.lines
    ensures Pairs(c.lines) <= |SrcSide(c.lines)| && Pairs(c.lines) <= |DstSide(c.lines)|
    ensures Pairs(c.lines) == |SrcSide(c.lines)| || Pairs(c.lines) == |DstSide(c.lines)|
    ensures Short(c.lines) <==> |DstSide(c.lines)| < |SrcSide(c.lines)|
    ensures FixChunk(c) == c.(lines := Fixed(c.lines, Pairs(c.lines)))
  {
  }

  /** One pair of line objects; where both are the same context line, the text compared is the text changed. */
  method FixPair(chunk: PatchChunk, s: PatchChunkLine, d: PatchChunkLine,
                 ghost mine: set<object>, ghost i: nat, ghost k: nat, ghost c: Chunk, ghost sAt: nat, ghost dAt: nat)
    requires ChunkShows(mine, chunk, i, k, c)
    requires sAt < |chunk.lines| && chunk.lines[sAt] == s && dAt < |chunk.lines| && chunk.lines[dAt] == d
    modifies d
    ensures ChunkShows(mine, chunk, i, k, c.(lines :=
      var text := c.lines[sAt].text;
      if OneBlankMore(text, c.lines[dAt].text) then Append(c.lines, dAt, text[|text| - 1]) else c.lines))
  {
    ghost var text := s.text;
    MatchIff(text, d.text);
    var m := TrailingBlank(s.text);
    if m.Some? && m.value.0 == d.text {
      assert m.value.1 == [text[|text| - 1]];
      d.AppendToLine(m.value.1);
    }
  }

  /** The two sides of a chunk, taken before anything is changed. */
  method BothSides(chunk: PatchChunk, ghost mine: set<object>, ghost i: nat, ghost k: nat, ghost c: Chunk)
    returns (src: seq<PatchChunkLine>, dst: seq<PatchChunkLine>)
    requires ChunkShows(mine, chunk, i, k, c)
    ensures |chunk.lines| == |c.lines| && |src| == |SrcSide(c.lines)| && |dst| == |DstSide(c.lines)|
    ensures forall n :: 0 <= n < |src| ==> src[n] == chunk.lines[SrcSide(c.lines)[n]]
    ensures forall n :: 0 <= n < |dst| ==> dst[n] == chunk.lines[DstSide(c.lines)[n]]
  {
    src := chunk.OneSide(OnSrc, c.lines);
    dst := chunk.OneSide(OnDst, c.lines);
  }

  /** The loop over one chunk, on the line objects; `finished` is false when a destination line was missing. */
  method FixOneChunk(chunk: PatchChunk, ghost mine: set<object>, ghost i: nat, ghost k: nat, ghost c: Chunk)
    returns (finished: bool)
    requires ChunkShows(mine, chunk, i, k, c)
    modifies chunk.lines
    ensures ChunkShows(mine, chunk, i, k, FixChunk(c))
    ensures finished <==> !Short(c.lines)
  {
    hide *;
    var src, dst := BothSides(chunk, mine, i, k, c);
    FixedEnds(c);
    ghost var objects := chunk.lines;
    for n := 0 to |src|
      invariant chunk.lines == objects
      invariant n <= Pairs(c.lines) && ChunkShows(mine, chunk, i, k, c.(lines := Fixed(c.lines, n)))
    {
      if n >= |dst| {
        return false;
      }
      FixPair(chunk, src[n], dst[n], mine, i, k, c.(lines := Fixed(c.lines, n)), SrcSide(c.lines)[n], DstSide(c.lines)[n]);
      FixedStep(c.lines, n);
    }
    return true;
  }

  /** One chunk of the patchset fixed, all else as it was: no other place shares its line objects. */
  method FixAt(patchset: seq<FilePatch>, patch: FilePatch, chunk: PatchChunk,
               ghost mine: set<object>, ghost i: nat, ghost k: nat, ghost ps: seq<Patch>)
    returns (finished: bool)
    requires Shows(mine, patchset, ps)
    requires i < |patchset| && patchset[i] == patch && k < |patch.chunks| && patch.chunks[k] == chunk
    modifies chunk.lines
    ensures Shows(mine, patchset, WithChunk(ps, i, k, FixChunk(ps[i].chunks[k])))
    ensures finished <==> !Short(ps[i].chunks[k].lines)
  {
    hide FixChunk, Short;
    finished := FixOneChunk(chunk, mine, i, k, ps[i].chunks[k]);
  }

  lemma ShownObjects(mine: set<object>, patchset: seq<FilePatch>, ps: seq<Patch>)
    requires Shows(mine, patchset, ps)
    ensures |patchset| == |ps| && forall i :: 0 <= i < |ps| ==> |patchset[i].chunks| == |ps[i].chunks|
    ensures forall i, k :: 0 <= i < |patchset| && 0 <= k < |patchset[i].chunks| ==>
      forall j :: 0 <= j < |patchset[i].chunks[k].lines| ==> patchset[i].chunks[k].lines[j] in mine
  {
    forall i, k | 0 <= i < |patchset| && 0 <= k < |patchset[i].chunks|
      ensures forall j :: 0 <= j < |patchset[i].chunks[k].lines| ==> patchset[i].chunks[k].lines[j] in mine
    {
      assert ChunkShows(mine, patchset[i].chunks[k], i, k, ps[i].chunks[k]);
    }
  }

  lemma ProgressSizes(ps: seq<Patch>, i: nat, k: nat)
    ensures var qs := Progress(ps, i, k);
      |qs| == |ps| && forall a :: 0 <= a < |ps| ==> |qs[a].chunks| == |ps[a].chunks|
  {
  }

  /** The pass leaves in the parser's own objects, and only there, what PassOver says of the parsed patches. */
  method RemoveTrailingWhitespaceChanges(lines: seq<string>) returns (patchset: Option<seq<FilePatch>>, ghost mine: set<object>)
    ensures fresh(mine)
    ensures patchset.Some? <==> Parse(lines).Some?
    ensures patchset.Some? ==> Shows(mine, patchset.value, PassOver(Parse(lines).value))
  {
    hide *;
    patchset, mine := ParsePatchset(lines);
    if patchset.None? {
      return;
    }
    ghost var ps := Parse(lines).value;
    var patches := patchset.value;
    ProgressStarts(ps);
    ShownObjects(mine, patches, ps);
    for i := 0 to |patches|
      invariant |patches| == |ps| && Shows(mine, patches, Progress(ps, i, 0)) && !ShortBefore(ps, i, 0)
    {
      var chunks := patches[i].chunks;
      ProgressSizes(ps, i, 0);
      ShownObjects(mine, patches, Progress(ps, i, 0));
      for k := 0 to |chunks|
        invariant patches[i].chunks == chunks && |chunks| == |ps[i].chunks|
        invariant Shows(mine, patches, Progress(ps, i, k)) && !ShortBefore(ps, i, k)
      {
        ShownObjects(mine, patches, Progress(ps, i, k));
        ProgressStep(ps, i, k);
        ShortStep(ps, i, k);
        ghost var objects := patches[i].chunks[k].lines;
        assert forall j :: 0 <= j < |objects| ==> objects[j] in mine && fresh(objects[j]);
        var finished := FixAt(patches, patches[i], chunks[k], mine, i, k, Progress(ps, i, k));
        if !finished {
          return;
        }
      }
      ProgressEnds(ps, i);
    }
    NoneShort(ps);
  }

  /** Whatever happens to a chunk, its positions, its line count and the kinds stay, no text gains more than one blank,
      and the counts of its printed header stay the same. */
  lemma ShapeKept(ps: seq<Patch>, i: nat, k: nat)
    requires i < |ps| && k < |ps[i].chunks|
    ensures var ps' := PassOver(ps);
      && |ps'| == |ps| && ps'[i] == ps[i].(chunks := ps'[i].chunks) && |ps'[i].chunks| == |ps[i].chunks|
      && var c, c' := ps[i].chunks[k], ps'[i].chunks[k];
      && c' == c.(lines := if ShortBefore(ps, i, k) then c.lines else FixLines(c.lines)) && |c'.lines| == |c.lines|
      && (forall j :: 0 <= j < |c.lines| ==>
           var text, text' := c.lines[j].text, c'.lines[j].text;
           c'.lines[j].kind == c.lines[j].kind && (text' == text || text' == text + " " || text' == text + "\t"))
      && SrcLen(c'.lines) == SrcLen(c.lines) && DstLen(c'.lines) == DstLen(c.lines)
  {
    var c, c' := ps[i].chunks[k], PassOver(ps)[i].chunks[k];
    forall j | 0 <= j < |c.lines| ensures Touched(c.lines[j], c'.lines[j]) {
      FixedTouches(c.lines, Pairs(c.lines), j);
    }
    SameKindsSameLengths(c.lines, c'.lines);
  }

  lemma {:induction false} SameKindsSameLengths(a: seq<Line>, b: seq<Line>)
    requires |a| == |b| && forall j :: 0 <= j < |a| ==> a[j].kind == b[j].kind
    ensures SrcLen(a) == SrcLen(b) && DstLen(a) == DstLen(b)
  {
    if a != [] {
      SameKindsSameLengths(a[..|a| - 1], b[..|b| - 1]);
    }
  }
}
