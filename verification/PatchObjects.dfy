/** The patch classes of utils/check-style.py and the code that builds, changes and writes their objects.
    Every object carries, as a ghost, the place it was created for, so two places never share an object. */
module PatchObjects {
  import opened PatchText

  class PatchChunkLine {
    ghost const home: (nat, nat, nat)
    const kind: Kind
    var text: string

    /** The creation of a line and the one call of set_src, set_dst or set_both that follows it. */
    constructor (l: Line, ghost home: (nat, nat, nat))
      ensures Value() == l && this.home == home
    {
      this.home, kind, text := home, l.kind, l.text;
    }

    function Value(): Line
      reads this
    {
      Line(kind, text)
    }

    method AppendToLine(s: string)
      modifies this
      ensures text == old(text) + s
    {
      text := text + s;
    }
  }

  class PatchChunk {
    ghost const home: (nat, nat)
    const srcPos: nat
    const dstPos: nat
    var lines: seq<PatchChunkLine>

    constructor (srcPos: nat, dstPos: nat, ghost home: (nat, nat))
      ensures this.srcPos == srcPos && this.dstPos == dstPos && lines == [] && this.home == home
    {
      this.home, this.srcPos, this.dstPos, lines := home, srcPos, dstPos, [];
    }

    method AddLine(l: PatchChunkLine)
      modifies this
      ensures lines == old(lines) + [l]
    {
      lines := lines + [l];
    }

    /** src() and dst(): the line objects on one side, in order. */
    method OneSide(on: Line -> bool, ghost values: seq<Line>) returns (side: seq<PatchChunkLine>)
      requires |values| == |lines| && forall j :: 0 <= j < |lines| ==> lines[j].Value() == values[j]
      ensures |side| == |Side(values, |values|, on)|
      ensures forall n :: 0 <= n < |side| ==> side[n] == lines[Side(values, |values|, on)[n]]
      ensures forall j :: 0 <= j < |lines| && on(values[j]) ==> lines[j] in side
    {
      side := [];
      for j := 0 to |lines|
        invariant |side| == |Side(values, j, on)|
        invariant forall n :: 0 <= n < |side| ==> side[n] == lines[Side(values, j, on)[n]]
      {
        if on(lines[j].Value()) {
          side := side + [lines[j]];
        }
      }
      forall j | 0 <= j < |lines| && on(values[j]) ensures lines[j] in side {
        SideComplete(values, |values|, on, j);
        var n :| 0 <= n < |side| && Side(values, |values|, on)[n] == j;
        assert side[n] == lines[j];
      }
    }
  }

  /** The source's Patch. */
  class FilePatch {
    ghost const home: nat
    var src: string
    var dst: string
    var chunks: seq<PatchChunk>

    constructor (ghost home: nat)
      ensures src == "" && dst == "" && chunks == [] && this.home == home
    {
      this.home, src, dst, chunks := home, "", "", [];
    }

    method AddChunk(chunk: PatchChunk)
      modifies this`chunks
      ensures chunks == old(chunks) + [chunk]
    {
      chunks := chunks + [chunk];
    }

    method SetSrc(src: string)
      modifies this`src
      ensures this.src == src
    {
      this.src := src;
    }

    method SetDst(dst: string)
      modifies this`dst
      ensures this.dst == dst
    {
      this.dst := dst;
    }
  }

  // ---- what a patchset of objects stands for ----

  ghost predicate LineShows(mine: set<object>, o: PatchChunkLine, i: nat, k: nat, j: nat, l: Line)
    reads mine
  {
    o in mine && o.home == (i, k, j) && o.Value() == l
  }

  ghost predicate ChunkShows(mine: set<object>, o: PatchChunk, i: nat, k: nat, c: Chunk)
    reads mine
  {
    && o in mine && o.home == (i, k) && o.srcPos == c.srcPos && o.dstPos == c.dstPos && |o.lines| == |c.lines|
    && forall j :: 0 <= j < |o.lines| ==> LineShows(mine, o.lines[j], i, k, j, c.lines[j])
  }

  ghost predicate PatchShows(mine: set<object>, o: FilePatch, i: nat, p: Patch)
    reads mine
  {
    && o in mine && o.home == i && o.src == p.src && o.dst == p.dst && |o.chunks| == |p.chunks|
    && forall k :: 0 <= k < |o.chunks| ==> ChunkShows(mine, o.chunks[k], i, k, p.chunks[k])
  }

  /** All objects are among `mine`; each sits at its own place and holds the value found there. */
  ghost predicate Shows(mine: set<object>, patchset: seq<FilePatch>, ps: seq<Patch>)
    reads mine
  {
    && |patchset| == |ps|
    && forall i :: 0 <= i < |patchset| ==> PatchShows(mine, patchset[i], i, ps[i])
  }

  /** current_chunk refers to the chunk object at the place the value parser has in hand. */
  ghost predicate Current(patchset: seq<FilePatch>, chunk: PatchChunk?, current: Option<(nat, nat)>)
    reads patchset
  {
    if chunk == null then current == None
    else current == Some(chunk.home) && chunk.home.0 < |patchset| && chunk.home.1 < |patchset[chunk.home.0].chunks|
         && patchset[chunk.home.0].chunks[chunk.home.1] == chunk
  }

  // ---- the parser ----

  method StartPatch(patchset: seq<FilePatch>, name: string, ghost ps: seq<Patch>, ghost mine: set<object>)
    returns (patchset': seq<FilePatch>, ghost made: FilePatch)
    requires Shows(mine, patchset, ps)
    ensures fresh(made) && patchset' == patchset + [made]
    ensures Shows(mine + {made}, patchset', ps + [Patch(name, "", [])])
  {
    var patch := new FilePatch(|patchset|);
    patchset' := patchset + [patch];
    patch.SetSrc(name);
    made := patch;
  }

  method NameDestination(patchset: seq<FilePatch>, name: string, ghost ps: seq<Patch>, ghost mine: set<object>)
    requires Shows(mine, patchset, ps) && patchset != []
    modifies patchset[|patchset| - 1]
    ensures patchset[|patchset| - 1].chunks == old(patchset[|patchset| - 1].chunks)
    ensures var last := |ps| - 1; Shows(mine, patchset, ps[last := ps[last].(dst := name)])
  {
    patchset[|patchset| - 1].SetDst(name);
  }

  method StartChunk(patchset: seq<FilePatch>, head: Head, ghost ps: seq<Patch>, ghost mine: set<object>)
    returns (chunk: PatchChunk)
    requires Shows(mine, patchset, ps) && patchset != []
    modifies patchset[|patchset| - 1]
    ensures fresh(chunk)
    ensures var last := |ps| - 1; var p := ps[last];
      && Current(patchset, chunk, Some((last, |p.chunks|)))
      && Shows(mine + {chunk}, patchset, ps[last := p.(chunks := p.chunks + [Chunk(head.srcPos, head.dstPos, [])])])
  {
    var patch := patchset[|patchset| - 1];
    chunk := new PatchChunk(head.srcPos, head.dstPos, (|patchset| - 1, |patch.chunks|));
    patch.AddChunk(chunk);
  }

  method AddText(patchset: seq<FilePatch>, chunk: PatchChunk, l: Line, ghost ps: seq<Patch>, ghost mine: set<object>)
    returns (ghost made: PatchChunkLine)
    requires Shows(mine, patchset, ps) && Current(patchset, chunk, Some(chunk.home))
    modifies chunk
    ensures fresh(made)
    ensures var (i, k) := chunk.home; Shows(mine + {made}, patchset, ps[i := WithLine(ps[i], k, l)])
  {
    var line := new PatchChunkLine(l, (chunk.home.0, chunk.home.1, |chunk.lines|));
    chunk.AddLine(line);
    made := line;
  }

  lemma ParseNext(st: ParseState, lines: seq<string>, n: nat)
    requires ValidState(st) && n < |lines|
    ensures ParseFrom(st, lines[n..]) ==
      match Step(st, lines[n]) { case None => None case Some(st') => ParseFrom(st', lines[n + 1..]) }
  {
    assert lines[n..][0] == lines[n] && lines[n..][1..] == lines[n + 1..];
  }

  lemma AllParsed(st: ParseState, lines: seq<string>)
    requires ValidState(st)
    ensures ParseFrom(st, lines[|lines|..]) == Some(st)
  {
  }

  lemma NothingShown()
    ensures Shows({}, [], NOTHING.patches)
  {
  }

  /** parse_patchset: new objects throughout, one place each, that hold exactly what Parse says; None for the exceptions. */
  method ParsePatchset(lines: seq<string>) returns (patchset: Option<seq<FilePatch>>, ghost mine: set<object>)
    ensures fresh(mine)
    ensures patchset.Some? <==> Parse(lines).Some?
    ensures patchset.Some? ==> Shows(mine, patchset.value, Parse(lines).value)
  {
    hide ChunkHead, Captured, TextLine, WithLine, Shows, ParseFrom;
    NothingShown();
    var patches: seq<FilePatch> := [];
    var current: PatchChunk? := null;
    ghost var st := NOTHING;
    mine := {};
    assert lines[0..] == lines;
    for n := 0 to |lines|
      invariant ValidState(st) && ParseFrom(NOTHING, lines) == ParseFrom(st, lines[n..])
      invariant fresh(mine) && Shows(mine, patches, st.patches) && |patches| == |st.patches|
      invariant Current(patches, current, st.current) && (forall i :: 0 <= i < |patches| ==> patches[i] in mine)
      invariant current != null ==> current in mine
    {
      var line := lines[n];
      ParseNext(st, lines, n);
      var name := Captured(line, "--- ");
      if name.Some? {
        ghost var made;
        patches, made := StartPatch(patches, name.value, st.patches, mine);
        mine := mine + {made};
        st := Step(st, line).value;
        continue;
      }
      name := Captured(line, "+++ ");
      if name.Some? {
        if patches == [] {
          return None, mine;
        }
        NameDestination(patches, name.value, st.patches, mine);
        st := Step(st, line).value;
        continue;
      }
      var head := ChunkHead(line);
      if head.Some? {
        if patches == [] {
          return None, mine;
        }
        current := StartChunk(patches, head.value, st.patches, mine);
        mine := mine + {current};
        st := Step(st, line).value;
        continue;
      }
      var found := TextLine(line);
      if found.None? || current == null {
        return None, mine;
      }
      ghost var made := AddText(patches, current, found.value, st.patches, mine);
      mine := mine + {made};
      st := Step(st, line).value;
    }
    AllParsed(st, lines);
    return Some(patches), mine;
  }

  // ---- the printer ----

  /** PatchChunk.write: the header, then one f.write a line. */
  method WriteChunk(chunk: PatchChunk, f: seq<string>, ghost mine: set<object>, ghost i: nat, ghost k: nat, ghost c: Chunk)
    returns (out: seq<string>)
    requires ChunkShows(mine, chunk, i, k, c)
    ensures out == f + PrintChunk(c)
  {
    var src := chunk.OneSide(OnSrc, c.lines);
    var dst := chunk.OneSide(OnDst, c.lines);
    SideLengths(c.lines, |c.lines|);
    assert c.lines[..|c.lines|] == c.lines;
    hide HeaderText, PrintLine, Side;
    out := f + [HeaderText(Head(chunk.srcPos, |src|, chunk.dstPos, |dst|))];
    for j := 0 to |chunk.lines|
      invariant out + PrintLines(c.lines[j..]) == f + PrintChunk(c)
    {
      ghost var rest := c.lines[j..];
      assert rest[0] == c.lines[j] && rest[1..] == c.lines[j + 1..];
      assert out + ([PrintLine(rest[0])] + PrintLines(rest[1..])) == (out + [PrintLine(rest[0])]) + PrintLines(rest[1..]);
      assert LineShows(mine, chunk.lines[j], i, k, j, c.lines[j]);
      out := out + [PrintLine(chunk.lines[j].Value())];
    }
    assert out + [] == out;
  }

  /** Patch.write: the two file headers, then the chunks. */
  method WritePatch(patch: FilePatch, ghost mine: set<object>, ghost i: nat, ghost p: Patch) returns (out: seq<string>)
    requires PatchShows(mine, patch, i, p)
    ensures out == PrintPatch(p)
  {
    hide PrintChunk, ChunkShows;
    out := ["--- " + patch.src + "\n", "+++ " + patch.dst + "\n"];
    for k := 0 to |patch.chunks|
      invariant out + PrintChunks(p.chunks[k..]) == PrintPatch(p)
    {
      ghost var rest := p.chunks[k..];
      assert rest[0] == p.chunks[k] && rest[1..] == p.chunks[k + 1..];
      assert out + (PrintChunk(rest[0]) + PrintChunks(rest[1..])) == (out + PrintChunk(rest[0])) + PrintChunks(rest[1..]);
      out := WriteChunk(patch.chunks[k], out, mine, i, k, p.chunks[k]);
    }
    assert out + [] == out;
  }
}
