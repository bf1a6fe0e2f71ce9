/** The part of a source page the pipeline reads: its size and the text
    layout tree returned by the library's `get_text("dict")` — blocks, each
    with an optional "lines" entry, lines holding spans (app.py:17-27,
    processor.py:23-36). Geometry is carried as opaque numbers and never
    computed with. */
module Layout {
  import opened Optional
  import opened Text
  import opened Runs

  datatype Point = Point(x: real, y: real)

  /** One text span: its text, the name of the font it was set in, its font
      size and its baseline origin. */
  datatype Span = Span(text: string, font: string, size: real, origin: Point)

  datatype Line = Line(spans: seq<Span>)

  /** A layout block. Image blocks have no "lines" key; that is `None` here. */
  datatype Block = Block(lines: Option<seq<Line>>)

  datatype SourcePage = SourcePage(width: real, height: real, blocks: seq<Block>)

  /** A span worth writing: its text is neither empty nor all whitespace
      (app.py:26, processor.py:56). */
  predicate Visible(s: Span)
    ensures Visible(s) <==> Strip(s.text) != []
  {
    StripEmptyIffBlank(s.text);
    !IsBlank(s.text)
  }

  function SpansOf(line: Line): seq<Span> {
    line.spans
  }

  /** The spans of a run of lines, line after line. */
  function LineSpans(lines: seq<Line>): seq<Span> {
    Concat(SpansOf, lines)
  }

  /** The spans of one block; a block without "lines" yields none, and one
      with lines yields exactly the spans of those lines. */
  function BlockSpans(b: Block): (spans: seq<Span>)
    ensures b.lines.None? ==> spans == []
    ensures forall s :: s in spans <==> InBlock(b, s)
  {
    match b.lines
    case None => []
    case Some(lines) =>
      LinesMembership(lines);
      LineSpans(lines)
  }

  /** A run of lines yields a span exactly when one of the lines holds it. */
  lemma LinesMembership(lines: seq<Line>)
    ensures forall s :: s in LineSpans(lines) <==> exists j :: 0 <= j < |lines| && s in lines[j].spans
  {
    forall s: Span
      ensures s in LineSpans(lines) <==> exists j :: 0 <= j < |lines| && s in lines[j].spans
    {
      InConcat(SpansOf, lines, s);
    }
  }

  /** The spans of a page in the order the nested loops visit them: block by
      block, within a block line by line, within a line span by span. */
  function PageSpans(blocks: seq<Block>): (spans: seq<Span>)
    ensures forall s :: s in spans <==> exists i :: 0 <= i < |blocks| && InBlock(blocks[i], s)
  {
    WalkMembership(blocks);
    Concat(BlockSpans, blocks)
  }

  /** `s` is one of the spans of some line of block `b`. */
  ghost predicate InBlock(b: Block, s: Span) {
    b.lines.Some? && exists j :: 0 <= j < |b.lines.value| && s in b.lines.value[j].spans
  }

  lemma LineSpansSnoc(lines: seq<Line>, line: Line)
    ensures LineSpans(lines + [line]) == LineSpans(lines) + line.spans
  {
    ConcatSnoc(SpansOf, lines, line);
  }

  lemma PageSpansSnoc(blocks: seq<Block>, block: Block)
    ensures PageSpans(blocks + [block]) == PageSpans(blocks) + BlockSpans(block)
  {
    ConcatSnoc(BlockSpans, blocks, block);
  }

  /** Walking two runs of blocks one after the other visits the spans of the
      first run, then those of the second: the walk preserves order. */
  lemma PageSpansAppend(a: seq<Block>, b: seq<Block>)
    ensures PageSpans(a + b) == PageSpans(a) + PageSpans(b)
  {
    ConcatAppend(BlockSpans, a, b);
  }

  /** Block `i`'s spans sit, as one contiguous run, between those of the
      blocks before it and those of the blocks after it. */
  lemma BlockOrder(blocks: seq<Block>, i: int)
    requires 0 <= i < |blocks|
    ensures PageSpans(blocks) == PageSpans(blocks[..i]) + BlockSpans(blocks[i]) + PageSpans(blocks[i + 1..])
  {
    var before, after := blocks[..i], blocks[i + 1..];
    assert blocks == (before + [blocks[i]]) + after;
    ConcatAppend(BlockSpans, before + [blocks[i]], after);
    ConcatSnoc(BlockSpans, before, blocks[i]);
  }

  /** A block without "lines" contributes nothing, wherever it stands. */
  lemma LinelessBlockSkipped(before: seq<Block>, b: Block, after: seq<Block>)
    requires b.lines.None?
    ensures PageSpans(before + [b] + after) == PageSpans(before + after)
  {
    ConcatAppend(BlockSpans, before + [b], after);
    ConcatAppend(BlockSpans, before, after);
    ConcatSnoc(BlockSpans, before, b);
  }

  /** The walk visits a span exactly when it belongs to a line of a block that
      has lines: nothing is invented and nothing in a text block is missed. */
  lemma WalkMembership(blocks: seq<Block>)
    ensures forall s :: s in Concat(BlockSpans, blocks) <==> exists i :: 0 <= i < |blocks| && InBlock(blocks[i], s)
  {
    forall s: Span
      ensures s in Concat(BlockSpans, blocks) <==> exists i :: 0 <= i < |blocks| && InBlock(blocks[i], s)
    {
      InWalk(blocks, s);
    }
  }

  lemma InWalk(blocks: seq<Block>, s: Span)
    ensures s in Concat(BlockSpans, blocks) <==> exists i :: 0 <= i < |blocks| && InBlock(blocks[i], s)
  {
    InConcat(BlockSpans, blocks, s);
  }
}
