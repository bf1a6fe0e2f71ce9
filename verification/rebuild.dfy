/** The page loop: one target page per source page, of the same size, with
    the records its spans leave behind (app.py:17-42, processor.py:23-36).
    The functions state what the loop computes; the methods walk the layout
    tree with the same nested loops as the program and are proved to compute
    it. */
module Rebuild {
  import opened Layout
  import opened Insertion
  import opened Fonts
  import opened Text

  datatype TargetPage = TargetPage(width: real, height: real, records: seq<Record>)

  /** The target page for one source page: same width and height, and the
      records of the page's spans in walk order. */
  function RebuildPage(policy: Policy, ok: Oracle, page: SourcePage): (target: TargetPage)
    ensures target.width == page.width && target.height == page.height
    ensures |target.records| <= |PageSpans(page.blocks)|
    ensures forall r :: r in target.records ==> r.color == Black && !IsBlank(r.text)
  {
    var spans := PageSpans(page.blocks);
    RecordsComeFromVisibleSpans(policy, ok, spans);
    TargetPage(page.width, page.height, RecordsOf(policy, ok, spans))
  }

  /** The target pages, one per source page, in source order. */
  function RebuildPages(policy: Policy, ok: Oracle, source: seq<SourcePage>): (pages: seq<TargetPage>)
    ensures |pages| == |source|
    ensures forall i :: 0 <= i < |source| ==> pages[i].width == source[i].width && pages[i].height == source[i].height
  {
    seq(|source|, i requires 0 <= i < |source| => RebuildPage(policy, ok, source[i]))
  }

  /** Walks one line's spans, writing each with `w`, as the innermost loop
      does; `done` are the spans walked before. */
  method InsertLine(w: Span -> seq<Record>, line: Line, ghost done: seq<Span>, records: seq<Record>)
    returns (records': seq<Record>)
    requires records == Runs.Concat(w, done)
    ensures records' == Runs.Concat(w, done + line.spans)
  {
    records' := records;
    var k := 0;
    assert done + line.spans[..0] == done;
    while k < |line.spans|
      invariant 0 <= k <= |line.spans|
      invariant records' == Runs.Concat(w, done + line.spans[..k])
    {
      var span := line.spans[k];
      Runs.ConcatSnoc(w, done + line.spans[..k], span);
      assert done + line.spans[..k + 1] == (done + line.spans[..k]) + [span];
      records' := records' + w(span);
      k := k + 1;
    }
    assert line.spans[..k] == line.spans;
  }

  /** Walks the lines of one block, as the middle loop does. */
  method InsertLines(w: Span -> seq<Record>, lines: seq<Line>, ghost done: seq<Span>, records: seq<Record>)
    returns (records': seq<Record>)
    requires records == Runs.Concat(w, done)
    ensures records' == Runs.Concat(w, done + LineSpans(lines))
  {
    records' := records;
    var l := 0;
    assert done + LineSpans(lines[..0]) == done;
    while l < |lines|
      invariant 0 <= l <= |lines|
      invariant records' == Runs.Concat(w, done + LineSpans(lines[..l]))
    {
      assert lines[..l + 1] == lines[..l] + [lines[l]];
      LineSpansSnoc(lines[..l], lines[l]);
      assert done + LineSpans(lines[..l + 1]) == (done + LineSpans(lines[..l])) + lines[l].spans;
      records' := InsertLine(w, lines[l], done + LineSpans(lines[..l]), records');
      l := l + 1;
    }
    assert lines[..l] == lines;
  }

  /** Walks the blocks of a page, skipping those without "lines", as the
      outer loop does. */
  method InsertBlocks(w: Span -> seq<Record>, blocks: seq<Block>) returns (records: seq<Record>)
    ensures records == Runs.Concat(w, PageSpans(blocks))
  {
    records := [];
    var b := 0;
    while b < |blocks|
      invariant 0 <= b <= |blocks|
      invariant records == Runs.Concat(w, PageSpans(blocks[..b]))
    {
      var block := blocks[b];
      assert blocks[..b + 1] == blocks[..b] + [block];
      PageSpansSnoc(blocks[..b], block);
      if block.lines.Some? {
        assert BlockSpans(block) == LineSpans(block.lines.value);
        records := InsertLines(w, block.lines.value, PageSpans(blocks[..b]), records);
      } else {
        assert BlockSpans(block) == [];
        assert PageSpans(blocks[..b + 1]) == PageSpans(blocks[..b]);
      }
      b := b + 1;
    }
    assert blocks[..b] == blocks;
  }

  /** Builds one target page: a page of the source page's size, then the
      records of walking its layout tree with the chosen policy. */
  method RebuildPageLoop(policy: Policy, ok: Oracle, page: SourcePage) returns (target: TargetPage)
    ensures target == RebuildPage(policy, ok, page)
  {
    var records := InsertBlocks(Writer(policy, ok), page.blocks);
    target := TargetPage(page.width, page.height, records);
  }

  /** Builds all target pages in index order. */
  method RebuildPagesLoop(policy: Policy, ok: Oracle, source: seq<SourcePage>) returns (pages: seq<TargetPage>)
    ensures pages == RebuildPages(policy, ok, source)
  {
    pages := [];
    var i := 0;
    while i < |source|
      invariant 0 <= i <= |source|
      invariant |pages| == i
      invariant forall j :: 0 <= j < i ==> pages[j] == RebuildPage(policy, ok, source[j])
    {
      var page := RebuildPageLoop(policy, ok, source[i]);
      pages := pages + [page];
      i := i + 1;
    }
  }

  /** The output has as many pages as the input, page `i` has the width and
      height of source page `i`, and its records are those of source page
      `i`'s spans. */
  lemma PagesMatchSource(policy: Policy, ok: Oracle, source: seq<SourcePage>)
    ensures var pages := RebuildPages(policy, ok, source);
      && |pages| == |source|
      && forall i :: 0 <= i < |source| ==>
        && pages[i].width == source[i].width
        && pages[i].height == source[i].height
        && pages[i].records == RecordsOf(policy, ok, PageSpans(source[i].blocks))
  {
  }

  /** Text survival on one page: a visible span whose classified font is
      accepted is written with that font; under the retrying policy a span
      refused in its own font but accepted in "sans-serif" is written with
      "sans-serif". Either way its record carries its own text, origin and
      size, in black. */
  lemma SpanSurvives(policy: Policy, ok: Oracle, page: SourcePage, k: int)
    requires 0 <= k < |PageSpans(page.blocks)|
    ensures var span := PageSpans(page.blocks)[k];
      var records := RebuildPage(policy, ok, page).records;
      && (Visible(span) && ok(Classify(span.font), span) ==> RecordFor(span, Classify(span.font)) in records)
      && (Visible(span) && policy == RetryOnce && !ok(Classify(span.font), span) && ok(SansSerif, span)
          ==> RecordFor(span, SansSerif) in records)
  {
    var spans := PageSpans(page.blocks);
    var records, idx := RecordsOf(policy, ok, spans), Kept(policy, ok, spans);
    RecordsFollowKeptSpans(policy, ok, spans);
    if InsertSpan(policy, ok, spans[k]) != [] {
      var j :| 0 <= j < |idx| && idx[j] == k;
      assert [records[j]] == InsertSpan(policy, ok, spans[k]);
    }
  }
}
