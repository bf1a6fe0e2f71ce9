/** Writing one span onto the target page, and the records a run of spans
    leaves behind. The library's `insert_text` is an oracle `ok(font, span)`
    that says whether writing `span` in `font` succeeds; a success appends one
    record to the page, a failure (an exception in the program) appends
    nothing. */
module Insertion {
  import opened Text
  import opened Fonts
  import opened Layout
  import opened Runs

  /** An RGB color, as the integer triple the program passes. */
  datatype Color = Rgb(r: int, g: int, b: int)

  /** Every span is written in black (app.py:39, processor.py:73). */
  const Black: Color := Rgb(0, 0, 0)

  /** Text written on a target page: where, what, how large, in which font
      and color. */
  datatype Record = Record(origin: Point, text: string, size: real, font: FontId, color: Color)

  /** The two failure policies of the program: app.py gives up on a span after
      one failed attempt (app.py:33-42); processor.py retries once with the
      generic "sans-serif" family before giving up (processor.py:67-81). */
  datatype Policy = SingleTry | RetryOnce

  /** Whether the library accepts `span` written in the given font. */
  type Oracle = (FontId, Span) -> bool

  /** The record writing `span` in `font` produces: the span's own origin,
      text and size, in black. */
  function RecordFor(span: Span, font: FontId): (r: Record)
    ensures r.origin == span.origin && r.text == span.text && r.size == span.size
    ensures r.font == font && r.color == Black
  {
    Record(span.origin, span.text, span.size, font, Black)
  }

  /** The fonts tried for `span`, in order. A blank span is never tried. */
  function Attempts(policy: Policy, ok: Oracle, span: Span): (tried: seq<FontId>)
    ensures |tried| <= 2
    ensures policy == SingleTry ==> |tried| <= 1
    ensures tried == [] <==> !Visible(span)
    ensures tried != [] ==> tried[0] == Classify(span.font)
    ensures |tried| == 2 ==> tried[1] == SansSerif
    ensures policy == RetryOnce && Visible(span) && !ok(Classify(span.font), span) ==> |tried| == 2
    ensures forall i :: 0 <= i < |tried| - 1 ==> !ok(tried[i], span)
  {
    if !Visible(span) then []
    else
      var font := Classify(span.font);
      match policy
      case SingleTry => [font]
      case RetryOnce => if ok(font, span) then [font] else [font, SansSerif]
  }

  /** Writing one span, following the program's control flow: skip blank
      text; try the classified font; on failure either give up (app.py) or
      try "sans-serif" once and give up if that fails too (processor.py).
      The result is what the attempt appends to the page. */
  function InsertSpan(policy: Policy, ok: Oracle, span: Span): (appended: seq<Record>)
    ensures |appended| <= 1
    ensures |appended| == 1 <==> Visible(span) && (ok(Classify(span.font), span) || (policy == RetryOnce && ok(SansSerif, span)))
    ensures |appended| == 1 ==> ok(appended[0].font, span) && appended[0] == RecordFor(span, appended[0].font)
    ensures |appended| == 1 && appended[0].font != Classify(span.font) ==>
      policy == RetryOnce && appended[0].font == SansSerif && !ok(Classify(span.font), span)
  {
    var content := span.text;
    if |content| == 0 || Strip(content) == [] then
      StripEmptyIffBlank(content);
      []
    else
      StripEmptyIffBlank(content);
      var font := Classify(span.font);
      if ok(font, span) then [RecordFor(span, font)]
      else match policy
        case SingleTry => []
        case RetryOnce => if ok(SansSerif, span) then [RecordFor(span, SansSerif)] else []
  }

  /** A span ends up written exactly when one of the fonts tried for it was
      accepted, and then it is written in the last font tried; when it is
      dropped, every attempt failed. */
  lemma WrittenWithLastAttempt(policy: Policy, ok: Oracle, span: Span)
    ensures var tried, appended := Attempts(policy, ok, span), InsertSpan(policy, ok, span);
      && (appended != [] <==> exists i :: 0 <= i < |tried| && ok(tried[i], span))
      && (appended != [] ==> appended[0].font == tried[|tried| - 1])
  {
    var tried, appended := Attempts(policy, ok, span), InsertSpan(policy, ok, span);
    if Visible(span) {
      var font := Classify(span.font);
      StripEmptyIffBlank(span.text);
      if ok(font, span) {
        assert tried == [font] && ok(tried[0], span);
        assert appended == [RecordFor(span, font)];
      } else if policy == SingleTry {
        assert tried == [font] && appended == [];
      } else {
        assert tried == [font, SansSerif];
        assert appended != [] <==> ok(tried[1], span);
      }
    }
  }

  /** A span whose text is empty or whitespace leaves the page as it was. */
  lemma BlankSpanWritesNothing(policy: Policy, ok: Oracle, span: Span)
    requires IsBlank(span.text)
    ensures InsertSpan(policy, ok, span) == []
  {
  }

  /** Retrying never loses a span the single try would have written, and
      writes it identically. */
  lemma RetryKeepsSingleTry(ok: Oracle, span: Span)
    requires InsertSpan(SingleTry, ok, span) != []
    ensures InsertSpan(RetryOnce, ok, span) == InsertSpan(SingleTry, ok, span)
  {
  }

  /** A visible span is dropped by the retrying policy only when both the
      classified font and "sans-serif" were refused. */
  lemma RetryDropsOnlyOnDoubleFailure(ok: Oracle, span: Span)
    requires Visible(span)
    ensures InsertSpan(RetryOnce, ok, span) == [] <==> !ok(Classify(span.font), span) && !ok(SansSerif, span)
  {
  }

  // ---------------------------------------------------------------------
  // Runs of spans

  /** Inserting spans with a fixed policy and oracle, as one function. */
  function Writer(policy: Policy, ok: Oracle): Span -> seq<Record> {
    span => InsertSpan(policy, ok, span)
  }

  /** The records appended to a page by inserting `spans` one after another:
      at most one per span, and none at all when every span is blank. */
  function RecordsOf(policy: Policy, ok: Oracle, spans: seq<Span>): (records: seq<Record>)
    ensures |records| <= |spans|
    ensures (forall i :: 0 <= i < |spans| ==> !Visible(spans[i])) ==> records == []
  {
    var w := Writer(policy, ok);
    assert forall x :: |w(x)| <= 1;
    ConcatShort(w, spans);
    var out := Concat(w, spans);
    if out == [] then out
    else
      InConcat(w, spans, out[0]);
      out
  }

  /** The indices of the spans that end up written, in increasing order. */
  function Kept(policy: Policy, ok: Oracle, spans: seq<Span>): seq<nat> {
    Hits(Writer(policy, ok), spans)
  }

  /** The records on a page correspond one-to-one, in order, to the spans
      whose insertion succeeded: record `j` is span `Kept[j]` written out,
      every successful span has its record, and no span is written twice. */
  lemma RecordsFollowKeptSpans(policy: Policy, ok: Oracle, spans: seq<Span>)
    ensures var records, idx := RecordsOf(policy, ok, spans), Kept(policy, ok, spans);
      && |records| == |idx|
      && StrictlyIncreasingBelow(idx, |spans|)
      && (forall i :: 0 <= i < |spans| ==> (i in idx <==> InsertSpan(policy, ok, spans[i]) != []))
      && (forall j :: 0 <= j < |idx| ==> [records[j]] == InsertSpan(policy, ok, spans[idx[j]]))
  {
    var w := Writer(policy, ok);
    HitsIncreasing(w, spans);
    HitsExactly(w, spans);
    assert forall x :: |w(x)| <= 1;
    ConcatAtHits(w, spans);
  }

  /** Inserting two runs of spans one after the other appends the records of
      the first run, then those of the second. */
  lemma RecordsOfAppend(policy: Policy, ok: Oracle, a: seq<Span>, b: seq<Span>)
    ensures RecordsOf(policy, ok, a + b) == RecordsOf(policy, ok, a) + RecordsOf(policy, ok, b)
  {
    ConcatAppend(Writer(policy, ok), a, b);
  }

  /** Every record on a page is black, has visible text, and copies the text,
      origin and size of some span of the input. */
  lemma RecordsComeFromVisibleSpans(policy: Policy, ok: Oracle, spans: seq<Span>)
    ensures forall r :: r in RecordsOf(policy, ok, spans) ==>
      && r.color == Black
      && !IsBlank(r.text)
      && exists s :: s in spans && Visible(s) && r.text == s.text && r.origin == s.origin && r.size == s.size
  {
    var records, idx := RecordsOf(policy, ok, spans), Kept(policy, ok, spans);
    RecordsFollowKeptSpans(policy, ok, spans);
    forall r | r in records
      ensures r.color == Black && !IsBlank(r.text)
      ensures exists s :: s in spans && Visible(s) && r.text == s.text && r.origin == s.origin && r.size == s.size
    {
      var j :| 0 <= j < |records| && records[j] == r;
      var s := spans[idx[j]];
      assert [r] == InsertSpan(policy, ok, s);
      assert s in spans;
    }
  }
}
