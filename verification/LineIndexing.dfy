/**
 A line of OCR tokens as one searchable string, and back from spans of that string to
 tokens and boxes (maskguard/detection/line_matching.py).
 */
module LineIndexing {
  import opened Collections
  import opened Models

  /** Where a token sits in the text of its line. */
  datatype Span = Span(start: nat, end: nat, token: OcrToken)

  datatype LineIndex = LineIndex(text: string, spans: seq<Span>)

  // ---------- joining ----------

  /** What goes before one more token. */
  function Glue(before: seq<OcrToken>): string { if before == [] then "" else " " }

  function Joined(line: seq<OcrToken>): string {
    if line == [] then "" else Joined(Front(line)) + Glue(Front(line)) + Last(line).text
  }

  function SpansOf(line: seq<OcrToken>): (spans: seq<Span>)
    ensures |spans| == |line|
  {
    if line == [] then []
    else SpansOf(Front(line)) + [Span(|Joined(line)| - |Last(line).text|, |Joined(line)|, Last(line))]
  }

  method BuildLineIndex(line: seq<OcrToken>) returns (index: LineIndex)
    ensures index == LineIndex(Joined(line), SpansOf(line))
  {
    var text, spans, cursor := "", [], 0;
    for i := 0 to |line|
      invariant text == Joined(line[..i]) && cursor == |text| && spans == SpansOf(line[..i])
    {
      assert Front(line[..i + 1]) == line[..i];
      if i > 0 {
        text := text + " ";
        cursor := cursor + 1;
      }
      var start := cursor;
      text := text + line[i].text;
      cursor := cursor + |line[i].text|;
      spans := spans + [Span(start, cursor, line[i])];
    }
    assert line[..|line|] == line;
    return LineIndex(text, spans);
  }

  /** Each span spells its token. */
  lemma {:induction false} SpanSpellsToken(line: seq<OcrToken>, i: nat)
    requires i < |line|
    ensures var s := SpansOf(line)[i];
            s.token == line[i] && s.start <= s.end <= |Joined(line)| && Joined(line)[s.start..s.end] == line[i].text
    decreases |line|
  {
    if i < |line| - 1 {
      SpanSpellsToken(Front(line), i);
      var s := SpansOf(line)[i];
      SliceOfFront(Joined(Front(line)), Glue(Front(line)) + Last(line).text, s.start, s.end);
      assert Joined(line) == Joined(Front(line)) + (Glue(Front(line)) + Last(line).text);
    }
  }

  lemma {:induction false} SliceOfFront(a: string, b: string, i: nat, j: nat)
    requires i <= j <= |a|
    ensures (a + b)[i..j] == a[i..j]
  {}

  /** Spans tile the text: the first starts it, the last ends it, and one space separates neighbours. */
  lemma {:induction false} SpansTile(line: seq<OcrToken>, i: nat)
    requires i < |line|
    ensures var spans, text := SpansOf(line), Joined(line);
            && spans[0].start == 0 && spans[|line| - 1].end == |text|
            && (i + 1 < |line| ==>
                  spans[i].end < |text| && text[spans[i].end] == ' ' && spans[i + 1].start == spans[i].end + 1)
    decreases |line|
  {
    if |line| > 1 {
      if i + 2 < |line| {
        SpansTile(Front(line), i);
      } else {
        SpansTile(Front(line), |line| - 2);
      }
    } else {
      assert Front(line) == [] && Joined([]) == "";
    }
  }

  // ---------- from spans to tokens ----------

  function TokensWhere(spans: seq<Span>, wanted: Span -> bool): seq<OcrToken> {
    if spans == [] then []
    else (if wanted(spans[0]) then [spans[0].token] else []) + TokensWhere(spans[1..], wanted)
  }

  function TokensForSpan(index: LineIndex, start: int, end: int): seq<OcrToken> {
    TokensWhere(index.spans, (s: Span) => s.start < end && s.end > start)
  }

  lemma {:induction false} SameTokens(spans: seq<Span>, p: Span -> bool, q: Span -> bool)
    requires forall i :: 0 <= i < |spans| ==> p(spans[i]) == q(spans[i])
    ensures TokensWhere(spans, p) == TokensWhere(spans, q)
  {
    if spans != [] {
      SameTokens(spans[1..], p, q);
    }
  }

  // ---------- merging boxes ----------

  function Hull(a: BoundingBox, b: BoundingBox): BoundingBox {
    var left, top := Min(a.x, b.x), Min(a.y, b.y);
    BoundingBox(left, top, Max(a.Right(), b.Right()) - left, Max(a.Bottom(), b.Bottom()) - top)
  }

  /** No box when there is nothing to merge, where the source raises. */
  function MergeBoundingBoxes(boxes: seq<BoundingBox>): Option<BoundingBox> {
    if boxes == [] then None
    else
      match MergeBoundingBoxes(boxes[1..])
      case None => Some(boxes[0])
      case Some(rest) => Some(Hull(boxes[0], rest))
  }

  /** The merged box is the least rectangle that contains them all. */
  lemma {:induction false} MergedIsLeast(boxes: seq<BoundingBox>, other: BoundingBox)
    ensures MergeBoundingBoxes(boxes).None? <==> boxes == []
    ensures boxes != [] ==>
              var m := MergeBoundingBoxes(boxes).value;
              && (forall i :: 0 <= i < |boxes| ==> m.Contains(boxes[i]))
              && ((forall i :: 0 <= i < |boxes| ==> other.Contains(boxes[i])) <==> other.Contains(m))
  {
    if boxes != [] {
      MergedIsLeast(boxes[1..], other);
      assert forall i :: 0 < i < |boxes| ==> boxes[i] == boxes[1..][i - 1];
    }
  }
}
