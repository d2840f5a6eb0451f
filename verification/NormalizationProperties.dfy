/**
 What the context normaliser (maskguard/detection/normalization.py) promises: nothing is
 lost or reordered, doing it twice changes nothing, it does not matter how the recogniser
 split the tokens, and matches lead back to exactly the tokens they came from.
 */
module NormalizationProperties {
  import opened Collections
  import opened Models
  import opened LineIndexing
  import opened ContextNormalization

  // ---------- idempotence ----------

  lemma {:induction false} CharsOfCons(cell: Cell, cells: seq<Cell>)
    ensures Chars([cell] + cells) == [cell.ch] + Chars(cells)
  {}

  lemma {:induction false} IdempotentScan(text: string, at: nat, prev: Option<char>, gap: bool, at': nat)
    ensures var out := Chars(Scan(text, at, prev, gap)); Chars(Scan(out, at', prev, false)) == out
    decreases |text|
  {
    if text != "" {
      if IsSpace(text[0]) {
        IdempotentScan(text[1..], at + 1, prev, true, at');
      } else {
        var ch := NormalizeChar(text[0]);
        var rest := Scan(text[1..], at + 1, Some(ch), false);
        NormalizedChar(text[0]);
        CharsOfCons(Cell(ch, at), rest);
        if gap && Separated(prev, ch) {
          IdempotentScan(text[1..], at + 1, Some(ch), false, at' + 2);
          SpacedChar(ch, Chars(rest), at', prev);
          CharsOfCons(Cell(' ', at), [Cell(ch, at)] + rest);
          assert [Cell(' ', at)] + [Cell(ch, at)] + rest == [Cell(' ', at)] + ([Cell(ch, at)] + rest);
        } else {
          IdempotentScan(text[1..], at + 1, Some(ch), false, at' + 1);
          SolidChar(ch, Chars(rest), at', prev, false);
          assert [] + [Cell(ch, at)] + rest == [Cell(ch, at)] + rest;
        }
      }
    }
  }

  /** A normalised character at the front is copied. */
  lemma {:induction false} SolidChar(ch: char, rest: string, at: nat, prev: Option<char>, gap: bool)
    requires !IsSpace(ch) && NormalizeChar(ch) == ch && !(gap && Separated(prev, ch))
    ensures Chars(Scan([ch] + rest, at, prev, gap)) == [ch] + Chars(Scan(rest, at + 1, Some(ch), false))
  {
    assert ([ch] + rest)[1..] == rest;
    CharsOfCons(Cell(ch, at), Scan(rest, at + 1, Some(ch), false));
    assert [] + [Cell(ch, at)] + Scan(rest, at + 1, Some(ch), false) ==
           [Cell(ch, at)] + Scan(rest, at + 1, Some(ch), false);
  }

  /** A needed space at the front is copied. */
  lemma {:induction false} SpacedChar(ch: char, rest: string, at: nat, prev: Option<char>)
    requires !IsSpace(ch) && NormalizeChar(ch) == ch && Separated(prev, ch)
    ensures Chars(Scan([' '] + ([ch] + rest), at, prev, false)) ==
              [' '] + ([ch] + Chars(Scan(rest, at + 2, Some(ch), false)))
  {
    assert ([' '] + ([ch] + rest))[1..] == [ch] + rest && ([ch] + rest)[1..] == rest;
    var tail := Scan(rest, at + 2, Some(ch), false);
    CharsOfCons(Cell(ch, at + 1), tail);
    CharsOfCons(Cell(' ', at + 1), [Cell(ch, at + 1)] + tail);
    assert [Cell(' ', at + 1)] + [Cell(ch, at + 1)] + tail == [Cell(' ', at + 1)] + ([Cell(ch, at + 1)] + tail);
  }

  /** Normalising a normalised text changes nothing. */
  lemma {:induction false} Idempotent(text: string)
    ensures Chars(Normalized(Chars(Normalized(text)))) == Chars(Normalized(text))
  {
    IdempotentScan(text, 0, None, false, 0);
  }

  // ---------- nothing is lost ----------

  /** The non-space cells of an output. */
  function Solid(cells: seq<Cell>): seq<Cell> {
    if cells == [] then []
    else (if IsSpace(cells[0].ch) then [] else [cells[0]]) + Solid(cells[1..])
  }

  /** The non-space characters of a text, each normalised, with their positions. */
  function Kept(text: string, at: nat): seq<Cell> {
    if text == "" then []
    else (if IsSpace(text[0]) then [] else [Cell(NormalizeChar(text[0]), at)]) + Kept(text[1..], at + 1)
  }

  lemma {:induction false} SolidCons(cell: Cell, cells: seq<Cell>)
    ensures Solid([cell] + cells) == (if IsSpace(cell.ch) then [] else [cell]) + Solid(cells)
  {
    assert ([cell] + cells)[1..] == cells;
  }

  /** Every non-space character is kept once, in order, normalised, at its own position. */
  lemma {:induction false} KeepsEverySolidCharacter(text: string, at: nat, prev: Option<char>, gap: bool)
    ensures Solid(Scan(text, at, prev, gap)) == Kept(text, at)
    decreases |text|
  {
    if text != "" {
      if IsSpace(text[0]) {
        KeepsEverySolidCharacter(text[1..], at + 1, prev, true);
      } else {
        var ch := NormalizeChar(text[0]);
        var rest := Scan(text[1..], at + 1, Some(ch), false);
        KeepsEverySolidCharacter(text[1..], at + 1, Some(ch), false);
        NormalizedChar(text[0]);
        SolidCons(Cell(ch, at), rest);
        SolidCons(Cell(' ', at), [Cell(ch, at)] + rest);
        assert [Cell(' ', at)] + [Cell(ch, at)] + rest == [Cell(' ', at)] + ([Cell(ch, at)] + rest);
        assert [] + [Cell(ch, at)] + rest == [Cell(ch, at)] + rest;
      }
    }
  }

  /** Sources lie in the text, point at non-space characters and never go backwards. */
  ghost predicate Ascending(cells: seq<Cell>, text: string, at: nat) {
    && (forall i :: 0 <= i < |cells| ==> at <= cells[i].source < at + |text| && !IsSpace(text[cells[i].source - at]))
    && (forall i, j :: 0 <= i <= j < |cells| ==> cells[i].source <= cells[j].source)
  }

  lemma {:induction false} AscendingCons(head: seq<Cell>, rest: seq<Cell>, text: string, at: nat)
    requires text != "" && Ascending(rest, text[1..], at + 1)
    requires head != [] ==> !IsSpace(text[0])
    requires forall i :: 0 <= i < |head| ==> head[i].source == at
    ensures Ascending(head + rest, text, at)
  {
    forall i | 0 <= i < |rest|
      ensures at < rest[i].source < at + |text| && !IsSpace(text[rest[i].source - at])
    {
      assert text[1..][rest[i].source - (at + 1)] == text[rest[i].source - at];
    }
  }

  lemma {:induction false} SourcesAscend(text: string, at: nat, prev: Option<char>, gap: bool)
    ensures Ascending(Scan(text, at, prev, gap), text, at)
    decreases |text|
  {
    if text != "" {
      if IsSpace(text[0]) {
        var rest := Scan(text[1..], at + 1, prev, true);
        SourcesAscend(text[1..], at + 1, prev, true);
        AscendingCons([], rest, text, at);
        assert [] + rest == rest;
      } else {
        var ch := NormalizeChar(text[0]);
        SourcesAscend(text[1..], at + 1, Some(ch), false);
        AscendingCons((if gap && Separated(prev, ch) then [Cell(' ', at)] else []) + [Cell(ch, at)],
                      Scan(text[1..], at + 1, Some(ch), false), text, at);
      }
    }
  }

  lemma {:induction false} SolidPositionIsKept(text: string, at: nat, prev: Option<char>, gap: bool, j: nat)
    returns (k: nat)
    requires j < |text| && !IsSpace(text[j])
    ensures k < |Scan(text, at, prev, gap)| && Scan(text, at, prev, gap)[k].source == at + j
    decreases |text|
  {
    var ch := NormalizeChar(text[0]);
    if IsSpace(text[0]) {
      k := SolidPositionIsKept(text[1..], at + 1, prev, true, j - 1);
    } else if j == 0 {
      k := 0;
    } else {
      k := SolidPositionIsKept(text[1..], at + 1, Some(ch), false, j - 1);
      k := k + if gap && Separated(prev, ch) then 2 else 1;
    }
  }

  // ---------- token boundaries ----------

  datatype ScanState = ScanState(prev: Option<char>, gap: bool)

  function After(text: string, s: ScanState): ScanState {
    if text == "" then s
    else After(text[1..], if IsSpace(text[0]) then s.(gap := true) else ScanState(Some(NormalizeChar(text[0])), false))
  }

  lemma {:induction false} ScanConcat(a: string, b: string, at: nat, s: ScanState)
    ensures Scan(a + b, at, s.prev, s.gap) ==
              Scan(a, at, s.prev, s.gap) + Scan(b, at + |a|, After(a, s).prev, After(a, s).gap)
    decreases |a|
  {
    if a == "" {
      assert a + b == b;
    } else {
      assert (a + b)[1..] == a[1..] + b;
      ScanConcat(a[1..], b, at + 1,
                 if IsSpace(a[0]) then s.(gap := true) else ScanState(Some(NormalizeChar(a[0])), false));
    }
  }

  lemma {:induction false} AfterSolid(text: string, s: ScanState)
    requires text != "" && !IsSpace(text[|text| - 1])
    ensures After(text, s) == ScanState(Some(NormalizeChar(text[|text| - 1])), false)
    decreases |text|
  {
    if |text| > 1 {
      AfterSolid(text[1..],
                 if IsSpace(text[0]) then s.(gap := true) else ScanState(Some(NormalizeChar(text[0])), false));
    } else {
      assert text[1..] == "";
    }
  }

  lemma {:induction false} CharsConcat(a: seq<Cell>, b: seq<Cell>)
    ensures Chars(a + b) == Chars(a) + Chars(b)
  {}

  /** Positions do not influence characters. */
  lemma {:induction false} CharsIgnorePosition(text: string, at: nat, at': nat, prev: Option<char>, gap: bool)
    ensures Chars(Scan(text, at, prev, gap)) == Chars(Scan(text, at', prev, gap))
    decreases |text|
  {
    if text != "" {
      if IsSpace(text[0]) {
        CharsIgnorePosition(text[1..], at + 1, at' + 1, prev, true);
      } else {
        var ch := NormalizeChar(text[0]);
        var sep := gap && Separated(prev, ch);
        CharsIgnorePosition(text[1..], at + 1, at' + 1, Some(ch), false);
        CharsConcat((if sep then [Cell(' ', at)] else []) + [Cell(ch, at)], Scan(text[1..], at + 1, Some(ch), false));
        CharsConcat((if sep then [Cell(' ', at')] else []) + [Cell(ch, at')],
                    Scan(text[1..], at' + 1, Some(ch), false));
      }
    }
  }

  /** What follows the boundary, read with and without a space before it. */
  lemma {:induction false} AfterTheBoundary(right: string, at: nat, p: char)
    requires right != "" && !IsSpace(right[0])
    ensures Chars(Scan(" " + right, at, Some(p), false)) == Chars(Scan(right, at, Some(p), false)) <==>
            !IsAsciiAlnum(p) && !IsAsciiAlnum(NormalizeChar(right[0]))
  {
    assert (" " + right)[1..] == right;
    GapBeforeSegment(right, at + 1, Some(p));
    CharsIgnorePosition(right, at, at + 1, Some(p), false);
    CharsConcat([Cell(' ', at + 1)], Scan(right, at + 1, Some(p), false));
  }

  /** An extra space between two non-space characters is invisible exactly when neither,
      once normalised, is an ASCII letter or digit. */
  lemma {:induction false} ExtraSpace(left: string, right: string)
    requires left != "" && !IsSpace(left[|left| - 1]) && right != "" && !IsSpace(right[0])
    ensures Chars(Normalized(left + (" " + right))) == Chars(Normalized(left + right)) <==>
            !IsAsciiAlnum(NormalizeChar(left[|left| - 1])) && !IsAsciiAlnum(NormalizeChar(right[0]))
  {
    var p, n, start := NormalizeChar(left[|left| - 1]), |left|, ScanState(None, false);
    AfterSolid(left, start);
    ScanConcat(left, right, 0, start);
    ScanConcat(left, " " + right, 0, start);
    CharsConcat(Scan(left, 0, None, false), Scan(right, n, Some(p), false));
    CharsConcat(Scan(left, 0, None, false), Scan(" " + right, n, Some(p), false));
    CommonPrefix(Chars(Scan(left, 0, None, false)), Chars(Scan(right, n, Some(p), false)),
      Chars(Scan(" " + right, n, Some(p), false)));
    AfterTheBoundary(right, n, p);
  }

  lemma {:induction false} CommonPrefix(a: string, b: string, c: string)
    ensures a + b == a + c <==> b == c
  {
    if a + b == a + c {
      assert b == (a + b)[|a|..] && c == (a + c)[|a|..];
    }
  }

  lemma {:induction false} JoinedSnoc(line: seq<OcrToken>, t: OcrToken)
    ensures Joined(line + [t]) == Joined(line) + Glue(line) + t.text
  {
    assert Front(line + [t]) == line;
  }

  function Suffix(after: seq<OcrToken>): string {
    if after == [] then "" else Suffix(Front(after)) + (" " + Last(after).text)
  }

  lemma {:induction false} JoinedConcat(x: seq<OcrToken>, y: seq<OcrToken>)
    requires x != []
    ensures Joined(x + y) == Joined(x) + Suffix(y)
    decreases |y|
  {
    if y == [] {
      assert x + y == x;
    } else {
      assert x + y == (x + Front(y)) + [Last(y)];
      JoinedSnoc(x + Front(y), Last(y));
      JoinedConcat(x, Front(y));
      RegroupText(Joined(x), Suffix(Front(y)), " ", Last(y).text);
    }
  }

  lemma {:induction false} RegroupText(a: string, b: string, c: string, d: string)
    ensures ((a + b) + c) + d == a + (b + (c + d)) == (a + b) + (c + d) == (a + (b + c)) + d
  {}

  lemma {:induction false} JoinedWhole(before: seq<OcrToken>, t: OcrToken, after: seq<OcrToken>, left: string,
        right: string)
    requires t.text == left + right
    ensures Joined(before + [t] + after) == (Joined(before) + Glue(before) + left) + (right + Suffix(after))
  {
    JoinedSnoc(before, t);
    JoinedConcat(before + [t], after);
    RegroupText(Joined(before) + Glue(before), left, right, Suffix(after));
  }

  lemma {:induction false} JoinedSplit(before: seq<OcrToken>, t: OcrToken, u: OcrToken, after: seq<OcrToken>)
    ensures Joined(before + [t, u] + after) == Joined(before) + Glue(before) + t.text + (" " + (u.text + Suffix(after)))
  {
    JoinedSnoc(before, t);
    JoinedSnoc(before + [t], u);
    assert before + [t, u] == before + [t] + [u];
    JoinedConcat(before + [t, u], after);
    RegroupText(Joined(before) + Glue(before) + t.text, " ", u.text, Suffix(after));
  }

  lemma {:induction false} EndsOf(a: string, b: string, head: string, tail: string)
    ensures a != "" ==> head + a != "" && (head + a)[|head + a| - 1] == a[|a| - 1]
    ensures b != "" ==> b + tail != "" && (b + tail)[0] == b[0]
  {}

  /** The normalised text of a line does not notice that a token was split, exactly when
      neither neighbour of the split is an ASCII letter or digit after normalisation. */
  lemma {:induction false} SplitToken(before: seq<OcrToken>, whole: OcrToken, left: OcrToken, right: OcrToken,
        after: seq<OcrToken>)
    requires whole.text == left.text + right.text
    requires left.text != "" && !IsSpace(left.text[|left.text| - 1]) && right.text != "" && !IsSpace(right.text[0])
    ensures Chars(Normalized(Joined(before + [left, right] + after))) ==
              Chars(Normalized(Joined(before + [whole] + after))) <==>
            !IsAsciiAlnum(NormalizeChar(left.text[|left.text| - 1])) && !IsAsciiAlnum(NormalizeChar(right.text[0]))
  {
    var l, r := Joined(before) + Glue(before) + left.text, right.text + Suffix(after);
    JoinedWhole(before, whole, after, left.text, right.text);
    JoinedSplit(before, left, right, after);
    EndsOf(left.text, right.text, Joined(before) + Glue(before), Suffix(after));
    ExtraSpace(l, r);
  }

  // ---------- from matches back to tokens ----------

  function TokensForNormalizedSpan(n: NormalizedLineIndex, start: int, end: int): seq<OcrToken> {
    var positions := n.sourcePositions;
    if positions == [] || start >= end then []
    else
      var s := Max(0, Min(start, |positions| - 1));
      var e := Max(s + 1, Min(end, |positions|));
      TokensForSpan(n.original, positions[s], positions[e - 1] + 1)
  }

  predicate Blank(text: string) { forall i :: 0 <= i < |text| ==> IsSpace(text[i]) }

  /** The token owns one of the positions. */
  ghost predicate Owns(span: Span, positions: seq<nat>) {
    exists k :: 0 <= k < |positions| && span.start <= positions[k] < span.end
  }

  lemma {:induction false} PositionsAscend(text: string)
    ensures var positions := Sources(Normalized(text));
            forall j, k :: 0 <= j <= k < |positions| ==> positions[j] <= positions[k]
  {
    SourcesAscend(text, 0, None, false);
    assert forall j :: 0 <= j < |Normalized(text)| ==> Sources(Normalized(text))[j] == Normalized(text)[j].source;
  }

  /** A token strictly between the ends of a range of positions owns one of them, unless it is blank. */
  lemma {:induction false} BetweenMeansOwning(line: seq<OcrToken>, i: nat, s: nat, e: nat)
    requires i < |line| && !Blank(line[i].text)
    requires s < e <= |Normalized(Joined(line))|
    requires var span, positions := SpansOf(line)[i], Sources(Normalized(Joined(line)));
             positions[s] < span.start && span.end <= positions[e - 1]
    ensures Owns(SpansOf(line)[i], Sources(Normalized(Joined(line)))[s..e])
  {
    var text := Joined(line);
    var span, positions := SpansOf(line)[i], Sources(Normalized(text));
    SpanSpellsToken(line, i);
    var x :| 0 <= x < |line[i].text| && !IsSpace(line[i].text[x]);
    assert text[span.start..span.end][x] == text[span.start + x];
    var k := SolidPositionIsKept(text, 0, None, false, span.start + x);
    PositionsAscend(text);
    assert positions[k] == span.start + x && s <= k < e;
    assert positions[s..e][k - s] == positions[k];
  }

  lemma {:induction false} OverlapMeansOwning(line: seq<OcrToken>, i: nat, s: nat, e: nat)
    requires i < |line| && !Blank(line[i].text)
    requires s < e <= |Normalized(Joined(line))|
    ensures var span, positions := SpansOf(line)[i], Sources(Normalized(Joined(line)));
            span.start < positions[e - 1] + 1 && span.end > positions[s] <==> Owns(span, positions[s..e])
  {
    var span, positions := SpansOf(line)[i], Sources(Normalized(Joined(line)));
    PositionsAscend(Joined(line));
    if span.start <= positions[e - 1] && span.end > positions[s] {
      if span.start <= positions[s] {
        assert span.start <= positions[s..e][0] < span.end;
      } else if positions[e - 1] < span.end {
        assert span.start <= positions[s..e][e - 1 - s] < span.end;
      } else {
        BetweenMeansOwning(line, i, s, e);
      }
    }
  }

  /** The tokens of a line that own a position between the `s`th and the `e`th. */
  ghost function Owners(line: seq<OcrToken>, positions: seq<nat>, s: nat, e: nat): seq<OcrToken>
    requires s <= e <= |positions|
  {
    TokensWhere(SpansOf(line), (span: Span) => Owns(span, positions[s..e]))
  }

  lemma {:induction false} HitsAreOwners(line: seq<OcrToken>, positions: seq<nat>, s: nat, e: nat)
    requires forall i :: 0 <= i < |line| ==> !Blank(line[i].text)
    requires positions == Sources(Normalized(Joined(line))) && s < e <= |positions|
    ensures TokensForSpan(LineIndex(Joined(line), SpansOf(line)), positions[s], positions[e - 1] + 1) ==
              Owners(line, positions, s, e)
  {
    var spans, from, to := SpansOf(line), positions[s], positions[e - 1] + 1;
    forall i | 0 <= i < |spans|
      ensures (spans[i].start < to && spans[i].end > from) == Owns(spans[i], positions[s..e])
    {
      OverlapMeansOwning(line, i, s, e);
    }
    SameTokens(spans, (span: Span) => span.start < to && span.end > from, (span: Span) => Owns(span, positions[s..e]));
  }

  /** What a range of the normalised text leads back to: exactly the tokens that own the
      source of one of its characters.  Ends outside the text are moved into it first. */
  lemma {:induction false} LeadsBackToOwners(line: seq<OcrToken>, n: NormalizedLineIndex, start: int, end: int)
    requires forall i :: 0 <= i < |line| ==> !Blank(line[i].text)
    requires n.sourcePositions == Sources(Normalized(Joined(line)))
    requires n.original == LineIndex(Joined(line), SpansOf(line))
    ensures TokensForNormalizedSpan(n, start, end) ==
            if n.sourcePositions == [] || start >= end then []
            else
              var s := Max(0, Min(start, |n.sourcePositions| - 1));
              Owners(line, n.sourcePositions, s, Max(s + 1, Min(end, |n.sourcePositions|)))
  {
    if n.sourcePositions != [] && start < end {
      var s := Max(0, Min(start, |n.sourcePositions| - 1));
      HitsAreOwners(line, n.sourcePositions, s, Max(s + 1, Min(end, |n.sourcePositions|)));
    }
  }
}
