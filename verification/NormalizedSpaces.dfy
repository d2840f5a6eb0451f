/** Where the output of the context normaliser has spaces (maskguard/detection/normalization.py). */
module NormalizedSpaces {
  import opened ContextNormalization
  import opened Models

  predicate IsSolid(cell: Cell) { !IsSpace(cell.ch) }

  predicate Word(a: Cell, b: Cell) { LetterOrDigit(a.ch) || LetterOrDigit(b.ch) }

  /** Neighbours without a space between them, and neighbours with one. */
  predicate Together(a: Cell, b: Cell) { b.source == a.source + 1 || (b.source > a.source && !Word(a, b)) }

  predicate Parted(a: Cell, b: Cell) { b.source > a.source + 1 && Word(a, b) }

  /** Cell `k` and the next are together if both are characters; a space stands alone between two
      characters that are apart. */
  predicate SpacedAt(cells: seq<Cell>, k: nat)
    requires k < |cells|
  {
    if IsSolid(cells[k]) then
      k + 1 < |cells| && IsSolid(cells[k + 1]) ==> Together(cells[k], cells[k + 1])
    else
      && 0 < k < |cells| - 1 && cells[k] == Cell(' ', cells[k + 1].source)
      && IsSolid(cells[k - 1]) && IsSolid(cells[k + 1]) && Parted(cells[k - 1], cells[k + 1])
  }

  /** A space stands between two kept characters exactly when they were apart and one of them is
      an ASCII letter or digit, and it stands nowhere else. */
  ghost predicate Spaced(cells: seq<Cell>) { forall k :: 0 <= k < |cells| ==> SpacedAt(cells, k) }

  lemma {:induction false} SpacedShift(head: seq<Cell>, cells: seq<Cell>, k: nat)
    requires k < |cells| && SpacedAt(cells, k)
    ensures SpacedAt(head + cells, |head| + k)
  {
    var all := head + cells;
    assert all[|head| + k] == cells[k];
    assert k + 1 < |cells| ==> all[|head| + k + 1] == cells[k + 1];
    assert k > 0 ==> all[|head| + k - 1] == cells[k - 1];
  }

  lemma {:induction false} SpacedConcat(head: seq<Cell>, cells: seq<Cell>)
    requires Spaced(cells) && forall k :: 0 <= k < |head| ==> SpacedAt(head + cells, k)
    ensures Spaced(head + cells)
  {
    forall k | 0 <= k < |head + cells|
      ensures SpacedAt(head + cells, k)
    {
      if k >= |head| {
        SpacedShift(head, cells, k - |head|);
      }
    }
  }

  lemma {:induction false} SpacedCons(a: Cell, cells: seq<Cell>)
    requires Spaced(cells) && IsSolid(a)
    requires cells != [] ==> IsSolid(cells[0]) && Together(a, cells[0])
    ensures Spaced([a] + cells)
  {
    assert cells != [] ==> ([a] + cells)[1] == cells[0];
    SpacedConcat([a], cells);
  }

  lemma {:induction false} SpacedConsSpace(a: Cell, space: Cell, cells: seq<Cell>)
    requires cells != [] && Spaced(cells) && IsSolid(cells[0]) && IsSolid(a) && Parted(a, cells[0])
    requires space == Cell(' ', cells[0].source)
    ensures Spaced([a, space] + cells)
  {
    assert ([a, space] + cells)[2] == cells[0];
    SpacedConcat([a, space], cells);
  }

  lemma {:induction false} ScanSpaced(text: string, at: nat, a: Cell, gap: bool)
    requires IsSolid(a) && a.source < at && (gap <==> a.source + 1 < at)
    ensures Spaced([a] + Scan(text, at, Some(a.ch), gap))
    decreases |text|
  {
    if text == "" {
      SpacedCons(a, []);
    } else if IsSpace(text[0]) {
      ScanSpaced(text[1..], at + 1, a, true);
    } else {
      var c := Cell(NormalizeChar(text[0]), at);
      NormalizedChar(text[0]);
      ScanSpaced(text[1..], at + 1, c, false);
      OneMoreSpaced(text, at, a, gap, c, Scan(text[1..], at + 1, Some(c.ch), false));
    }
  }

  lemma {:induction false} OneMoreSpaced(text: string, at: nat, a: Cell, gap: bool, c: Cell, rest: seq<Cell>)
    requires IsSolid(a) && a.source < at && (gap <==> a.source + 1 < at)
    requires text != "" && !IsSpace(text[0]) && c == Cell(NormalizeChar(text[0]), at) && IsSolid(c)
    requires rest == Scan(text[1..], at + 1, Some(c.ch), false) && Spaced([c] + rest)
    ensures Spaced([a] + Scan(text, at, Some(a.ch), gap))
  {
    var space := Cell(' ', at);
    if gap && Separated(Some(a.ch), c.ch) {
      SpacedConsSpace(a, space, [c] + rest);
      assert [a] + ([space] + [c] + rest) == [a, space] + ([c] + rest);
    } else {
      SpacedCons(a, [c] + rest);
      assert [] + [c] + rest == [c] + rest;
    }
  }

  lemma {:induction false} LeadingSpaced(text: string, at: nat, gap: bool)
    ensures Spaced(Scan(text, at, None, gap))
    decreases |text|
  {
    if text != "" {
      if IsSpace(text[0]) {
        LeadingSpaced(text[1..], at + 1, true);
      } else {
        var c := Cell(NormalizeChar(text[0]), at);
        NormalizedChar(text[0]);
        ScanSpaced(text[1..], at + 1, c, false);
        var rest := Scan(text[1..], at + 1, Some(c.ch), false);
        assert [] + [c] + rest == [c] + rest;
      }
    }
  }

  /** Where the output has spaces, and where it has none. */
  lemma {:induction false} SpacesExactly(text: string)
    ensures Spaced(Normalized(text))
  {
    LeadingSpaced(text, 0, false);
  }
}
