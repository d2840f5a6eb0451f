/**
 Which tokens share a line (maskguard/textline.py), told without the loop: taken in reading
 order, each token joins the earliest line that it overlaps by more than half, and starts one
 when there is none.
 */
module LineFirstFit {
  import opened LineGrouping
  import opened Models

  /** The least interval that covers, top to bottom, the tokens before `n` that are on line `l`. */
  ghost predicate Extent(s: seq<OcrToken>, line: seq<nat>, n: nat, l: nat, top: int, bottom: int) {
    && n <= |s| && n <= |line|
    && (forall j :: 0 <= j < n && line[j] == l ==> top <= s[j].box.y && s[j].box.y + s[j].box.height <= bottom)
    && (exists j :: 0 <= j < n && line[j] == l && s[j].box.y == top)
    && (exists j :: 0 <= j < n && line[j] == l && s[j].box.y + s[j].box.height == bottom)
  }

  /** The token shares with the interval more than half of the lower of the two heights. */
  predicate MoreThanHalf(box: BoundingBox, top: int, bottom: int) {
    && box.height > 0 && bottom - top > 0
    && 2 * (Min(box.y + box.height, bottom) - Max(box.y, top)) > Min(box.height, bottom - top)
  }

  /** Token `n` overlaps line `l`, as it is before that token, by more than half. */
  ghost predicate Joins(s: seq<OcrToken>, line: seq<nat>, n: nat, l: nat) {
    n < |s| && exists top, bottom :: Extent(s, line, n, l, top, bottom) && MoreThanHalf(s[n].box, top, bottom)
  }

  /** Token `n` is on the line it must be on, given those before it. */
  ghost predicate Settled(s: seq<OcrToken>, line: seq<nat>, n: nat)
    requires n < |line|
  {
    && (forall l :: 0 <= l < line[n] ==> !Joins(s, line, n, l))
    && (Joins(s, line, n, line[n]) || Opens(line, n))
  }

  /** Line `line[n]` comes next after those opened before token `n`. */
  ghost predicate Opens(line: seq<nat>, n: nat)
    requires n < |line|
  {
    && (forall j :: 0 <= j < n ==> line[j] < line[n])
    && (line[n] > 0 ==> exists j :: 0 <= j < n && line[j] == line[n] - 1)
  }

  ghost predicate FirstFits(s: seq<OcrToken>, line: seq<nat>) {
    |line| == |s| && forall n :: 0 <= n < |line| ==> Settled(s, line, n)
  }

  /** The tokens on line `l`, in order. */
  function OnLine(s: seq<OcrToken>, line: seq<nat>, l: nat): seq<OcrToken>
    requires |line| == |s|
  {
    if s == [] then []
    else
      OnLine(s[..|s| - 1], line[..|s| - 1], l) + if line[|s| - 1] == l then [s[|s| - 1]] else []
  }

  // ---------- the loop, line by line ----------

  /** After the tokens `s`, the lines are those of the assignment, numbered as they were opened. */
  ghost predicate Assigned(s: seq<OcrToken>, line: seq<nat>, lines: seq<Line>) {
    && |line| == |s|
    && (forall j :: 0 <= j < |line| ==> line[j] < |lines|)
    && (forall l :: 0 <= l < |lines| ==> lines[l] == OnLine(s, line, l))
  }

  lemma {:induction false} OnLineHas(s: seq<OcrToken>, line: seq<nat>, l: nat, t: OcrToken)
    requires |line| == |s|
    ensures t in OnLine(s, line, l) <==> exists j :: 0 <= j < |s| && s[j] == t && line[j] == l
  {
    if s != [] {
      var n := |s| - 1;
      OnLineHas(s[..n], line[..n], l, t);
      if j :| 0 <= j < |s| && s[j] == t && line[j] == l {
        assert j < n ==> s[..n][j] == t && line[..n][j] == l;
      }
    }
  }

  lemma {:induction false} ExtentOfLine(s: seq<OcrToken>, line: seq<nat>, l: nat, row: Line)
    requires |line| == |s| && row == OnLine(s, line, l)
    ensures Extent(s, line, |s|, l, Top(row), Bottom(row))
  {
    ExtentCovers(row);
    forall j | 0 <= j < |s| && line[j] == l
      ensures Top(row) <= s[j].box.y && s[j].box.y + s[j].box.height <= Bottom(row)
    {
      OnLineHas(s, line, l, s[j]);
    }
    var t :| t in row && t.box.y == Top(row);
    OnLineHas(s, line, l, t);
    var u :| u in row && u.box.Bottom() == Bottom(row);
    OnLineHas(s, line, l, u);
  }

  lemma {:induction false} OneExtent(s: seq<OcrToken>, line: seq<nat>, n: nat, l: nat, top: int, bottom: int,
        top': int, bottom': int)
    requires Extent(s, line, n, l, top, bottom) && Extent(s, line, n, l, top', bottom')
    ensures top == top' && bottom == bottom'
  {}

  /** The test of the loop, in whole numbers. */
  lemma {:induction false} FitsExactly(row: Line, token: OcrToken)
    ensures Fits(row, token) <==> MoreThanHalf(token.box, Top(row), Bottom(row))
  {
    var overlap := Min(token.box.Bottom(), Bottom(row)) - Max(token.box.y, Top(row));
    var minHeight := Min(token.box.height, Bottom(row) - Top(row));
    if minHeight > 0 {
      HalfExactly(overlap, minHeight);
    }
  }

  lemma {:induction false} HalfExactly(part: int, whole: int)
    requires whole > 0
    ensures part as real / whole as real > 0.5 <==> 2 * part > whole
  {
    QuotientAbove(part as real, whole as real, 0.5);
  }

  lemma {:induction false} QuotientAbove(x: real, w: real, bound: real)
    requires w > 0.0
    ensures x / w > bound <==> x > bound * w
  {
    var q := x / w;
    assert q * w == x;
    if q > bound {
      assert (q - bound) * w > 0.0;
    } else {
      assert (bound - q) * w >= 0.0;
    }
  }

  lemma {:induction false} ExtentInLonger(s: seq<OcrToken>, line: seq<nat>, t: OcrToken, i: nat, n: nat, l: nat,
        top: int, bottom: int)
    requires |line| == |s| && n <= |s|
    ensures Extent(s + [t], line + [i], n, l, top, bottom) <==> Extent(s, line, n, l, top, bottom)
  {
    assert forall j :: 0 <= j < n ==> (s + [t])[j] == s[j] && (line + [i])[j] == line[j];
  }

  lemma {:induction false} JoinsExactly(s: seq<OcrToken>, line: seq<nat>, lines: seq<Line>, t: OcrToken, i: nat, l: nat)
    requires Assigned(s, line, lines) && l < |lines|
    ensures Joins(s + [t], line + [i], |s|, l) <==> Fits(lines[l], t)
  {
    ExtentOfLine(s, line, l, lines[l]);
    FitsExactly(lines[l], t);
    ExtentInLonger(s, line, t, i, |s|, l, Top(lines[l]), Bottom(lines[l]));
    if Joins(s + [t], line + [i], |s|, l) {
      var top, bottom :| Extent(s + [t], line + [i], |s|, l, top, bottom) && MoreThanHalf(t.box, top, bottom);
      ExtentInLonger(s, line, t, i, |s|, l, top, bottom);
      OneExtent(s, line, |s|, l, top, bottom, Top(lines[l]), Bottom(lines[l]));
    }
  }

  lemma {:induction false} SettledInLonger(s: seq<OcrToken>, line: seq<nat>, t: OcrToken, i: nat)
    requires FirstFits(s, line)
    ensures forall n :: 0 <= n < |s| ==> Settled(s + [t], line + [i], n)
  {
    forall n | 0 <= n < |s|
      ensures Settled(s + [t], line + [i], n)
    {
      assert Settled(s, line, n);
      assert (line + [i])[n] == line[n] && (s + [t])[n] == s[n];
      forall l: nat
        ensures Joins(s + [t], line + [i], n, l) <==> Joins(s, line, n, l)
      {
        JoinsInLonger(s, line, t, i, n, l);
      }
      assert forall j :: 0 <= j < n ==> (line + [i])[j] == line[j];
    }
  }

  lemma {:induction false} JoinsInLonger(s: seq<OcrToken>, line: seq<nat>, t: OcrToken, i: nat, n: nat, l: nat)
    requires |line| == |s| && n < |s|
    ensures Joins(s + [t], line + [i], n, l) <==> Joins(s, line, n, l)
  {
    assert (s + [t])[n] == s[n];
    forall top: int, bottom: int
      ensures Extent(s + [t], line + [i], n, l, top, bottom) <==> Extent(s, line, n, l, top, bottom)
    {
      ExtentInLonger(s, line, t, i, n, l, top, bottom);
    }
  }

  lemma {:induction false} OnLineOneMore(s: seq<OcrToken>, line: seq<nat>, t: OcrToken, i: nat, l: nat)
    requires |line| == |s|
    ensures OnLine(s + [t], line + [i], l) == OnLine(s, line, l) + if i == l then [t] else []
  {
    assert (s + [t])[..|s|] == s && (line + [i])[..|s|] == line;
  }

  lemma {:induction false} EmptyLine(s: seq<OcrToken>, line: seq<nat>, l: nat)
    requires |line| == |s| && forall j :: 0 <= j < |line| ==> line[j] != l
    ensures OnLine(s, line, l) == []
  {
    if s != [] {
      EmptyLine(s[..|s| - 1], line[..|s| - 1], l);
    }
  }

  /** All lines have been opened in turn. */
  ghost predicate AllOpened(line: seq<nat>, count: nat) {
    && (forall j :: 0 <= j < |line| ==> line[j] < count)
    && (count > 0 ==> exists j :: 0 <= j < |line| && line[j] == count - 1)
  }

  lemma {:induction false} FirstThatFits(lines: seq<Line>, t: OcrToken) returns (i: nat)
    ensures i <= |lines| && (forall k :: 0 <= k < i ==> !Fits(lines[k], t)) && (i < |lines| ==> Fits(lines[i], t))
  {
    i := 0;
    while i < |lines| && !Fits(lines[i], t)
      invariant i <= |lines| && forall k :: 0 <= k < i ==> !Fits(lines[k], t)
    {
      i := i + 1;
    }
  }

  /** The token goes where the loop puts it. */
  lemma {:induction false} OneMoreAssigned(s: seq<OcrToken>, line: seq<nat>, lines: seq<Line>, t: OcrToken)
    returns (i: nat)
    requires Assigned(s, line, lines) && FirstFits(s, line) && AllOpened(line, |lines|)
    ensures Assigned(s + [t], line + [i], Placed(lines, t))
    ensures FirstFits(s + [t], line + [i]) && AllOpened(line + [i], |Placed(lines, t)|)
  {
    i := FirstThatFits(lines, t);
    PlacedThere(lines, t, i);
    AssignedThere(s, line, lines, t, i);
    SettledThere(s, line, lines, t, i);
    FirstFitsOneMore(s, line, t, i);
    OpenedThere(line, |lines|, i);
  }

  lemma {:induction false} FirstFitsOneMore(s: seq<OcrToken>, line: seq<nat>, t: OcrToken, i: nat)
    requires FirstFits(s, line) && Settled(s + [t], line + [i], |s|)
    ensures FirstFits(s + [t], line + [i])
  {
    SettledInLonger(s, line, t, i);
  }

  lemma {:induction false} PlacedThere(lines: seq<Line>, t: OcrToken, i: nat)
    requires i <= |lines| && (forall k :: 0 <= k < i ==> !Fits(lines[k], t)) && (i < |lines| ==> Fits(lines[i], t))
    ensures Placed(lines, t) == if i < |lines| then lines[i := lines[i] + [t]] else lines + [[t]]
  {
    if i < |lines| {
      FirstFit(lines, t, i);
    } else {
      NoFit(lines, t);
    }
  }

  lemma {:induction false} AssignedThere(s: seq<OcrToken>, line: seq<nat>, lines: seq<Line>, t: OcrToken, i: nat)
    requires Assigned(s, line, lines) && i <= |lines|
    ensures Assigned(s + [t], line + [i], if i < |lines| then lines[i := lines[i] + [t]] else lines + [[t]])
  {
    forall l: nat
      ensures OnLine(s + [t], line + [i], l) == OnLine(s, line, l) + if i == l then [t] else []
    {
      OnLineOneMore(s, line, t, i, l);
    }
    if i == |lines| {
      EmptyLine(s, line, i);
    }
  }

  lemma {:induction false} SettledThere(s: seq<OcrToken>, line: seq<nat>, lines: seq<Line>, t: OcrToken, i: nat)
    requires Assigned(s, line, lines) && AllOpened(line, |lines|)
    requires i <= |lines| && (forall k :: 0 <= k < i ==> !Fits(lines[k], t)) && (i < |lines| ==> Fits(lines[i], t))
    ensures Settled(s + [t], line + [i], |s|)
  {
    var more := line + [i];
    assert more[|s|] == i && forall j :: 0 <= j < |s| ==> more[j] == line[j];
    forall l: nat | l < |lines|
      ensures Joins(s + [t], more, |s|, l) <==> Fits(lines[l], t)
    {
      JoinsExactly(s, line, lines, t, i, l);
    }
    if i == |lines| && i > 0 {
      var j :| 0 <= j < |line| && line[j] == i - 1;
      assert more[j] == i - 1;
    }
  }

  lemma {:induction false} OpenedThere(line: seq<nat>, count: nat, i: nat)
    requires AllOpened(line, count) && i <= count
    ensures AllOpened(line + [i], if i < count then count else count + 1)
  {
    var more := line + [i];
    assert more[|line|] == i && forall j :: 0 <= j < |line| ==> more[j] == line[j];
    if i < count {
      var j :| 0 <= j < |line| && line[j] == count - 1;
      assert more[j] == count - 1;
    }
  }

  lemma {:induction false} AllAssigned(s: seq<OcrToken>) returns (line: seq<nat>)
    ensures Assigned(s, line, PlacedAll(s)) && FirstFits(s, line) && AllOpened(line, |PlacedAll(s)|)
    decreases |s|
  {
    if s == [] {
      line := [];
    } else {
      var front, t := s[..|s| - 1], s[|s| - 1];
      assert s == front + [t];
      line := AllAssigned(front);
      var i := OneMoreAssigned(front, line, PlacedAll(front), t);
      line := line + [i];
    }
  }

  // ---------- the lines that come out ----------

  /** From top to bottom, and from left to right where the top edges are equal. */
  ghost predicate InReadingOrder(s: seq<OcrToken>) {
    forall i, j :: 0 <= i < j < |s| ==>
      s[i].box.y < s[j].box.y || (s[i].box.y == s[j].box.y && s[i].box.x <= s[j].box.x)
  }

  /** The lines of an assignment, in the order in which they were opened. */
  function LinesOf(s: seq<OcrToken>, line: seq<nat>, count: nat): seq<seq<OcrToken>>
    requires |line| == |s|
  {
    seq(count, l requires 0 <= l < count => OnLine(s, line, l))
  }

  /** `s` are the tokens in reading order, and `line` says which line each is on. */
  ghost predicate Explains(tokens: seq<OcrToken>, s: seq<OcrToken>, line: seq<nat>, lines: seq<Line>) {
    && multiset(s) == multiset(tokens) && InReadingOrder(s) && FirstFits(s, line) && AllOpened(line, |lines|)
    && lines == LinesOf(s, line, |lines|)
  }

  /** The lines returned are those of the first-fit assignment of the tokens in reading order,
      each sorted from left to right; `LinesInOrder` says in which order. */
  lemma {:induction false} GroupedByFirstFit(tokens: seq<OcrToken>)
    returns (s: seq<OcrToken>, line: seq<nat>, lines: seq<Line>)
    ensures Explains(tokens, s, line, lines)
    ensures multiset(Grouped(tokens)) == multiset(SortEach(lines))
  {
    s := Sort(tokens, READING_ORDER);
    SortSorted(tokens, READING_ORDER);
    forall i, j | 0 <= i < j < |s|
      ensures s[i].box.y < s[j].box.y || (s[i].box.y == s[j].box.y && s[i].box.x <= s[j].box.x)
    {
      assert READING_ORDER(s[i], s[j]);
    }
    line := AllAssigned(s);
    lines := PlacedAll(s);
    assert lines == LinesOf(s, line, |lines|);
  }

  /** The two tokens come out on one line. */
  ghost predicate Share(tokens: seq<OcrToken>, a: OcrToken, b: OcrToken) {
    exists row :: row in Grouped(tokens) && a in row && b in row
  }

  lemma {:induction false} SameMembers<T>(a: seq<T>, b: seq<T>, x: T)
    requires multiset(a) == multiset(b)
    ensures x in a <==> x in b
  {
    assert x in multiset(a) <==> x in multiset(b);
  }

  lemma {:induction false} OneLineShares(tokens: seq<OcrToken>, s: seq<OcrToken>, line: seq<nat>, lines: seq<Line>,
        p: nat, q: nat)
    requires Explains(tokens, s, line, lines) && multiset(Grouped(tokens)) == multiset(SortEach(lines))
    requires p < |s| && q < |s| && line[p] == line[q]
    ensures Share(tokens, s[p], s[q])
  {
    var l := line[p];
    var row := SortEach(lines)[l];
    SameMembers(Grouped(tokens), SortEach(lines), row);
    OnLineHas(s, line, l, s[p]);
    OnLineHas(s, line, l, s[q]);
    SameMembers(row, lines[l], s[p]);
    SameMembers(row, lines[l], s[q]);
  }

  lemma {:induction false} LineOfRow(tokens: seq<OcrToken>, s: seq<OcrToken>, line: seq<nat>, lines: seq<Line>,
        row: Line) returns (l: nat)
    requires Explains(tokens, s, line, lines) && multiset(Grouped(tokens)) == multiset(SortEach(lines))
    requires row in Grouped(tokens)
    ensures forall t :: t in row ==> exists j :: 0 <= j < |s| && s[j] == t && line[j] == l
  {
    SameMembers(Grouped(tokens), SortEach(lines), row);
    l :| 0 <= l < |SortEach(lines)| && SortEach(lines)[l] == row;
    forall t | t in row
      ensures exists j :: 0 <= j < |s| && s[j] == t && line[j] == l
    {
      SameMembers(row, lines[l], t);
      OnLineHas(s, line, l, t);
    }
  }

  /** When no token is there twice, tokens on different lines do not share one. */
  lemma {:induction false} TwoLinesDoNot(tokens: seq<OcrToken>, s: seq<OcrToken>, line: seq<nat>, lines: seq<Line>,
        p: nat, q: nat)
    requires Explains(tokens, s, line, lines) && multiset(Grouped(tokens)) == multiset(SortEach(lines))
    requires p < |s| && q < |s| && line[p] != line[q] && forall i, j :: 0 <= i < j < |s| ==> s[i] != s[j]
    ensures !Share(tokens, s[p], s[q])
  {
    if Share(tokens, s[p], s[q]) {
      var row :| row in Grouped(tokens) && s[p] in row && s[q] in row;
      var l := LineOfRow(tokens, s, line, lines, row);
      assert false;
    }
  }

  // ---------- tokens side by side ----------

  /** Two tokens next to each other in reading order, equally high and at one height. */
  lemma {:induction false} NextShares(s: seq<OcrToken>, line: seq<nat>, n: nat)
    requires FirstFits(s, line) && n + 1 < |s|
    requires s[n].box.y == s[n + 1].box.y && s[n].box.height == s[n + 1].box.height > 0
    ensures line[n + 1] == line[n]
  {
    var l := line[n];
    assert Settled(s, line, n) && Settled(s, line, n + 1);
    if line[n + 1] < l && Joins(s, line, n + 1, line[n + 1]) {
      JoinsEither(s, line, n, line[n + 1]);
    }
    ExtentWithIt(s, line, n);
  }

  lemma {:induction false} JoinsEither(s: seq<OcrToken>, line: seq<nat>, n: nat, k: nat)
    requires |line| == |s| && n + 1 < |s| && k != line[n] && Joins(s, line, n + 1, k)
    requires s[n].box.y == s[n + 1].box.y && s[n].box.height == s[n + 1].box.height
    ensures Joins(s, line, n, k)
  {
    var top, bottom :| Extent(s, line, n + 1, k, top, bottom) && MoreThanHalf(s[n + 1].box, top, bottom);
    assert Extent(s, line, n, k, top, bottom);
  }

  lemma {:induction false} ExtentWithIt(s: seq<OcrToken>, line: seq<nat>, n: nat)
    requires |line| == |s| && n + 1 < |s|
    requires s[n].box.y == s[n + 1].box.y && s[n].box.height == s[n + 1].box.height > 0
    ensures Joins(s, line, n + 1, line[n])
  {
    var top, bottom := SomeExtent(s, line, n + 1, n);
    assert MoreThanHalf(s[n + 1].box, top, bottom);
  }

  lemma {:induction false} SomeExtent(s: seq<OcrToken>, line: seq<nat>, n: nat, m: nat)
    returns (top: int, bottom: int)
    requires |line| == |s| && m < n <= |s|
    ensures Extent(s, line, n, line[m], top, bottom)
    ensures top <= s[m].box.y && s[m].box.y + s[m].box.height <= bottom
    decreases n
  {
    var j := n - 1;
    if j == m {
      if k :| 0 <= k < j && line[k] == line[m] {
        top, bottom := SomeExtent(s, line, j, k);
        top, bottom := Min(top, s[j].box.y), Max(bottom, s[j].box.y + s[j].box.height);
      } else {
        top, bottom := s[j].box.y, s[j].box.y + s[j].box.height;
      }
    } else {
      top, bottom := SomeExtent(s, line, j, m);
      if line[j] == line[m] {
        top, bottom := Min(top, s[j].box.y), Max(bottom, s[j].box.y + s[j].box.height);
      }
    }
  }

  lemma {:induction false} RowShares(s: seq<OcrToken>, line: seq<nat>, p: nat, q: nat)
    requires FirstFits(s, line) && p <= q < |s| && InReadingOrder(s) && s[p].box.y == s[q].box.y
    requires s[p].box.height > 0
    requires forall k :: 0 <= k < |s| && s[k].box.y == s[p].box.y ==> s[k].box.height == s[p].box.height
    ensures line[q] == line[p]
    decreases q
  {
    if p < q {
      RowShares(s, line, p, q - 1);
      NextShares(s, line, q - 1);
    }
  }

  /** Tokens with one top edge and one positive height share a line, if every token with that
      top edge has that height. */
  lemma {:induction false} SideBySideShare(tokens: seq<OcrToken>, a: OcrToken, b: OcrToken)
    requires a in tokens && b in tokens && a.box.y == b.box.y && a.box.height > 0
    requires forall t :: t in tokens && t.box.y == a.box.y ==> t.box.height == a.box.height
    ensures Share(tokens, a, b)
  {
    var s, line, lines := GroupedByFirstFit(tokens);
    SameMembers(s, tokens, a);
    SameMembers(s, tokens, b);
    var p :| 0 <= p < |s| && s[p] == a;
    var q :| 0 <= q < |s| && s[q] == b;
    forall k | 0 <= k < |s| && s[k].box.y == a.box.y
      ensures s[k].box.height == a.box.height
    {
      SameMembers(s, tokens, s[k]);
    }
    if p <= q {
      RowShares(s, line, p, q);
    } else {
      RowShares(s, line, q, p);
    }
    OneLineShares(tokens, s, line, lines, p, q);
  }

  // ---------- and tokens that are parted ----------

  /** A line above, and on its lower edge three tokens with one top edge, the middle one lower. */
  predicate Parted(s: seq<OcrToken>) {
    && |s| == 4
    && s[0].box == BoundingBox(0, 0, 10, 10) && s[1].box == BoundingBox(0, 6, 10, 10)
    && s[2].box == BoundingBox(20, 6, 10, 7) && s[3].box == BoundingBox(40, 6, 10, 10)
  }

  lemma {:induction false} PartedLines(s: seq<OcrToken>, line: seq<nat>)
    requires Parted(s) && FirstFits(s, line)
    ensures line[1] != line[3]
  {
    assert Settled(s, line, 0) && Settled(s, line, 1) && Settled(s, line, 2) && Settled(s, line, 3);
    assert line[0] == 0;
    OnlyExtent(s, line, 1, 0, 0, 10);
    assert !Joins(s, line, 1, 0) && line[1] == 1;
    OnlyExtent(s, line, 2, 0, 0, 10);
    assert Joins(s, line, 2, 0) && line[2] == 0;
    OnlyExtent(s, line, 3, 0, 0, 13);
    assert Joins(s, line, 3, 0);
  }

  lemma {:induction false} OnlyExtent(s: seq<OcrToken>, line: seq<nat>, n: nat, l: nat, top: int, bottom: int)
    requires n < |s| && Extent(s, line, n, l, top, bottom)
    ensures Joins(s, line, n, l) <==> MoreThanHalf(s[n].box, top, bottom)
  {}

  /** A lower token between two equal ones can lower a line so that it takes the second and not
      the first: equal top edges and heights are not enough. */
  lemma {:induction false} EqualButParted(tokens: seq<OcrToken>)
    requires Parted(tokens)
    ensures tokens[1].box.y == tokens[3].box.y && tokens[1].box.height == tokens[3].box.height
    ensures !Share(tokens, tokens[1], tokens[3])
  {
    var s, line, lines := GroupedByFirstFit(tokens);
    PartedInOrder(tokens);
    OneReadingOrder(s, tokens);
    PartedLines(s, line);
    TwoLinesDoNot(tokens, s, line, lines, 1, 3);
  }

  ghost predicate Strictly(s: seq<OcrToken>) {
    forall i, j :: 0 <= i < j < |s| ==>
      s[i] != s[j] && (s[i].box.y < s[j].box.y || (s[i].box.y == s[j].box.y && s[i].box.x < s[j].box.x))
  }

  lemma {:induction false} PartedInOrder(s: seq<OcrToken>)
    requires Parted(s)
    ensures Strictly(s)
  {}

  /** Tokens without equal corners have one reading order. */
  lemma {:induction false} OneReadingOrder(a: seq<OcrToken>, b: seq<OcrToken>)
    requires multiset(a) == multiset(b) && InReadingOrder(a) && Strictly(b)
    ensures a == b
  {
    SortedIsUnique(b, a, READING_ORDER);
  }
}
