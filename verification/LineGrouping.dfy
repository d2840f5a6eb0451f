/**
 Grouping OCR tokens into reading-order lines (maskguard/textline.py).

 `GroupIntoLines` is the loop, `Grouped` what it computes.  No token is lost or repeated,
 lines and their tokens come out in order, and the order of the input does not matter.
 */
module LineGrouping {
  import opened Models

  // ---------- stable sorting ----------

  type Order<!T> = (T, T) -> bool

  /** Insert after everything that is not greater, as a stable sort does with a later element. */
  function Insert<T>(s: seq<T>, t: T, leq: Order<T>): (r: seq<T>)
    ensures multiset(r) == multiset(s) + multiset{t} && |r| == |s| + 1
  {
    if s == [] || leq(s[|s| - 1], t) then s + [t]
    else
      assert s == s[..|s| - 1] + [s[|s| - 1]];
      Insert(s[..|s| - 1], t, leq) + [s[|s| - 1]]
  }

  function Sort<T>(s: seq<T>, leq: Order<T>): (r: seq<T>)
    ensures multiset(r) == multiset(s) && |r| == |s|
  {
    if s == [] then []
    else
      assert s == s[..|s| - 1] + [s[|s| - 1]];
      Insert(Sort(s[..|s| - 1], leq), s[|s| - 1], leq)
  }

  ghost predicate Sorted<T>(s: seq<T>, leq: Order<T>) { forall i, j :: 0 <= i < j < |s| ==> leq(s[i], s[j]) }

  ghost predicate TotalPreorder<T(!new)>(leq: Order<T>) {
    && (forall a, b :: leq(a, b) || leq(b, a))
    && (forall a, b, c :: leq(a, b) && leq(b, c) ==> leq(a, c))
  }

  lemma {:induction false} InsertMembers<T(!new)>(s: seq<T>, t: T, leq: Order<T>)
    ensures forall x :: x in Insert(s, t, leq) <==> x == t || x in s
  {
    assert forall x :: x in Insert(s, t, leq) <==> x in multiset(Insert(s, t, leq));
  }

  lemma {:induction false} InsertSorted<T(!new)>(s: seq<T>, t: T, leq: Order<T>)
    requires TotalPreorder(leq) && Sorted(s, leq)
    ensures Sorted(Insert(s, t, leq), leq)
  {
    if s != [] && !leq(s[|s| - 1], t) {
      var front, last := s[..|s| - 1], s[|s| - 1];
      InsertSorted(front, t, leq);
      InsertMembers(front, t, leq);
      assert forall x :: x in Insert(front, t, leq) ==> leq(x, last);
    }
  }

  lemma {:induction false} SortSorted<T(!new)>(s: seq<T>, leq: Order<T>)
    requires TotalPreorder(leq)
    ensures Sorted(Sort(s, leq), leq)
  {
    if s != [] {
      SortSorted(s[..|s| - 1], leq);
      InsertSorted(Sort(s[..|s| - 1], leq), s[|s| - 1], leq);
    }
  }

  /** No two elements that compare equal. */
  ghost predicate Strict<T>(s: seq<T>, leq: Order<T>) {
    forall i, j :: 0 <= i < j < |s| ==> !(leq(s[i], s[j]) && leq(s[j], s[i]))
  }

  /** Two sorted arrangements of the same elements are equal when no two compare equal. */
  lemma {:induction false} SortedIsUnique<T(!new)>(a: seq<T>, b: seq<T>, leq: Order<T>)
    requires multiset(a) == multiset(b) && Sorted(a, leq) && Sorted(b, leq) && Strict(a, leq)
    ensures a == b
  {
    assert |a| == |multiset(a)| == |multiset(b)| == |b|;
    if a != [] {
      SameFirst(a, b, leq);
      HeadAndTail(a);
      HeadAndTail(b);
      TailSorted(a, leq);
      TailSorted(b, leq);
      TailStrict(a, leq);
      SortedIsUnique(a[1..], b[1..], leq);
    }
  }

  lemma {:induction false} HeadAndTail<T>(s: seq<T>)
    requires s != []
    ensures s == [s[0]] + s[1..] && multiset(s[1..]) == multiset(s) - multiset{s[0]}
  {
    TakeOut(s, 0);
  }

  lemma {:induction false} FrontAndLast<T>(s: seq<T>)
    requires s != []
    ensures multiset(s) == multiset(s[..|s| - 1]) + multiset{s[|s| - 1]}
  {
    assert s == s[..|s| - 1] + [s[|s| - 1]];
  }

  lemma {:induction false} TailSorted<T>(s: seq<T>, leq: Order<T>)
    requires s != [] && Sorted(s, leq)
    ensures Sorted(s[1..], leq)
  {
    forall i, j | 0 <= i < j < |s| - 1
      ensures leq(s[1..][i], s[1..][j])
    {
      assert leq(s[i + 1], s[j + 1]);
    }
  }

  lemma {:induction false} TailStrict<T>(s: seq<T>, leq: Order<T>)
    requires s != [] && Strict(s, leq)
    ensures Strict(s[1..], leq)
  {
    forall i, j | 0 <= i < j < |s| - 1
      ensures !(leq(s[1..][i], s[1..][j]) && leq(s[1..][j], s[1..][i]))
    {
      assert !(leq(s[i + 1], s[j + 1]) && leq(s[j + 1], s[i + 1]));
    }
  }

  lemma {:induction false} SameFirst<T(!new)>(a: seq<T>, b: seq<T>, leq: Order<T>)
    requires multiset(a) == multiset(b) && Sorted(a, leq) && Sorted(b, leq) && Strict(a, leq) && a != [] && b != []
    ensures a[0] == b[0]
  {
    assert a[0] in multiset(b) && b[0] in multiset(a);
    var i :| 0 <= i < |a| && a[i] == b[0];
    var j :| 0 <= j < |b| && b[j] == a[0];
  }

  lemma {:induction false} TakeOut<T>(s: seq<T>, i: nat)
    requires i < |s|
    ensures multiset(s[..i] + s[i + 1..]) == multiset(s) - multiset{s[i]}
    ensures i == 0 ==> s[..i] + s[i + 1..] == s[1..]
  {
    assert s == s[..i] + [s[i]] + s[i + 1..];
  }

  // ---------- grouping ----------

  /** A line has at least one token. */
  type Line = l: seq<OcrToken> | l != [] witness [OcrToken("", 0.0, BoundingBox(0, 0, 0, 0))]

  function Top(line: Line): int
  {
    if |line| == 1 then line[0].box.y else Min(Top(line[..|line| - 1]), line[|line| - 1].box.y)
  }

  function Bottom(line: Line): int
  {
    if |line| == 1 then line[0].box.Bottom() else Max(Bottom(line[..|line| - 1]), line[|line| - 1].box.Bottom())
  }

  /** The token overlaps the line vertically by more than half of the lower of the two. */
  predicate Fits(line: Line, token: OcrToken)
  {
    var overlap := Min(token.box.Bottom(), Bottom(line)) - Max(token.box.y, Top(line));
    var minHeight := Min(token.box.height, Bottom(line) - Top(line));
    minHeight > 0 && overlap as real / minHeight as real > 0.5
  }

  /** The token joins the first line it fits, or starts a new one. */
  function Placed(lines: seq<Line>, token: OcrToken): (r: seq<Line>)
  {
    if lines == [] then [[token]]
    else if Fits(lines[0], token) then [lines[0] + [token]] + lines[1..]
    else [lines[0]] + Placed(lines[1..], token)
  }

  function PlacedAll(ordered: seq<OcrToken>): (r: seq<Line>)
  {
    if ordered == [] then [] else Placed(PlacedAll(ordered[..|ordered| - 1]), ordered[|ordered| - 1])
  }

  const READING_ORDER: Order<OcrToken> := (a: OcrToken, b: OcrToken) => a.box.y < b.box.y ||
    (a.box.y == b.box.y && a.box.x <= b.box.x)

  const LEFT_TO_RIGHT: Order<OcrToken> := (a: OcrToken, b: OcrToken) => a.box.x <= b.box.x

  const TOP_TO_BOTTOM: Order<Line> := (a: Line, b: Line) => Top(a) <= Top(b)

  function SortEach(lines: seq<Line>): seq<Line> {
    seq(|lines|, i requires 0 <= i < |lines| => Sort(lines[i], LEFT_TO_RIGHT))
  }

  function Grouped(tokens: seq<OcrToken>): seq<Line> {
    Sort(SortEach(PlacedAll(Sort(tokens, READING_ORDER))), TOP_TO_BOTTOM)
  }

  method GroupIntoLines(tokens: seq<OcrToken>) returns (lines: seq<Line>)
    ensures lines == Grouped(tokens)
  {
    if tokens == [] {
      assert Grouped([]) == [];
      return [];
    }
    var ordered := Sort(tokens, READING_ORDER);
    lines := [];
    for n := 0 to |ordered|
      invariant lines == PlacedAll(ordered[..n])
    {
      assert ordered[..n + 1][..n] == ordered[..n];
      lines := Place(lines, ordered[n]);
    }
    assert ordered[..|ordered|] == ordered;
    lines := SortLines(lines);
    lines := Sort(lines, TOP_TO_BOTTOM);
  }

  method SortLines(placed: seq<Line>) returns (lines: seq<Line>)
    ensures lines == SortEach(placed)
  {
    lines := placed;
    for i := 0 to |lines|
      invariant |lines| == |placed|
      invariant forall k :: 0 <= k < |lines| ==> lines[k] == if k < i then SortEach(placed)[k] else placed[k]
    {
      lines := lines[i := Sort(lines[i], LEFT_TO_RIGHT)];
    }
  }

  method Place(before: seq<Line>, token: OcrToken) returns (lines: seq<Line>)
    ensures lines == Placed(before, token)
  {
    lines := before;
    for i := 0 to |lines|
      invariant lines == before && Placed(before, token) == before[..i] + Placed(before[i..], token)
    {
      if Fits(lines[i], token) {
        assert before[i..][1..] == before[i + 1..];
        lines := lines[i := lines[i] + [token]];
        assert lines == before[..i] + ([before[i] + [token]] + before[i + 1..]);
        return;
      }
      assert before[i..][1..] == before[i + 1..];
      assert before[..i + 1] == before[..i] + [before[i]];
      assert before[..i] + ([before[i]] + Placed(before[i + 1..], token)) ==
             before[..i + 1] + Placed(before[i + 1..], token);
    }
    lines := lines + [[token]];
  }

  // ---------- what the grouping promises ----------

  /** A token goes to the earliest line it overlaps by more than half. */
  lemma {:induction false} FirstFit(lines: seq<Line>, token: OcrToken, i: nat)
    requires i < |lines| && Fits(lines[i], token) && forall k :: 0 <= k < i ==> !Fits(lines[k], token)
    ensures Placed(lines, token) == lines[i := lines[i] + [token]]
    decreases i
  {
    if i > 0 {
      var rest := lines[1..];
      assert rest[i - 1] == lines[i] && forall k :: 0 <= k < i - 1 ==> rest[k] == lines[k + 1];
      FirstFit(rest, token, i - 1);
    }
  }

  /** A token that fits no line starts one of its own. */
  lemma {:induction false} NoFit(lines: seq<Line>, token: OcrToken)
    requires forall k :: 0 <= k < |lines| ==> !Fits(lines[k], token)
    ensures Placed(lines, token) == lines + [[token]]
  {
    if lines != [] {
      NoFit(lines[1..], token);
    }
  }

  /** The vertical extent of a line is the least interval that covers its tokens. */
  lemma {:induction false} ExtentCovers(line: Line)
    ensures forall t :: t in line ==> Top(line) <= t.box.y && t.box.Bottom() <= Bottom(line)
    ensures (exists t :: t in line && t.box.y == Top(line)) && (exists t :: t in line && t.box.Bottom() == Bottom(line))
  {
    if |line| > 1 {
      ExtentCovers(line[..|line| - 1]);
      assert forall t :: t in line <==> t in line[..|line| - 1] || t == line[|line| - 1];
    } else {
      assert line[0] in line;
    }
  }

  ghost function TokensOf(lines: seq<seq<OcrToken>>): multiset<OcrToken> {
    if lines == [] then multiset{} else multiset(lines[0]) + TokensOf(lines[1..])
  }

  lemma {:induction false} PlacedTokens(lines: seq<Line>, token: OcrToken)
    ensures TokensOf(Placed(lines, token)) == TokensOf(lines) + multiset{token}
  {
    if lines != [] {
      PlacedTokens(lines[1..], token);
    }
  }

  lemma {:induction false} PlacedAllTokens(ordered: seq<OcrToken>)
    ensures TokensOf(PlacedAll(ordered)) == multiset(ordered)
  {
    if ordered != [] {
      var front, last := ordered[..|ordered| - 1], ordered[|ordered| - 1];
      PlacedAllTokens(front);
      PlacedTokens(PlacedAll(front), last);
      FrontAndLast(ordered);
    }
  }

  lemma {:induction false} SortEachTokens(lines: seq<Line>)
    ensures TokensOf(SortEach(lines)) == TokensOf(lines)
  {
    if lines != [] {
      ghost var sorted, rest := SortEach(lines), lines[1..];
      SortEachTokens(rest);
      assert sorted[1..] == SortEach(rest);
    }
  }

  lemma {:induction false} TokensOfPermutation(a: seq<Line>, b: seq<Line>)
    requires multiset(a) == multiset(b)
    ensures TokensOf(a) == TokensOf(b)
  {
    if a == [] {
      assert |b| == |multiset(b)| == 0;
    } else {
      assert a[0] in multiset(b);
      var j :| 0 <= j < |b| && b[j] == a[0];
      TakeOut(a, 0);
      TakeOut(b, j);
      TokensOfPermutation(a[1..], b[..j] + b[j + 1..]);
      TokensOfMoved(b, j);
    }
  }

  lemma {:induction false} TokensOfMoved(b: seq<Line>, j: nat)
    requires j < |b|
    ensures TokensOf(b) == multiset(b[j]) + TokensOf(b[..j] + b[j + 1..])
  {
    var rest := b[..j] + b[j + 1..];
    if j == 0 {
      assert rest == b[1..];
    } else {
      TokensOfMoved(b[1..], j - 1);
      assert rest[1..] == b[1..][..j - 1] + b[1..][j..];
    }
  }

  /** Every token lands in exactly one line. */
  lemma {:induction false} EveryTokenOnce(tokens: seq<OcrToken>)
    ensures TokensOf(Grouped(tokens)) == multiset(tokens)
  {
    var ordered := Sort(tokens, READING_ORDER);
    PlacedAllTokens(ordered);
    SortEachTokens(PlacedAll(ordered));
    TokensOfPermutation(Grouped(tokens), SortEach(PlacedAll(ordered)));
  }

  /** Lines run from top to bottom, and tokens in a line from left to right. */
  lemma {:induction false} LinesInOrder(tokens: seq<OcrToken>)
    ensures Sorted(Grouped(tokens), TOP_TO_BOTTOM)
    ensures forall line :: line in Grouped(tokens) ==> line != [] && Sorted(line, LEFT_TO_RIGHT)
  {
    var lines := SortEach(PlacedAll(Sort(tokens, READING_ORDER)));
    SortSorted(lines, TOP_TO_BOTTOM);
    forall line | line in Grouped(tokens)
      ensures line != [] && Sorted(line, LEFT_TO_RIGHT)
    {
      assert line in multiset(Grouped(tokens));
      assert line in lines;
      var i :| 0 <= i < |lines| && lines[i] == line;
      SortSorted(PlacedAll(Sort(tokens, READING_ORDER))[i], LEFT_TO_RIGHT);
    }
  }

  /** The recogniser may report tokens in any order, as long as no two share a corner. */
  lemma {:induction false} InputOrderIrrelevant(a: seq<OcrToken>, b: seq<OcrToken>)
    requires multiset(a) == multiset(b)
    requires forall i, j :: 0 <= i < j < |a| ==> a[i].box.y != a[j].box.y || a[i].box.x != a[j].box.x
    ensures Grouped(a) == Grouped(b)
  {
    SortSorted(a, READING_ORDER);
    SortSorted(b, READING_ORDER);
    SortStrict(a, READING_ORDER);
    SortedIsUnique(Sort(a, READING_ORDER), Sort(b, READING_ORDER), READING_ORDER);
  }

  lemma {:induction false} SortOne<T>(x: T, leq: Order<T>)
    ensures Sort([x], leq) == [x]
  {
    assert [x][..0] == [];
    assert Sort([], leq) == [];
  }

  lemma {:induction false} SortTwo<T>(x: T, y: T, leq: Order<T>)
    requires leq(x, y)
    ensures Sort([x, y], leq) == [x, y]
  {
    SortOne(x, leq);
    assert [x, y][..1] == [x];
  }

  lemma {:induction false} PlacedTwo(a: OcrToken, b: OcrToken)
    requires !Fits([a], b)
    ensures PlacedAll([a, b]) == [[a], [b]]
  {
    assert [a, b][..1] == [a] && [a][..0] == [];
    assert PlacedAll([]) == [];
    assert PlacedAll([a]) == [[a]];
    NoFit([[a]], b);
  }

  lemma {:induction false} SortedLines(lines: seq<Line>)
    requires forall i :: 0 <= i < |lines| ==> |lines[i]| == 1
    ensures SortEach(lines) == lines
  {
    forall i | 0 <= i < |lines|
      ensures Sort(lines[i], LEFT_TO_RIGHT) == lines[i]
    {
      SortOne(lines[i][0], LEFT_TO_RIGHT);
      assert lines[i] == [lines[i][0]];
    }
  }

  lemma {:induction false} TwoLines(a: OcrToken, b: OcrToken)
    requires !Fits([a], b) && READING_ORDER(a, b) && TOP_TO_BOTTOM([a], [b])
    ensures Grouped([a, b]) == [[a], [b]]
  {
    SortTwo(a, b, READING_ORDER);
    PlacedTwo(a, b);
    SortedLines([[a], [b]]);
    SortTwo<Line>([a], [b], TOP_TO_BOTTOM);
  }

  /** Two tokens that meet in one row of pixels are on two lines. */
  lemma {:induction false} TouchingLinesStayApart(a: OcrToken, b: OcrToken)
    requires a.box == BoundingBox(0, 0, 100, 20) && b.box == BoundingBox(0, 19, 100, 20)
    ensures Grouped([a, b]) == [[a], [b]]
  {
    TwoLines(a, b);
  }

  lemma {:induction false} InsertStrict<T(!new)>(s: seq<T>, t: T, leq: Order<T>)
    requires Strict(s, leq) && forall i :: 0 <= i < |s| ==> !(leq(s[i], t) && leq(t, s[i]))
    ensures Strict(Insert(s, t, leq), leq)
  {
    if s != [] && !leq(s[|s| - 1], t) {
      var front, last := s[..|s| - 1], s[|s| - 1];
      InsertStrict(front, t, leq);
      InsertMembers(front, t, leq);
      forall x | x in Insert(front, t, leq)
        ensures !(leq(x, last) && leq(last, x))
      {
        if x != t {
          var i :| 0 <= i < |front| && front[i] == x;
          assert s[i] == x;
        }
      }
    }
  }

  lemma {:induction false} SortStrict<T(!new)>(s: seq<T>, leq: Order<T>)
    requires Strict(s, leq)
    ensures Strict(Sort(s, leq), leq)
  {
    if s != [] {
      var front, last := s[..|s| - 1], s[|s| - 1];
      SortStrict(front, leq);
      forall x | x in Sort(front, leq)
        ensures !(leq(x, last) && leq(last, x))
      {
        assert x in multiset(Sort(front, leq));
        assert x in front;
      }
      InsertStrict(Sort(front, leq), last, leq);
    }
  }
}
