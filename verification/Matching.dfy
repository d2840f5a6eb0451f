/**
 Matching detections against ground truth (benchmarks/ocr/metrics.py).

 `IoU` is the corner arithmetic of the source; `Jaccard` over sets of unit cells is what
 it should mean.  `MatchDetections` is the greedy loop; `Greedy` is the assignment it
 makes, about which injectivity, maximality and the factor-two bound are proved.
 */
module Matching {

  import opened Collections
  import opened Models

  datatype Rect = Rect(x: int, y: int, width: int, height: int)

  datatype Region = Region(kind: string, box: Rect)

  datatype DetectionMatch = DetectionMatch(
    truePositives: nat, falseNegatives: nat, falsePositives: nat, matchedIous: seq<real>)

  // ---------- intersection over union ----------

  function IoU(a: Rect, b: Rect): real {
    var left, top := Max(a.x, b.x), Max(a.y, b.y);
    var right, bottom := Min(a.x + a.width, b.x + b.width), Min(a.y + a.height, b.y + b.height);
    if right <= left || bottom <= top then 0.0
    else
      var inter := (right - left) * (bottom - top);
      var areaA := a.width * a.height;
      var areaB := b.width * b.height;
      var union := areaA + areaB - inter;
      if union > 0 then inter as real / union as real else 0.0
  }

  type Cell = (int, int)

  /** The unit cells with left edge in [x0, x1) and top edge in [y0, y1). */
  ghost function Block(x0: int, y0: int, x1: int, y1: int): set<Cell> {
    set i, j | x0 <= i < x1 && y0 <= j < y1 :: (i, j)
  }

  ghost function Cells(r: Rect): set<Cell> { Block(r.x, r.y, r.x + r.width, r.y + r.height) }

  /** Shared cells over covered cells; zero when nothing is covered. */
  ghost function Jaccard<T>(s: set<T>, t: set<T>): real {
    if s + t == {} then 0.0 else |s * t| as real / |s + t| as real
  }

  lemma {:induction false} ColumnSize(x: int, y0: int, y1: int)
    requires y0 <= y1
    ensures |Block(x, y0, x + 1, y1)| == y1 - y0
    decreases y1 - y0
  {
    if y0 == y1 {
      assert Block(x, y0, x + 1, y1) == {};
    } else {
      ColumnSize(x, y0, y1 - 1);
      assert Block(x, y0, x + 1, y1) == Block(x, y0, x + 1, y1 - 1) + {(x, y1 - 1)};
    }
  }

  lemma {:induction false} BlockSize(x0: int, y0: int, x1: int, y1: int)
    requires x0 <= x1 && y0 <= y1
    ensures |Block(x0, y0, x1, y1)| == (x1 - x0) * (y1 - y0)
    decreases x1 - x0
  {
    if x0 == x1 {
      assert Block(x0, y0, x1, y1) == {};
    } else {
      BlockSize(x0, y0, x1 - 1, y1);
      ColumnSize(x1 - 1, y0, y1);
      assert Block(x0, y0, x1, y1) == Block(x0, y0, x1 - 1, y1) + Block(x1 - 1, y0, x1, y1);
      assert Block(x0, y0, x1 - 1, y1) !! Block(x1 - 1, y0, x1, y1);
      assert (x1 - x0) * (y1 - y0) == (x1 - 1 - x0) * (y1 - y0) + (y1 - y0);
    }
  }

  lemma {:induction false} SharedCells(a: Rect, b: Rect)
    ensures Cells(a) * Cells(b) ==
              Block(Max(a.x, b.x), Max(a.y, b.y),
                    Min(a.x + a.width, b.x + b.width), Min(a.y + a.height, b.y + b.height))
  {}

  lemma {:induction false} UnionSize<T>(s: set<T>, t: set<T>)
    ensures |s + t| == |s| + |t| - |s * t|
  {}

  lemma {:induction false} CellCount(r: Rect)
    requires r.width >= 0 && r.height >= 0
    ensures |Cells(r)| == r.width * r.height
  {
    BlockSize(r.x, r.y, r.x + r.width, r.y + r.height);
  }

  /** Boxes whose corner arithmetic says they meet, counted in cells. */
  lemma {:induction false} MeetingBoxes(a: Rect, b: Rect, left: int, top: int, right: int, bottom: int)
    requires left == Max(a.x, b.x) && top == Max(a.y, b.y)
    requires right == Min(a.x + a.width, b.x + b.width) && bottom == Min(a.y + a.height, b.y + b.height)
    requires left < right && top < bottom
    ensures |Cells(a) * Cells(b)| == (right - left) * (bottom - top)
    ensures |Cells(a) + Cells(b)| == a.width * a.height + b.width * b.height - (right - left) * (bottom - top)
    ensures Cells(a) * Cells(b) != {}
  {
    SharedCells(a, b);
    BlockSize(left, top, right, bottom);
    CellCount(a);
    CellCount(b);
    UnionSize(Cells(a), Cells(b));
    assert (left, top) in Block(left, top, right, bottom);
  }

  lemma {:induction false} SeparateBoxes(a: Rect, b: Rect)
    requires Min(a.x + a.width, b.x + b.width) <= Max(a.x, b.x) || Min(a.y + a.height, b.y + b.height) <= Max(a.y, b.y)
    ensures Cells(a) * Cells(b) == {}
  {}

  lemma {:induction false} JaccardOf<T>(s: set<T>, t: set<T>, inter: int, union: int)
    requires |s * t| == inter && |s + t| == union && s * t != {}
    ensures union > 0 && Jaccard(s, t) == inter as real / union as real
  {
    SubsetSize(s * t, s + t);
  }

  lemma {:induction false} IouOf(a: Rect, b: Rect, left: int, top: int, right: int, bottom: int, inter: int, union: int)
    requires left == Max(a.x, b.x) && top == Max(a.y, b.y)
    requires right == Min(a.x + a.width, b.x + b.width) && bottom == Min(a.y + a.height, b.y + b.height)
    requires left < right && top < bottom
    requires inter == (right - left) * (bottom - top) && union == a.width * a.height + b.width * b.height - inter > 0
    ensures IoU(a, b) == inter as real / union as real
  {}

  /** For all rectangles, degenerate ones included. */
  lemma {:induction false} IouIsJaccard(a: Rect, b: Rect)
    ensures IoU(a, b) == Jaccard(Cells(a), Cells(b))
  {
    var left, top := Max(a.x, b.x), Max(a.y, b.y);
    var right, bottom := Min(a.x + a.width, b.x + b.width), Min(a.y + a.height, b.y + b.height);
    if right <= left || bottom <= top {
      SeparateBoxes(a, b);
    } else {
      var inter := (right - left) * (bottom - top);
      var union := a.width * a.height + b.width * b.height - inter;
      MeetingBoxes(a, b, left, top, right, bottom);
      JaccardOf(Cells(a), Cells(b), inter, union);
      IouOf(a, b, left, top, right, bottom, inter, union);
    }
  }

  lemma {:induction false} IouSymmetric(a: Rect, b: Rect)
    ensures IoU(a, b) == IoU(b, a)
  {
    IouIsJaccard(a, b);
    IouIsJaccard(b, a);
    assert Cells(a) + Cells(b) == Cells(b) + Cells(a) && Cells(a) * Cells(b) == Cells(b) * Cells(a);
  }

  /** The score lies in [0, 1]; it is 1 exactly for two copies of one nonempty region. */
  lemma {:induction false} IouInUnitInterval(a: Rect, b: Rect)
    ensures 0.0 <= IoU(a, b) <= 1.0
    ensures IoU(a, b) == 1.0 <==> Cells(a) == Cells(b) && Cells(a) != {}
    ensures IoU(a, b) > 0.0 <==> Cells(a) * Cells(b) != {}
  {
    IouIsJaccard(a, b);
    var s, t := Cells(a), Cells(b);
    SubsetSize(s * t, s + t);
    if s + t != {} {
      var n, d := |s * t| as real, |s + t| as real;
      assert 0.0 <= n <= d && d > 0.0;
      QuotientInUnitInterval(n, d);
      if s == t {
        assert s * t == s + t;
      }
      if s * t == s + t {
        assert forall c :: c in s <==> c in t;
      }
    }
  }

  lemma {:induction false} QuotientInUnitInterval(n: real, d: real)
    requires 0.0 <= n <= d && d > 0.0
    ensures 0.0 <= n / d <= 1.0 && (n / d == 1.0 <==> n == d) && (n / d > 0.0 <==> n > 0.0)
  {
    var q := n / d;
    assert q * d == n;
  }

  // ---------- the greedy matcher ----------

  /** The argument never depends on how boxes are compared, so it is made for any score. */
  type Score = (Rect, Rect) -> real

  datatype Choice = Choice(index: Option<nat>, score: real)

  /** What one ground-truth region finds among the first `n` detections. */
  function Best(f: Score, gt: Region, dets: seq<Region>, used: set<nat>, n: nat): Choice
    requires n <= |dets|
  {
    if n == 0 then Choice(None, 0.0)
    else
      var c := Best(f, gt, dets, used, n - 1);
      if n - 1 in used || dets[n - 1].kind != gt.kind then c
      else
        var score := f(dets[n - 1].box, gt.box);
        if score > c.score then Choice(Some(n - 1), score) else c
  }

  datatype Assignment = Assignment(partner: seq<Option<nat>>, used: set<nat>, ious: seq<real>)

  /** The assignment after the first `n` ground-truth regions. */
  function Greedy(f: Score, gts: seq<Region>, dets: seq<Region>, threshold: real, n: nat): Assignment
    requires n <= |gts|
  {
    if n == 0 then Assignment([], {}, [])
    else
      var st := Greedy(f, gts, dets, threshold, n - 1);
      Extended(st, Best(f, gts[n - 1], dets, st.used, |dets|), threshold)
  }

  /** One more region, with its choice accepted or not. */
  function Extended(st: Assignment, c: Choice, threshold: real): Assignment {
    if c.index.Some? && c.score >= threshold
    then Assignment(st.partner + [c.index], st.used + {c.index.value}, st.ious + [c.score])
    else st.(partner := st.partner + [None])
  }

  method MatchDetections(gts: seq<Region>, dets: seq<Region>, threshold: real) returns (m: DetectionMatch)
    ensures var st := Greedy(IoU, gts, dets, threshold, |gts|);
            && m.truePositives == |st.used| && m.matchedIous == st.ious
            && m.truePositives + m.falseNegatives == |gts|
            && m.truePositives + m.falsePositives == |dets|
  {
    var used: set<nat>, matchedIous, truePositives := {}, [], 0;
    for g := 0 to |gts|
      invariant used == Greedy(IoU, gts, dets, threshold, g).used
      invariant matchedIous == Greedy(IoU, gts, dets, threshold, g).ious
      invariant truePositives == |used|
    {
      var bestIdx, bestIou := FindBest(gts[g], dets, used);
      if bestIdx.Some? && bestIou >= threshold {
        BestIsUnused(IoU, gts[g], dets, used, |dets|);
        used := used + {bestIdx.value};
        matchedIous := matchedIous + [bestIou];
        truePositives := truePositives + 1;
      }
    }
    UsedFits(IoU, gts, dets, threshold);
    return DetectionMatch(truePositives, |gts| - truePositives, |dets| - |used|, matchedIous);
  }

  /** The inner loop. */
  method FindBest(gt: Region, dets: seq<Region>, used: set<nat>) returns (bestIdx: Option<nat>, bestIou: real)
    ensures Choice(bestIdx, bestIou) == Best(IoU, gt, dets, used, |dets|)
  {
    bestIdx, bestIou := None, 0.0;
    for idx := 0 to |dets|
      invariant Choice(bestIdx, bestIou) == Best(IoU, gt, dets, used, idx)
    {
      if idx in used || dets[idx].kind != gt.kind {
        continue;
      }
      var score := IoU(dets[idx].box, gt.box);
      if score > bestIou {
        bestIdx, bestIou := Some(idx), score;
      }
    }
  }

  lemma {:induction false} BestIsUnused(f: Score, gt: Region, dets: seq<Region>, used: set<nat>, n: nat)
    requires n <= |dets|
    ensures Best(f, gt, dets, used, n).index.Some? ==>
              Best(f, gt, dets, used, n).index.value < n && Best(f, gt, dets, used, n).index.value !in used
  {
    if n != 0 {
      BestIsUnused(f, gt, dets, used, n - 1);
    }
  }

  /** The choice is the first unused detection of the type with the greatest positive score. */
  lemma {:induction false} BestIsBest(f: Score, gt: Region, dets: seq<Region>, used: set<nat>, n: nat)
    requires n <= |dets|
    ensures var c := Best(f, gt, dets, used, n);
            && (c.index.None? ==> c.score == 0.0)
            && (c.index.Some? ==>
                  && c.index.value < n && c.index.value !in used && dets[c.index.value].kind == gt.kind
                  && c.score == f(dets[c.index.value].box, gt.box) > 0.0)
            && (forall j :: 0 <= j < n && j !in used && dets[j].kind == gt.kind ==>
                  && f(dets[j].box, gt.box) <= c.score
                  && (c.index.Some? && j < c.index.value ==> f(dets[j].box, gt.box) < c.score))
  {
    if n != 0 {
      BestIsBest(f, gt, dets, used, n - 1);
    }
  }

  /** A pair the matcher may accept: same type, boxes that meet, score at the threshold. */
  ghost predicate Admissible(f: Score, gts: seq<Region>, dets: seq<Region>, threshold: real, i: nat, j: nat) {
    && i < |gts| && j < |dets|
    && gts[i].kind == dets[j].kind
    && f(dets[j].box, gts[i].box) >= threshold
    && f(dets[j].box, gts[i].box) > 0.0
  }

  ghost function Matched(partner: seq<Option<nat>>): set<nat> {
    set i: nat | i < |partner| && partner[i].Some?
  }

  ghost predicate Sound(f: Score, gts: seq<Region>, dets: seq<Region>, threshold: real, st: Assignment) {
    && |st.partner| <= |gts|
    && PairsAdmissible(f, gts, dets, threshold, st)
    && OneToOne(st)
    && |Matched(st.partner)| == |st.used| == |st.ious|
    && NothingLeftOver(f, gts, dets, threshold, st)
  }

  ghost predicate PairsAdmissible(f: Score, gts: seq<Region>, dets: seq<Region>, threshold: real, st: Assignment) {
    forall i :: 0 <= i < |st.partner| && st.partner[i].Some? ==>
      st.partner[i].value in st.used && Admissible(f, gts, dets, threshold, i, st.partner[i].value)
  }

  ghost predicate OneToOne(st: Assignment) {
    forall i, k :: 0 <= i < k < |st.partner| && st.partner[i].Some? && st.partner[k].Some? ==>
      st.partner[i].value != st.partner[k].value
  }

  ghost predicate NothingLeftOver(f: Score, gts: seq<Region>, dets: seq<Region>, threshold: real, st: Assignment) {
    forall i: nat, j: nat :: i < |st.partner| && st.partner[i].None? && j !in st.used ==>
      !Admissible(f, gts, dets, threshold, i, j)
  }

  /** One-to-one, type-correct, at the threshold, and no admissible pair is left over. */
  lemma {:induction false} GreedyIsSound(f: Score, gts: seq<Region>, dets: seq<Region>, threshold: real, n: nat)
    requires n <= |gts|
    ensures Sound(f, gts, dets, threshold, Greedy(f, gts, dets, threshold, n))
    ensures |Greedy(f, gts, dets, threshold, n).partner| == n
    decreases n
  {
    if n == 0 {
      assert Matched([]) == {};
    } else {
      GreedyIsSound(f, gts, dets, threshold, n - 1);
      SoundAfterOne(f, gts, dets, threshold, Greedy(f, gts, dets, threshold, n - 1));
    }
  }

  lemma {:induction false} SoundAfterOne(f: Score, gts: seq<Region>, dets: seq<Region>, threshold: real, st: Assignment)
    requires Sound(f, gts, dets, threshold, st) && |st.partner| < |gts|
    ensures Sound(f, gts, dets, threshold, Extended(st, Best(f, gts[|st.partner|], dets, st.used, |dets|), threshold))
  {
    var c := Best(f, gts[|st.partner|], dets, st.used, |dets|);
    BestIsBest(f, gts[|st.partner|], dets, st.used, |dets|);
    if c.index.Some? && c.score >= threshold {
      SoundAfterMatch(f, gts, dets, threshold, st, c);
    } else {
      SoundAfterMiss(f, gts, dets, threshold, st);
    }
  }

  lemma {:induction false} SoundAfterMatch(f: Score, gts: seq<Region>, dets: seq<Region>, threshold: real,
        st: Assignment, c: Choice)
    requires Sound(f, gts, dets, threshold, st) && |st.partner| < |gts|
    requires c.index.Some? && c.index.value !in st.used
    requires Admissible(f, gts, dets, threshold, |st.partner|, c.index.value)
    ensures Sound(f, gts, dets, threshold,
                  Assignment(st.partner + [c.index], st.used + {c.index.value}, st.ious + [c.score]))
  {
    var after := Assignment(st.partner + [c.index], st.used + {c.index.value}, st.ious + [c.score]);
    MatchedGrows(st.partner, c.index);
    OneToOneAfterMatch(f, gts, dets, threshold, st, after, c.index.value);
    assert PairsAdmissible(f, gts, dets, threshold, after);
    assert NothingLeftOver(f, gts, dets, threshold, after);
  }

  lemma {:induction false} OneToOneAfterMatch(f: Score, gts: seq<Region>, dets: seq<Region>, threshold: real,
        st: Assignment, after: Assignment, j: nat)
    requires PairsAdmissible(f, gts, dets, threshold, st) && OneToOne(st) && j !in st.used
    requires after.partner == st.partner + [Some(j)]
    ensures OneToOne(after)
  {}

  lemma {:induction false} MatchedGrows(p: seq<Option<nat>>, o: Option<nat>)
    ensures Matched(p + [o]) == Matched(p) + (if o.Some? then {|p|} else {}) && |p| !in Matched(p)
  {
    assert (p + [o])[|p|] == o;
  }

  lemma {:induction false} SoundAfterMiss(f: Score, gts: seq<Region>, dets: seq<Region>, threshold: real,
        st: Assignment)
    requires Sound(f, gts, dets, threshold, st) && |st.partner| < |gts|
    requires forall j: nat :: j !in st.used ==> !Admissible(f, gts, dets, threshold, |st.partner|, j)
    ensures Sound(f, gts, dets, threshold, st.(partner := st.partner + [None]))
  {
    MatchedGrows(st.partner, None);
  }

  lemma {:induction false} Injection<A, B>(s: set<A>, t: set<B>, f: A -> B)
    requires forall a :: a in s ==> f(a) in t
    requires forall a, b :: a in s && b in s && a != b ==> f(a) != f(b)
    ensures |s| <= |t|
    decreases s
  {
    if s != {} {
      var a :| a in s;
      Injection(s - {a}, t - {f(a)}, f);
    }
  }

  ghost function Below(n: nat): (s: set<nat>)
    ensures |s| == n && forall i: nat :: i in s <==> i < n
  {
    if n == 0 then {} else Below(n - 1) + {n - 1}
  }

  lemma {:induction false} UsedOnlyDetections(f: Score, gts: seq<Region>, dets: seq<Region>, threshold: real, n: nat)
    requires n <= |gts|
    ensures forall j :: j in Greedy(f, gts, dets, threshold, n).used ==> j < |dets|
  {
    if n != 0 {
      UsedOnlyDetections(f, gts, dets, threshold, n - 1);
      BestIsUnused(f, gts[n - 1], dets, Greedy(f, gts, dets, threshold, n - 1).used, |dets|);
    }
  }

  lemma {:induction false} UsedFits(f: Score, gts: seq<Region>, dets: seq<Region>, threshold: real)
    ensures var st := Greedy(f, gts, dets, threshold, |gts|); |st.used| <= |gts| && |st.used| <= |dets|
  {
    var st := Greedy(f, gts, dets, threshold, |gts|);
    GreedyIsSound(f, gts, dets, threshold, |gts|);
    UsedOnlyDetections(f, gts, dets, threshold, |gts|);
    SubsetSize(st.used, Below(|dets|));
    SubsetSize(Matched(st.partner), Below(|gts|));
  }

  // ---------- how good the greedy assignment is ----------

  /** Any one-to-one set of admissible (ground truth, detection) pairs. */
  ghost predicate IsMatching(f: Score, m: set<(nat, nat)>, gts: seq<Region>, dets: seq<Region>, threshold: real) {
    && (forall p :: p in m ==> Admissible(f, gts, dets, threshold, p.0, p.1))
    && (forall p, q :: p in m && q in m && p != q ==> p.0 != q.0 && p.1 != q.1)
  }

  lemma {:induction false} ByFirst(m: set<(nat, nat)>, t: set<nat>)
    requires forall p :: p in m ==> p.0 in t
    requires forall p, q :: p in m && q in m && p != q ==> p.0 != q.0
    ensures |m| <= |t|
  {
    Injection(m, t, (p: (nat, nat)) => p.0);
  }

  lemma {:induction false} BySecond(m: set<(nat, nat)>, t: set<nat>)
    requires forall p :: p in m ==> p.1 in t
    requires forall p, q :: p in m && q in m && p != q ==> p.1 != q.1
    ensures |m| <= |t|
  {
    Injection(m, t, (p: (nat, nat)) => p.1);
  }

  /** Of an admissible pair at least one side is taken. */
  lemma {:induction false} OneSideTaken(f: Score, gts: seq<Region>, dets: seq<Region>, threshold: real,
        st: Assignment, p: (nat, nat))
    requires Sound(f, gts, dets, threshold, st) && |st.partner| == |gts|
    requires Admissible(f, gts, dets, threshold, p.0, p.1)
    ensures p.0 in Matched(st.partner) || p.1 in st.used
  {}

  lemma {:induction false} TakenBound(m: set<(nat, nat)>, firsts: set<nat>, seconds: set<nat>)
    requires forall p, q :: p in m && q in m && p != q ==> p.0 != q.0 && p.1 != q.1
    requires forall p :: p in m ==> p.0 in firsts || p.1 in seconds
    ensures |m| <= |firsts| + |seconds|
  {
    var m1 := set p | p in m && p.0 in firsts;
    ByFirst(m1, firsts);
    BySecond(m - m1, seconds);
    assert m == m1 + (m - m1);
  }

  lemma {:induction false} HalfOptimal(f: Score, m: set<(nat, nat)>, gts: seq<Region>, dets: seq<Region>,
        threshold: real, st: Assignment)
    requires IsMatching(f, m, gts, dets, threshold) && Sound(f, gts, dets, threshold, st) && |st.partner| == |gts|
    ensures |m| <= 2 * |st.used|
  {
    forall p | p in m
      ensures p.0 in Matched(st.partner) || p.1 in st.used
    {
      OneSideTaken(f, gts, dets, threshold, st, p);
    }
    TakenBound(m, Matched(st.partner), st.used);
  }

  /** No matching at the same threshold has more than twice as many pairs. */
  lemma {:induction false} GreedyIsHalfOptimal(f: Score, m: set<(nat, nat)>, gts: seq<Region>, dets: seq<Region>,
        threshold: real)
    requires IsMatching(f, m, gts, dets, threshold)
    ensures |m| <= 2 * |Greedy(f, gts, dets, threshold, |gts|).used|
  {
    GreedyIsSound(f, gts, dets, threshold, |gts|);
    HalfOptimal(f, m, gts, dets, threshold, Greedy(f, gts, dets, threshold, |gts|));
  }

  /** Any one-to-one set of pairs of equal type that reach the threshold. */
  ghost predicate IsAssignment(m: set<(nat, nat)>, gts: seq<Region>, dets: seq<Region>, threshold: real) {
    && (forall p :: p in m ==> Reaches(gts, dets, threshold, p))
    && (forall p, q :: p in m && q in m && p != q ==> p.0 != q.0 && p.1 != q.1)
  }

  ghost predicate Reaches(gts: seq<Region>, dets: seq<Region>, threshold: real, p: (nat, nat)) {
    && p.0 < |gts| && p.1 < |dets|
    && gts[p.0].kind == dets[p.1].kind && IoU(dets[p.1].box, gts[p.0].box) >= threshold
  }

  ghost predicate AtLeastHalf(m: set<(nat, nat)>, gts: seq<Region>, dets: seq<Region>, threshold: real) {
    |m| <= 2 * |Greedy(IoU, gts, dets, threshold, |gts|).used|
  }

  /** The matcher finds at least half of every assignment at its threshold, on every input,
      exactly when the threshold is positive. */
  lemma {:induction false} HalfOptimalExactlyForPositiveThreshold(threshold: real)
    ensures (forall m, gts, dets :: IsAssignment(m, gts, dets, threshold) ==> AtLeastHalf(m, gts, dets, threshold))
            <==> threshold > 0.0
  {
    if threshold > 0.0 {
      forall m, gts, dets | IsAssignment(m, gts, dets, threshold)
        ensures AtLeastHalf(m, gts, dets, threshold)
      {
        AssignmentIsMatching(m, gts, dets, threshold);
        GreedyIsHalfOptimal(IoU, m, gts, dets, threshold);
      }
    } else {
      var gts, dets := [Region("Email", Rect(0, 0, 1, 1))], [Region("Email", Rect(5, 5, 1, 1))];
      ApartIsNeverMatched(gts, dets, threshold);
      var m: set<(nat, nat)> := {(0, 0)};
      assert IsAssignment(m, gts, dets, threshold) && !AtLeastHalf(m, gts, dets, threshold);
    }
  }

  lemma {:induction false} AssignmentIsMatching(m: set<(nat, nat)>, gts: seq<Region>, dets: seq<Region>,
        threshold: real)
    requires IsAssignment(m, gts, dets, threshold) && threshold > 0.0
    ensures IsMatching(IoU, m, gts, dets, threshold)
  {
    forall p | p in m
      ensures Admissible(IoU, gts, dets, threshold, p.0, p.1)
    {
      assert Reaches(gts, dets, threshold, p);
    }
  }

  /** One region and one detection of its type that do not meet. */
  lemma {:induction false} ApartIsNeverMatched(gts: seq<Region>, dets: seq<Region>, threshold: real)
    requires |gts| == 1 && |dets| == 1 && gts[0].kind == dets[0].kind && IoU(dets[0].box, gts[0].box) == 0.0
    ensures Greedy(IoU, gts, dets, threshold, 1) == Assignment([None], {}, [])
  {
    assert Best(IoU, gts[0], dets, {}, 0) == Choice(None, 0.0);
    assert Best(IoU, gts[0], dets, {}, 1) == Choice(None, 0.0);
    assert Greedy(IoU, gts, dets, threshold, 0) == Assignment([], {}, []);
  }

  /** No unmatched pair of equal type reaches the threshold. */
  ghost predicate Maximal(gts: seq<Region>, dets: seq<Region>, threshold: real) {
    var st := Greedy(IoU, gts, dets, threshold, |gts|);
    forall i, j | 0 <= i < |gts| && i < |st.partner| && st.partner[i].None? && 0 <= j < |dets| && j !in st.used ::
      gts[i].kind == dets[j].kind ==> IoU(dets[j].box, gts[i].box) < threshold
  }

  /** The matcher is maximal on every input exactly when the threshold is positive. */
  lemma {:induction false} MaximalExactlyForPositiveThreshold(threshold: real)
    ensures (forall gts, dets :: Maximal(gts, dets, threshold)) <==> threshold > 0.0
  {
    if threshold > 0.0 {
      forall gts: seq<Region>, dets: seq<Region>
        ensures Maximal(gts, dets, threshold)
      {
        GreedyIsSound(IoU, gts, dets, threshold, |gts|);
        var st := Greedy(IoU, gts, dets, threshold, |gts|);
        forall i, j | 0 <= i < |gts| && st.partner[i].None? && 0 <= j < |dets| && j !in st.used &&
          gts[i].kind == dets[j].kind
          ensures IoU(dets[j].box, gts[i].box) < threshold
        {
          assert !Admissible(IoU, gts, dets, threshold, i, j);
        }
      }
    } else {
      var gts, dets := [Region("Email", Rect(0, 0, 1, 1))], [Region("Email", Rect(5, 5, 1, 1))];
      ApartIsNeverMatched(gts, dets, threshold);
      assert !Maximal(gts, dets, threshold);
    }
  }

  // ---------- who is matched with whom ----------

  /** No region before `i` has this detection. */
  ghost predicate Free(partner: seq<Option<nat>>, i: nat, j: nat) {
    i <= |partner| && forall k :: 0 <= k < i ==> partner[k] != Some(j)
  }

  /** Region `i` has the first of the free detections of its type with the greatest score, if that
      is positive and reaches the threshold, and else none. */
  ghost predicate BestLeft(f: Score, gts: seq<Region>, dets: seq<Region>, threshold: real,
                           partner: seq<Option<nat>>, i: nat)
    requires i < |partner| && i < |gts|
  {
    match partner[i]
    case Some(j) =>
      && j < |dets| && Free(partner, i, j) && dets[j].kind == gts[i].kind
      && f(dets[j].box, gts[i].box) >= threshold && f(dets[j].box, gts[i].box) > 0.0
      && forall k :: 0 <= k < |dets| && Free(partner, i, k) && dets[k].kind == gts[i].kind ==>
           if k < j then f(dets[k].box, gts[i].box) < f(dets[j].box, gts[i].box)
           else f(dets[k].box, gts[i].box) <= f(dets[j].box, gts[i].box)
    case None =>
      forall k :: 0 <= k < |dets| && Free(partner, i, k) && dets[k].kind == gts[i].kind ==>
        f(dets[k].box, gts[i].box) < threshold || f(dets[k].box, gts[i].box) <= 0.0
  }

  /** The scores of the matched pairs, in the order of the regions. */
  ghost function PairScores(f: Score, gts: seq<Region>, dets: seq<Region>, partner: seq<Option<nat>>): seq<real> {
    if partner == [] then []
    else
      var i, last := |partner| - 1, Last(partner);
      PairScores(f, gts, dets, Front(partner)) +
      if last.Some? && last.value < |dets| && i < |gts| then [f(dets[last.value].box, gts[i].box)] else []
  }

  lemma {:induction false} FreeExactly(f: Score, gts: seq<Region>, dets: seq<Region>, threshold: real, n: nat)
    requires n <= |gts|
    ensures var st := Greedy(f, gts, dets, threshold, n);
            |st.partner| == n && forall j: nat :: j in st.used <==> !Free(st.partner, n, j)
  {
    if n > 0 {
      FreeExactly(f, gts, dets, threshold, n - 1);
      var st := Greedy(f, gts, dets, threshold, n - 1);
      var after := Greedy(f, gts, dets, threshold, n);
      assert after.partner == st.partner + [after.partner[n - 1]];
      forall j: nat
        ensures !Free(after.partner, n, j) <==> !Free(st.partner, n - 1, j) || after.partner[n - 1] == Some(j)
      {
        FreeOneMore(st.partner, after.partner[n - 1], j);
      }
    }
  }

  lemma {:induction false} FreeOneMore(partner: seq<Option<nat>>, o: Option<nat>, j: nat)
    ensures Free(partner + [o], |partner| + 1, j) <==> Free(partner, |partner|, j) && o != Some(j)
  {
    assert (partner + [o])[|partner|] == o;
    assert forall k :: 0 <= k < |partner| ==> (partner + [o])[k] == partner[k];
  }

  lemma {:induction false} BestLeftInLonger(f: Score, gts: seq<Region>, dets: seq<Region>, threshold: real,
        partner: seq<Option<nat>>, o: Option<nat>, i: nat)
    requires i < |partner| && i < |gts| && BestLeft(f, gts, dets, threshold, partner, i)
    ensures BestLeft(f, gts, dets, threshold, partner + [o], i)
  {
    assert (partner + [o])[i] == partner[i];
    forall j: nat
      ensures Free(partner + [o], i, j) <==> Free(partner, i, j)
    {
      assert forall k :: 0 <= k < i ==> (partner + [o])[k] == partner[k];
    }
  }

  lemma {:induction false} BestLeftLast(f: Score, gts: seq<Region>, dets: seq<Region>, threshold: real, st: Assignment,
        c: Choice)
    requires |st.partner| < |gts| && c == Best(f, gts[|st.partner|], dets, st.used, |dets|)
    requires forall j: nat :: j in st.used <==> !Free(st.partner, |st.partner|, j)
    ensures BestLeft(f, gts, dets, threshold, Extended(st, c, threshold).partner, |st.partner|)
  {
    var i := |st.partner|;
    BestIsBest(f, gts[i], dets, st.used, |dets|);
    var partner := Extended(st, c, threshold).partner;
    forall j: nat
      ensures Free(partner, i, j) <==> j !in st.used
    {
      assert forall k :: 0 <= k < i ==> partner[k] == st.partner[k];
    }
  }

  /** What holds of the assignment so far. */
  ghost predicate AllBestLeft(f: Score, gts: seq<Region>, dets: seq<Region>, threshold: real, st: Assignment, n: nat) {
    && n <= |gts| && |st.partner| == n && st.ious == PairScores(f, gts, dets, st.partner)
    && forall i :: 0 <= i < n ==> BestLeft(f, gts, dets, threshold, st.partner, i)
  }

  lemma {:induction false} ScoresOneMore(f: Score, gts: seq<Region>, dets: seq<Region>, threshold: real,
        st: Assignment, c: Choice)
    requires |st.partner| < |gts| && st.ious == PairScores(f, gts, dets, st.partner)
    requires c == Best(f, gts[|st.partner|], dets, st.used, |dets|)
    ensures Extended(st, c, threshold).ious == PairScores(f, gts, dets, Extended(st, c, threshold).partner)
  {
    BestIsBest(f, gts[|st.partner|], dets, st.used, |dets|);
    assert Front(Extended(st, c, threshold).partner) == st.partner;
  }

  lemma {:induction false} AllBestLeftOneMore(f: Score, gts: seq<Region>, dets: seq<Region>, threshold: real,
        st: Assignment, c: Choice)
    requires |st.partner| < |gts| && AllBestLeft(f, gts, dets, threshold, st, |st.partner|)
    requires c == Best(f, gts[|st.partner|], dets, st.used, |dets|)
    requires forall j: nat :: j in st.used <==> !Free(st.partner, |st.partner|, j)
    ensures AllBestLeft(f, gts, dets, threshold, Extended(st, c, threshold), |st.partner| + 1)
  {
    var after := Extended(st, c, threshold);
    BestLeftLast(f, gts, dets, threshold, st, c);
    ScoresOneMore(f, gts, dets, threshold, st, c);
    assert after.partner == st.partner + [Last(after.partner)];
    forall i | 0 <= i < |st.partner|
      ensures BestLeft(f, gts, dets, threshold, after.partner, i)
    {
      BestLeftInLonger(f, gts, dets, threshold, st.partner, Last(after.partner), i);
    }
  }

  /** Every region has the best detection that was left when its turn came, and the scores
      reported are those of the pairs. */
  lemma {:induction false} PartnersExactly(f: Score, gts: seq<Region>, dets: seq<Region>, threshold: real, n: nat)
    requires n <= |gts|
    ensures AllBestLeft(f, gts, dets, threshold, Greedy(f, gts, dets, threshold, n), n)
    decreases n
  {
    if n > 0 {
      PartnersExactly(f, gts, dets, threshold, n - 1);
      FreeExactly(f, gts, dets, threshold, n - 1);
      var st := Greedy(f, gts, dets, threshold, n - 1);
      AllBestLeftOneMore(f, gts, dets, threshold, st, Best(f, gts[n - 1], dets, st.used, |dets|));
    }
  }
}
