/**
 What merging does to the places of the findings (maskguard/risk/risk_engine.py): a group
 keeps one box, the box of the first member with the greatest confidence.
 */
module MergedPlaces {
  import opened DetectionMerging
  import opened Models

  /** The finding is in the place of `box`, or overlaps it. */
  predicate InPlace(d: Detection, box: BoundingBox) { d.box == box || box.Overlaps(d.box) }

  /** Every input is in the place of its representative, or overlaps it. */
  ghost predicate PlacesKept(ds: seq<Detection>, m: Merge) {
    && |m.owner| == |ds| == |m.values|
    && forall i :: 0 <= i < |ds| ==> m.owner[i] < |ds| && InPlace(ds[i], m.values[m.owner[i]].box)
  }

  /** Finding `k` is more confident than both `i` and `j`. */
  predicate BeatsBoth(ds: seq<Detection>, i: nat, j: nat, k: nat) {
    && i < |ds| && j < |ds| && k < |ds|
    && ds[i].confidence < ds[k].confidence && ds[j].confidence < ds[k].confidence
  }

  // ---------- within one group ----------

  /** No third or later member of the group of `r` is more confident than all members before it. */
  ghost predicate NoLateRecord(ds: seq<Detection>, owner: seq<nat>, r: nat) {
    forall i, j, k :: 0 <= i < j < k < |owner| && owner[i] == r && owner[j] == r && owner[k] == r ==>
      Matched(ds, owner, r, k)
  }

  /** Some earlier member is at least as confident as `k`. */
  ghost predicate Matched(ds: seq<Detection>, owner: seq<nat>, r: nat, k: nat)
    requires k < |owner|
  {
    exists l :: 0 <= l < k && owner[l] == r && k < |ds| && ds[l].confidence >= ds[k].confidence
  }

  ghost predicate MembersInPlace(ds: seq<Detection>, m: Merge, r: nat)
    requires r < |m.values|
  {
    forall x :: 0 <= x < |m.owner| && x < |ds| && m.owner[x] == r ==> InPlace(ds[x], m.values[r].box)
  }

  /** What the first `n` steps keep: later inputs are untouched, representatives lead their
      own groups, no member of the group of `r` beats its value, and its box moves only when
      another member has joined. */
  ghost predicate Grouped(ds: seq<Detection>, m: Merge, n: nat, r: nat) {
    && |m.owner| == n <= |ds| == |m.values| && r < |ds|
    && (forall x :: n <= x < |ds| ==> m.values[x] == ds[x])
    && (forall k :: 0 <= k < |m.reps| ==> m.reps[k] < n && m.owner[m.reps[k]] == m.reps[k])
    && (forall x :: 0 <= x < n ==> m.owner[x] in m.reps)
    && (forall x :: 0 <= x < n && m.owner[x] == r ==> ds[x].confidence <= m.values[r].confidence)
    && (m.values[r].box != ds[r].box ==> exists x :: 0 <= x < n && x != r && m.owner[x] == r)
  }

  /** And the members are in place as long as there is no late record. */
  ghost predicate Held(ds: seq<Detection>, m: Merge, n: nat, r: nat) {
    Grouped(ds, m, n, r) && (NoLateRecord(ds, m.owner, r) ==> MembersInPlace(ds, m, r))
  }

  lemma {:induction false} FewerMembers(ds: seq<Detection>, owner: seq<nat>, o: nat, r: nat)
    requires NoLateRecord(ds, owner + [o], r)
    ensures NoLateRecord(ds, owner, r)
  {
    var more := owner + [o];
    assert forall x :: 0 <= x < |owner| ==> more[x] == owner[x];
    forall i, j, k | 0 <= i < j < k < |owner| && owner[i] == r && owner[j] == r && owner[k] == r
      ensures Matched(ds, owner, r, k)
    {
      assert more[i] == r && more[j] == r && more[k] == r;
      var l :| 0 <= l < k && more[l] == r && k < |ds| && ds[l].confidence >= ds[k].confidence;
      assert owner[l] == r;
    }
  }

  /** The newcomer takes the place of a group only when it had one member. */
  lemma {:induction false} TakesFromOne(ds: seq<Detection>, m: Merge, n: nat, r: nat, x: nat)
    requires Held(ds, m, n, r) && n < |ds| && r in m.reps && NoLateRecord(ds, m.owner + [r], r)
    requires ds[n].confidence > m.values[r].confidence && x < n && m.owner[x] == r
    ensures x == r
  {
    var owner := m.owner + [r];
    assert owner[n] == r && owner[x] == r && owner[r] == r;
    assert forall l :: 0 <= l < n ==> owner[l] == m.owner[l];
    assert !Matched(ds, owner, r, n);
  }

  lemma {:induction false} JoinedInPlace(ds: seq<Detection>, m: Merge, m': Merge, n: nat, r: nat)
    requires Held(ds, m, n, r) && n < |ds| && r in m.reps && Duplicates(m.values, r, ds[n])
    requires m' == Merge(m.values[r := Absorb(m.values[r], ds[n])], m.reps, m.owner + [r])
    ensures NoLateRecord(ds, m'.owner, r) ==> MembersInPlace(ds, m', r)
  {
    if NoLateRecord(ds, m'.owner, r) {
      FewerMembers(ds, m.owner, r, r);
      forall x | 0 <= x < n + 1 && m'.owner[x] == r
        ensures InPlace(ds[x], m'.values[r].box)
      {
        if x < n && ds[n].confidence > m.values[r].confidence {
          OnlyLeaderMoves(ds, m, n, r, x);
        }
      }
    }
  }

  lemma {:induction false} OnlyLeaderMoves(ds: seq<Detection>, m: Merge, n: nat, r: nat, x: nat)
    requires Held(ds, m, n, r) && n < |ds| && r in m.reps && NoLateRecord(ds, m.owner + [r], r)
    requires Duplicates(m.values, r, ds[n]) && ds[n].confidence > m.values[r].confidence && x < n && m.owner[x] == r
    ensures InPlace(ds[x], ds[n].box)
  {
    TakesFromOne(ds, m, n, r, x);
    if m.values[r].box != ds[r].box {
      var y :| 0 <= y < n && y != r && m.owner[y] == r;
      TakesFromOne(ds, m, n, r, y);
    }
  }

  lemma {:induction false} GroupedAfterJoining(ds: seq<Detection>, m: Merge, m': Merge, n: nat, r: nat)
    requires Grouped(ds, m, n, r) && n < |ds| && r in m.reps
    requires m' == Merge(m.values[r := Absorb(m.values[r], ds[n])], m.reps, m.owner + [r])
    ensures Grouped(ds, m', n + 1, r)
  {
    assert m'.owner[n] == r && n != r;
    assert forall x :: 0 <= x < n ==> m'.owner[x] == m.owner[x];
  }

  lemma {:induction false} HeldAfterJoining(ds: seq<Detection>, m: Merge, m': Merge, n: nat, r: nat)
    requires Held(ds, m, n, r) && n < |ds| && r in m.reps && Duplicates(m.values, r, ds[n])
    requires m' == Merge(m.values[r := Absorb(m.values[r], ds[n])], m.reps, m.owner + [r])
    ensures Held(ds, m', n + 1, r)
  {
    JoinedInPlace(ds, m, m', n, r);
    GroupedAfterJoining(ds, m, m', n, r);
  }

  /** A step that does not touch the group of `r`. */
  lemma {:induction false} GroupedElsewhere(ds: seq<Detection>, m: Merge, m': Merge, n: nat, o: nat, r: nat)
    requires Grouped(ds, m, n, r) && n < |ds| && m'.owner == m.owner + [o] && o != r
    requires |m'.values| == |m.values| && m'.values[r] == m.values[r]
    requires forall x :: n < x < |ds| ==> m'.values[x] == ds[x]
    requires (m'.reps == m.reps && o in m.reps) || (m'.reps == m.reps + [n] && o == n)
    ensures Grouped(ds, m', n + 1, r)
  {
    assert forall x :: 0 <= x < n ==> m'.owner[x] == m.owner[x];
    assert m'.owner[n] == o;
    assert forall q :: q in m.reps ==> q in m'.reps;
    assert o in m'.reps;
    if m'.values[r].box != ds[r].box {
      var x :| 0 <= x < n && x != r && m.owner[x] == r;
      assert m'.owner[x] == r;
    }
  }

  lemma {:induction false} HeldElsewhere(ds: seq<Detection>, m: Merge, m': Merge, n: nat, o: nat, r: nat)
    requires Held(ds, m, n, r) && n < |ds| && m'.owner == m.owner + [o] && o != r
    requires |m'.values| == |m.values| && m'.values[r] == m.values[r]
    requires forall x :: n < x < |ds| ==> m'.values[x] == ds[x]
    requires (m'.reps == m.reps && o in m.reps) || (m'.reps == m.reps + [n] && o == n)
    ensures Held(ds, m', n + 1, r)
  {
    GroupedElsewhere(ds, m, m', n, o, r);
    if NoLateRecord(ds, m'.owner, r) {
      FewerMembers(ds, m.owner, o, r);
    }
  }

  lemma {:induction false} HeldByNewcomer(ds: seq<Detection>, m: Merge, m': Merge, n: nat)
    requires n < |ds| && Held(ds, m, n, n) && m' == Merge(m.values, m.reps + [n], m.owner + [n])
    ensures Held(ds, m', n + 1, n)
  {
    assert m'.owner[n] == n && n in m'.reps;
    assert forall q :: q in m.reps ==> q in m'.reps;
    assert forall x :: 0 <= x < n ==> m'.owner[x] == m.owner[x] != n;
  }

  lemma {:induction false} HeldAfterOne(ds: seq<Detection>, m: Merge, n: nat, r: nat)
    requires Held(ds, m, n, r) && n < |ds|
    ensures Held(ds, MergeOne(m, n, ds[n]), n + 1, r)
  {
    var m' := MergeOne(m, n, ds[n]);
    match FirstDuplicate(m.values, m.reps, ds[n]) {
      case None =>
        if r == n {
          HeldByNewcomer(ds, m, m', n);
        } else {
          HeldElsewhere(ds, m, m', n, n, r);
        }
      case Some(q) =>
        if q == r {
          HeldAfterJoining(ds, m, m', n, r);
        } else {
          HeldElsewhere(ds, m, m', n, q, r);
        }
    }
  }

  /** A group keeps the place of every member, unless its third or a later member is more
      confident than all before it. */
  lemma {:induction false} GroupKeepsPlaces(ds: seq<Detection>, m: Merge, r: nat)
    requires m == Merged(ds, |ds|) && r < |ds|
    ensures |m.owner| == |ds| && (NoLateRecord(ds, m.owner, r) ==> MembersInPlace(ds, m, r))
  {
    var p := (n: nat, m: Merge) => Held(ds, m, n, r);
    forall n: nat, m: Merge | n < |ds| && p(n, m)
      ensures p(n + 1, MergeOne(m, n, ds[n]))
    {
      HeldAfterOne(ds, m, n, r);
    }
    MergeInduction(ds, |ds|, p);
  }

  /** No member of the group is more confident than its leader. */
  ghost predicate LeaderUnbeaten(ds: seq<Detection>, owner: seq<nat>, r: nat) {
    r < |ds| && forall i :: 0 <= i < |owner| && i < |ds| && owner[i] == r ==> ds[i].confidence <= ds[r].confidence
  }

  /** Then the group keeps its leader's box. */
  lemma {:induction false} UnbeatenKeepsBox(ds: seq<Detection>, n: nat, r: nat)
    requires n <= |ds| && r in Merged(ds, n).reps && LeaderUnbeaten(ds, Merged(ds, n).owner, r)
    ensures r < |ds| && Merged(ds, n).values[r].box == ds[r].box
  {
    var m := Merged(ds, n);
    MergingIndexes(ds, n);
    MergingSettles(ds, n, r);
    MembersAreOwned(m.owner, r);
    MergingKeepsKinds(ds, n);
    var members := Members(m.owner, r);
    forall k | 0 <= k < |members|
      ensures ds[members[k]].kind == ds[members[0]].kind && ds[members[k]].confidence <= ds[r].confidence
    {
      assert members[k] in members && members[0] in members;
    }
    FoldRepresents(ds, members);
    GreatestAtFront(ds, members, m.values[r]);
  }

  lemma {:induction false} GreatestAtFront(ds: seq<Detection>, members: seq<nat>, v: Detection)
    requires Represents(ds, members, v)
    requires forall k :: 0 <= k < |members| ==> ds[members[k]].confidence <= ds[members[0]].confidence
    ensures v.box == ds[members[0]].box
  {
    var k :| FirstGreatest(ds, members, v, k);
    assert k == 0;
  }

  // ---------- over the whole list ----------

  /** No finding is more confident than two earlier findings of its type. */
  ghost predicate NoneBeatsTwo(ds: seq<Detection>) {
    forall i, j, k :: 0 <= i < j < k < |ds| && ds[i].kind == ds[k].kind && ds[j].kind == ds[k].kind ==>
      !BeatsBoth(ds, i, j, k)
  }

  lemma {:induction false} NoneLate(ds: seq<Detection>, owner: seq<nat>, r: nat)
    requires NoneBeatsTwo(ds) && |owner| == |ds|
    requires forall i :: 0 <= i < |owner| ==> r < |ds| && (owner[i] == r ==> ds[i].kind == ds[r].kind)
    ensures NoLateRecord(ds, owner, r)
  {
    forall i, j, k | 0 <= i < j < k < |owner| && owner[i] == r && owner[j] == r && owner[k] == r
      ensures Matched(ds, owner, r, k)
    {
      assert !BeatsBoth(ds, i, j, k);
      assert ds[i].confidence >= ds[k].confidence || ds[j].confidence >= ds[k].confidence;
    }
  }

  lemma {:induction false} EveryPlaceKept(ds: seq<Detection>, m: Merge)
    requires NoneBeatsTwo(ds) && m == Merged(ds, |ds|)
    ensures PlacesKept(ds, m)
  {
    MergingKeepsKinds(ds, |ds|);
    forall i | 0 <= i < |ds|
      ensures m.owner[i] < |ds| && InPlace(ds[i], m.values[m.owner[i]].box)
    {
      GroupKeepsPlaces(ds, m, m.owner[i]);
      NoneLate(ds, m.owner, m.owner[i]);
    }
  }

  /** The same findings in other places. */
  function Moved(ds: seq<Detection>, boxes: seq<BoundingBox>): (r: seq<Detection>)
    requires |boxes| == |ds|
    ensures |r| == |ds| && forall i :: 0 <= i < |ds| ==> r[i] == ds[i].(box := boxes[i])
  {
    seq(|ds|, i requires 0 <= i < |ds| => ds[i].(box := boxes[i]))
  }

  // ---------- a chain of three ----------

  datatype Row = Row(left: BoundingBox, middle: BoundingBox, right: BoundingBox, far: BoundingBox)

  /** Left and right both meet the middle but not each other, and none meets the last place. */
  predicate InARow(row: Row) {
    && row.left.Overlaps(row.middle) && row.middle.Overlaps(row.left)
    && row.middle.Overlaps(row.right) && !row.right.Overlaps(row.left)
    && !row.left.Overlaps(row.far) && !row.middle.Overlaps(row.far) && !row.right.Overlaps(row.far)
    && !row.far.Overlaps(row.left) && !row.far.Overlaps(row.middle) && !row.far.Overlaps(row.right)
    && row.left != row.right && row.left != row.far && row.middle != row.far && row.right != row.far
  }

  /** `k` on the right, the more confident of `i` and `j` in the middle, the other on the left, the rest far away. */
  function ChainBox(row: Row, ds: seq<Detection>, i: nat, j: nat, k: nat, x: nat): BoundingBox
    requires i < |ds| && j < |ds|
  {
    if x == k then row.right
    else if x == i then if ds[j].confidence > ds[i].confidence then row.left else row.middle
    else if x == j then if ds[j].confidence > ds[i].confidence then row.middle else row.left
    else row.far
  }

  function Chained(row: Row, ds: seq<Detection>, i: nat, j: nat, k: nat): seq<BoundingBox>
    requires i < |ds| && j < |ds|
  {
    seq(|ds|, x requires 0 <= x < |ds| => ChainBox(row, ds, i, j, k, x))
  }

  /** `ds` lie like that. */
  ghost predicate Chain(row: Row, ds: seq<Detection>, i: nat, j: nat, k: nat) {
    && InARow(row) && i < j < k < |ds| && ds[i].kind == ds[j].kind == ds[k].kind && BeatsBoth(ds, i, j, k)
    && ds[k].box == row.right && (forall x :: 0 <= x < |ds| && x != i && x != j && x != k ==> ds[x].box == row.far)
    && (if ds[j].confidence > ds[i].confidence then ds[i].box == row.left && ds[j].box == row.middle
        else ds[i].box == row.middle && ds[j].box == row.left)
  }

  /** The value of the chain after `n` steps, as far as it matters. */
  ghost predicate ChainValue(row: Row, ds: seq<Detection>, v: Detection, i: nat, j: nat, k: nat, n: nat)
    requires i < |ds| && j < |ds|
  {
    && (n <= j ==> v.box == ds[i].box && v.confidence == ds[i].confidence)
    && (j < n <= k ==> v.box == row.middle && (v.confidence == ds[j].confidence || v.confidence == ds[i].confidence))
    && (k < n ==> v.box == row.right)
  }

  /** What holds after `n` steps on a chain: it forms one group, led by `i`. */
  ghost predicate Linked(row: Row, ds: seq<Detection>, m: Merge, i: nat, j: nat, k: nat, n: nat) {
    && Chain(row, ds, i, j, k) && |m.owner| == n <= |ds| == |m.values|
    && (forall x :: n <= x < |ds| ==> m.values[x] == ds[x])
    && (forall x :: 0 <= x < |ds| ==> m.values[x].kind == ds[x].kind)
    && (forall q :: q in m.reps ==> q < n && (q == i || m.values[q].box == row.far))
    && (i < n ==> i in m.reps && ChainValue(row, ds, m.values[i], i, j, k, n))
    && (forall x :: 0 <= x < n && (x == i || x == j || x == k) ==> m.owner[x] == i)
  }

  lemma {:induction false} OnlyDuplicate(values: seq<Detection>, reps: seq<nat>, d: Detection, i: nat)
    requires forall q :: q in reps && q != i ==> !Duplicates(values, q, d)
    ensures FirstDuplicate(values, reps, d) == if i in reps && Duplicates(values, i, d) then Some(i) else None
  {
    if reps != [] && !Duplicates(values, reps[0], d) {
      assert reps == [reps[0]] + reps[1..];
      OnlyDuplicate(values, reps[1..], d, i);
    }
  }

  lemma {:induction false} FarJoins(row: Row, ds: seq<Detection>, m: Merge, i: nat, j: nat, k: nat, n: nat, q: nat)
    requires Linked(row, ds, m, i, j, k, n) && n < |ds| && n != i && n != j && n != k && q in m.reps && q != i
    ensures Linked(row, ds, Merge(m.values[q := Absorb(m.values[q], ds[n])], m.reps, m.owner + [q]), i, j, k, n + 1)
  {
    assert forall x :: 0 <= x < n ==> (m.owner + [q])[x] == m.owner[x];
  }

  lemma {:induction false} FarStarts(row: Row, ds: seq<Detection>, m: Merge, i: nat, j: nat, k: nat, n: nat)
    requires Linked(row, ds, m, i, j, k, n) && n < |ds| && n != i && n != j && n != k
    ensures Linked(row, ds, Merge(m.values, m.reps + [n], m.owner + [n]), i, j, k, n + 1)
  {
    assert forall x :: 0 <= x < n ==> (m.owner + [n])[x] == m.owner[x];
  }

  lemma {:induction false} ChainValueBox(row: Row, ds: seq<Detection>, v: Detection, i: nat, j: nat, k: nat, n: nat)
    requires Chain(row, ds, i, j, k) && ChainValue(row, ds, v, i, j, k, n)
    ensures v.box == row.left || v.box == row.middle || v.box == row.right
    ensures n == j || n == k ==> v.box.Overlaps(ds[n].box)
  {}

  lemma {:induction false} LinkedByFar(row: Row, ds: seq<Detection>, m: Merge, i: nat, j: nat, k: nat, n: nat)
    requires Linked(row, ds, m, i, j, k, n) && n < |ds| && n != i && n != j && n != k
    ensures Linked(row, ds, MergeOne(m, n, ds[n]), i, j, k, n + 1)
  {
    match FirstDuplicate(m.values, m.reps, ds[n]) {
      case None =>
        FarStarts(row, ds, m, i, j, k, n);
      case Some(q) =>
        if i < n {
          ChainValueBox(row, ds, m.values[i], i, j, k, n);
        }
        FarJoins(row, ds, m, i, j, k, n, q);
    }
  }

  lemma {:induction false} LinkedByFirst(row: Row, ds: seq<Detection>, m: Merge, i: nat, j: nat, k: nat)
    requires Linked(row, ds, m, i, j, k, i)
    ensures Linked(row, ds, MergeOne(m, i, ds[i]), i, j, k, i + 1)
  {
    OnlyDuplicate(m.values, m.reps, ds[i], i);
    assert i !in m.reps;
    assert (m.owner + [i])[i] == i && i in m.reps + [i];
  }

  lemma {:induction false} NextIsDuplicate(row: Row, ds: seq<Detection>, m: Merge, i: nat, j: nat, k: nat, n: nat)
    requires Linked(row, ds, m, i, j, k, n) && (n == j || n == k)
    ensures FirstDuplicate(m.values, m.reps, ds[n]) == Some(i)
  {
    ChainValueBox(row, ds, m.values[i], i, j, k, n);
    OnlyDuplicate(m.values, m.reps, ds[n], i);
  }

  lemma {:induction false} NextValue(row: Row, ds: seq<Detection>, v: Detection, i: nat, j: nat, k: nat, n: nat)
    requires Chain(row, ds, i, j, k) && ChainValue(row, ds, v, i, j, k, n) && (n == j || n == k)
    ensures ChainValue(row, ds, Absorb(v, ds[n]), i, j, k, n + 1)
  {}

  lemma {:induction false} LinkedByNext(row: Row, ds: seq<Detection>, m: Merge, i: nat, j: nat, k: nat, n: nat)
    requires Linked(row, ds, m, i, j, k, n) && (n == j || n == k)
    ensures Linked(row, ds, Merge(m.values[i := Absorb(m.values[i], ds[n])], m.reps, m.owner + [i]), i, j, k, n + 1)
  {
    NextValue(row, ds, m.values[i], i, j, k, n);
    assert (m.owner + [i])[n] == i && forall x :: 0 <= x < n ==> (m.owner + [i])[x] == m.owner[x];
  }

  lemma {:induction false} LinkedAfterOne(row: Row, ds: seq<Detection>, m: Merge, i: nat, j: nat, k: nat, n: nat)
    requires Linked(row, ds, m, i, j, k, n) && n < |ds|
    ensures Linked(row, ds, MergeOne(m, n, ds[n]), i, j, k, n + 1)
  {
    if n == i {
      LinkedByFirst(row, ds, m, i, j, k);
    } else if n == j || n == k {
      NextIsDuplicate(row, ds, m, i, j, k, n);
      LinkedByNext(row, ds, m, i, j, k, n);
    } else {
      LinkedByFar(row, ds, m, i, j, k, n);
    }
  }

  lemma {:induction false} ChainIsLinked(row: Row, ds: seq<Detection>, i: nat, j: nat, k: nat)
    requires Chain(row, ds, i, j, k)
    ensures Linked(row, ds, Merged(ds, |ds|), i, j, k, |ds|)
  {
    var p := (n: nat, m: Merge) => Linked(row, ds, m, i, j, k, n);
    forall n: nat, m: Merge | n < |ds| && p(n, m)
      ensures p(n + 1, MergeOne(m, n, ds[n]))
    {
      LinkedAfterOne(row, ds, m, i, j, k, n);
    }
    MergeInduction(ds, |ds|, p);
  }

  /** Two findings and a later, more confident one of their type: somewhere the place of one is lost. */
  lemma {:induction false} ChainLosesPlace(row: Row, ds: seq<Detection>, i: nat, j: nat, k: nat)
    requires InARow(row) && i < j < k < |ds|
    requires ds[i].kind == ds[k].kind && ds[j].kind == ds[k].kind && BeatsBoth(ds, i, j, k)
    ensures |Chained(row, ds, i, j, k)| == |ds|
    ensures var moved := Moved(ds, Chained(row, ds, i, j, k)); !PlacesKept(moved, Merged(moved, |moved|))
  {
    var moved := Moved(ds, Chained(row, ds, i, j, k));
    assert Chain(row, moved, i, j, k);
    ChainIsLinked(row, moved, i, j, k);
    LostOnTheLeft(row, moved, Merged(moved, |moved|), i, j, k);
  }

  lemma {:induction false} LostOnTheLeft(row: Row, ds: seq<Detection>, m: Merge, i: nat, j: nat, k: nat)
    requires Linked(row, ds, m, i, j, k, |ds|)
    ensures !PlacesKept(ds, m)
  {
    var lost := if ds[j].confidence > ds[i].confidence then i else j;
    assert m.owner[lost] == i && m.values[i].box == row.right;
    assert ds[lost].box == row.left && !InPlace(ds[lost], row.right);
  }

  /** For given types and confidences: wherever the findings are, each is in the place of its
      representative or overlaps it, if and only if none is more confident than two earlier
      ones of its type. */
  lemma {:induction false} PlacesKeptExactly(ds: seq<Detection>)
    ensures (forall boxes: seq<BoundingBox> :: |boxes| == |ds| ==>
               PlacesKept(Moved(ds, boxes), Merged(Moved(ds, boxes), |ds|)))
            <==> NoneBeatsTwo(ds)
  {
    if NoneBeatsTwo(ds) {
      forall boxes: seq<BoundingBox> | |boxes| == |ds|
        ensures PlacesKept(Moved(ds, boxes), Merged(Moved(ds, boxes), |ds|))
      {
        var moved := Moved(ds, boxes);
        EveryPlaceKept(moved, Merged(moved, |ds|));
      }
    } else {
      var i, j, k :| 0 <= i < j < k < |ds| && ds[i].kind == ds[k].kind && ds[j].kind == ds[k].kind &&
        BeatsBoth(ds, i, j, k);
      var row := Row(BoundingBox(0, 0, 10, 10), BoundingBox(8, 0, 10, 10),
                     BoundingBox(16, 0, 10, 10), BoundingBox(1000, 0, 10, 10));
      ChainLosesPlace(row, ds, i, j, k);
    }
  }
}
