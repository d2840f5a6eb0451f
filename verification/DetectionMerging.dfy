/**
 Merging overlapping detections of one type (maskguard/risk/risk_engine.py).

 A list of detections is an array, so that a detection updated in place stays the same
 element; the merged list is the sequence of the indices that represent a group.
 */
module DetectionMerging {
  import opened Models

  // ---------- the loop, on values ----------

  /** First occurrences, in order. */
  function Dedup<T(==)>(s: seq<T>): seq<T> {
    if s == [] then []
    else
      var front := Dedup(s[..|s| - 1]);
      if s[|s| - 1] in front then front else front + [s[|s| - 1]]
  }

  /** `a` after a duplicate `d` has been folded into it. */
  function Absorb(a: Detection, d: Detection): Detection {
    var stronger := d.confidence > a.confidence;
    a.(confidence := if stronger then d.confidence else a.confidence,
       box := if stronger then d.box else a.box,
       text := if stronger then d.text else a.text,
       sourceLayers := Dedup(a.sourceLayers + d.sourceLayers),
       unknown := a.unknown && d.unknown)
  }

  /** The values so far, the indices of the representatives, and each input's representative. */
  datatype Merge = Merge(values: seq<Detection>, reps: seq<nat>, owner: seq<nat>)

  predicate Duplicates(values: seq<Detection>, r: nat, d: Detection) {
    r < |values| && values[r].kind == d.kind && values[r].box.Overlaps(d.box)
  }

  function FirstDuplicate(values: seq<Detection>, reps: seq<nat>, d: Detection): (r: Option<nat>)
    ensures r.Some? ==> r.value in reps && Duplicates(values, r.value, d)
  {
    if reps == [] then None
    else if Duplicates(values, reps[0], d) then Some(reps[0])
    else FirstDuplicate(values, reps[1..], d)
  }

  lemma {:induction false} FirstDuplicateIsFirst(values: seq<Detection>, reps: seq<nat>, d: Detection)
    ensures match FirstDuplicate(values, reps, d)
            case None => forall k :: 0 <= k < |reps| ==> !Duplicates(values, reps[k], d)
            case Some(r) => exists k :: 0 <= k < |reps| && reps[k] == r && Duplicates(values, r, d) &&
                              forall l :: 0 <= l < k ==> !Duplicates(values, reps[l], d)
  {
    if reps != [] && !Duplicates(values, reps[0], d) {
      FirstDuplicateIsFirst(values, reps[1..], d);
      if FirstDuplicate(values, reps[1..], d).Some? {
        var r := FirstDuplicate(values, reps[1..], d).value;
        var k :| 0 <= k < |reps[1..]| && reps[1..][k] == r && Duplicates(values, r, d) &&
          forall l :: 0 <= l < k ==> !Duplicates(values, reps[1..][l], d);
        assert reps[k + 1] == r;
        forall l | 0 <= l < k + 1
          ensures !Duplicates(values, reps[l], d)
        {
          assert l > 0 ==> reps[l] == reps[1..][l - 1];
        }
      }
    }
  }

  /** Input `i`, with value `d`, starts a group or joins the first it duplicates. */
  function MergeOne(m: Merge, i: nat, d: Detection): (m': Merge)
    ensures |m'.values| == |m.values|
  {
    match FirstDuplicate(m.values, m.reps, d)
    case None => Merge(m.values, m.reps + [i], m.owner + [i])
    case Some(r) => Merge(m.values[r := Absorb(m.values[r], d)], m.reps, m.owner + [r])
  }

  function Merged(ds: seq<Detection>, n: nat): (m: Merge)
    requires n <= |ds|
    ensures |m.values| == |ds|
  {
    if n == 0 then Merge(ds, [], []) else MergeOne(Merged(ds, n - 1), n - 1, ds[n - 1])
  }

  /** What holds at the start and is kept by every step holds at the end. */
  lemma {:induction false} MergeInduction(ds: seq<Detection>, n: nat, p: (nat, Merge) -> bool)
    requires n <= |ds| && p(0, Merge(ds, [], []))
    requires forall k: nat, m: Merge :: k < n && p(k, m) ==> p(k + 1, MergeOne(m, k, ds[k]))
    ensures p(n, Merged(ds, n))
    decreases n
  {
    if n != 0 {
      MergeInduction(ds, n - 1, p);
      assert p(n - 1 + 1, MergeOne(Merged(ds, n - 1), n - 1, ds[n - 1]));
    }
  }

  // ---------- what merging does ----------

  /** The inputs represented by `r`, in order. */
  function Members(owner: seq<nat>, r: nat): seq<nat> {
    if owner == [] then []
    else Members(owner[..|owner| - 1], r) + if owner[|owner| - 1] == r then [|owner| - 1] else []
  }

  ghost predicate Within(members: seq<nat>, n: nat) { forall k :: 0 <= k < |members| ==> members[k] < n }

  ghost function Layers(ds: seq<Detection>, members: seq<nat>): seq<Layer>
    requires Within(members, |ds|)
  {
    if members == [] then []
    else Layers(ds, members[..|members| - 1]) + ds[members[|members| - 1]].sourceLayers
  }

  /** `v` stands for the members of a group: the confidence is the greatest, text and box
      come from the first member that reaches it, the layers are the ordered union, the
      group is unknown only if every member is, and the rest is the leader's. */
  ghost predicate Represents(ds: seq<Detection>, members: seq<nat>, v: Detection) {
    && members != [] && Within(members, |ds|)
    && OneKind(ds, members, v)
    && (exists k :: FirstGreatest(ds, members, v, k))
    && v.sourceLayers == (if |members| == 1 then ds[members[0]].sourceLayers else Dedup(Layers(ds, members)))
    && (v.unknown <==> AllUnknown(ds, members))
    && SameVerdict(ds[members[0]], v)
  }

  ghost predicate OneKind(ds: seq<Detection>, members: seq<nat>, v: Detection)
    requires Within(members, |ds|)
  {
    forall k :: 0 <= k < |members| ==> ds[members[k]].kind == v.kind && ds[members[k]].confidence <= v.confidence
  }

  ghost predicate AllUnknown(ds: seq<Detection>, members: seq<nat>)
    requires Within(members, |ds|)
  {
    forall k :: 0 <= k < |members| ==> ds[members[k]].unknown
  }

  /** Merging never touches these. */
  predicate SameVerdict(a: Detection, b: Detection) {
    a.riskScore == b.riskScore && a.riskLevel == b.riskLevel && a.action == b.action && a.needsReview == b.needsReview
  }

  ghost predicate FirstGreatest(ds: seq<Detection>, members: seq<nat>, v: Detection, k: nat)
    requires Within(members, |ds|)
  {
    && k < |members|
    && ds[members[k]].confidence == v.confidence && ds[members[k]].box == v.box && ds[members[k]].text == v.text
    && forall l :: 0 <= l < k ==> ds[members[l]].confidence < v.confidence
  }

  /** The members folded together from the first to the last. */
  ghost function Fold(ds: seq<Detection>, members: seq<nat>): Detection
    requires members != [] && Within(members, |ds|)
    decreases |members|
  {
    if |members| == 1 then ds[members[0]]
    else Absorb(Fold(ds, members[..|members| - 1]), ds[members[|members| - 1]])
  }

  /** `r` leads its own group and its value is the group folded together. */
  ghost predicate Leads(ds: seq<Detection>, m: Merge, r: nat) {
    var members := Members(m.owner, r);
    && r < |m.owner| && r < |m.values|
    && members != [] && members[0] == r && Within(members, |ds|)
    && m.values[r] == Fold(ds, members)
  }

  ghost predicate Ascending(reps: seq<nat>) { forall i, j :: 0 <= i < j < |reps| ==> reps[i] < reps[j] }

  /** Every input has a representative, and representatives are inputs, in order. */
  ghost predicate Indexed(reps: seq<nat>, owner: seq<nat>) {
    && Ascending(reps)
    && (forall k :: 0 <= k < |reps| ==> reps[k] < |owner|)
    && (forall i :: 0 <= i < |owner| ==> owner[i] in reps)
  }

  lemma {:induction false} DedupContents<T>(s: seq<T>)
    ensures forall x :: x in Dedup(s) <==> x in s
    ensures forall i, j :: 0 <= i < j < |Dedup(s)| ==> Dedup(s)[i] != Dedup(s)[j]
  {
    if s != [] {
      DedupContents(s[..|s| - 1]);
      assert forall x :: x in s <==> x in s[..|s| - 1] || x == s[|s| - 1];
    }
  }

  lemma {:induction false} DedupAgain<T>(a: seq<T>, b: seq<T>)
    ensures Dedup(Dedup(a) + b) == Dedup(a + b)
    decreases |b|
  {
    if b == [] {
      assert a + b == a && Dedup(a) + b == Dedup(a);
      DedupOfDistinct(Dedup(a));
      DedupContents(a);
    } else {
      var front, last := b[..|b| - 1], b[|b| - 1];
      DedupAgain(a, front);
      assert (a + b)[..|a + b| - 1] == a + front;
      assert (Dedup(a) + b)[..|Dedup(a) + b| - 1] == Dedup(a) + front;
    }
  }

  lemma {:induction false} DedupOfDistinct<T>(s: seq<T>)
    ensures (forall i, j :: 0 <= i < j < |s| ==> s[i] != s[j]) ==> Dedup(s) == s
  {
    if s != [] {
      DedupOfDistinct(s[..|s| - 1]);
      DedupContents(s[..|s| - 1]);
      assert s == s[..|s| - 1] + [s[|s| - 1]];
    }
  }

  lemma {:induction false} LayersOneMore(ds: seq<Detection>, members: seq<nat>, i: nat)
    requires Within(members, |ds|) && i < |ds|
    ensures Within(members + [i], |ds|) && Layers(ds, members + [i]) == Layers(ds, members) + ds[i].sourceLayers
    ensures members == [i] ==> Layers(ds, members) == ds[i].sourceLayers
  {
    assert (members + [i])[..|members|] == members;
    assert members == [i] ==> members[..0] == [] && [] + ds[i].sourceLayers == ds[i].sourceLayers;
  }

  lemma {:induction false} AbsorbedLayers(ds: seq<Detection>, members: seq<nat>, i: nat, v: Detection)
    requires Represents(ds, members, v) && i < |ds|
    ensures Dedup(v.sourceLayers + ds[i].sourceLayers) == Dedup(Layers(ds, members + [i]))
  {
    LayersOneMore(ds, members, i);
    if |members| == 1 {
      assert members == [members[0]];
      LayersOneMore(ds, members, members[0]);
    } else {
      DedupAgain(Layers(ds, members), ds[i].sourceLayers);
    }
  }

  lemma {:induction false} AbsorbedGreatest(ds: seq<Detection>, members: seq<nat>, i: nat, v: Detection)
    requires Represents(ds, members, v) && i < |ds|
    ensures Within(members + [i], |ds|) && exists k :: FirstGreatest(ds, members + [i], Absorb(v, ds[i]), k)
  {
    var more, w := members + [i], Absorb(v, ds[i]);
    assert forall k :: 0 <= k < |members| ==> more[k] == members[k];
    assert more[|members|] == i;
    if ds[i].confidence > v.confidence {
      assert FirstGreatest(ds, more, w, |members|);
    } else {
      var k :| FirstGreatest(ds, members, v, k);
      assert FirstGreatest(ds, more, w, k);
    }
  }

  lemma {:induction false} AbsorbedKind(ds: seq<Detection>, members: seq<nat>, i: nat, v: Detection)
    requires Within(members, |ds|) && OneKind(ds, members, v) && i < |ds| && ds[i].kind == v.kind
    ensures Within(members + [i], |ds|) && OneKind(ds, members + [i], Absorb(v, ds[i]))
  {
    var more := members + [i];
    assert forall k :: 0 <= k < |members| ==> more[k] == members[k];
    assert more[|members|] == i;
  }

  lemma {:induction false} AbsorbedUnknown(ds: seq<Detection>, members: seq<nat>, i: nat, unknown: bool)
    requires Within(members, |ds|) && Within(members + [i], |ds|) && i < |ds|
    requires unknown <==> AllUnknown(ds, members)
    ensures unknown && ds[i].unknown <==> AllUnknown(ds, members + [i])
  {
    var more := members + [i];
    assert forall k :: 0 <= k < |members| ==> more[k] == members[k];
    assert more[|members|] == i;
    if AllUnknown(ds, more) {
      assert forall k :: 0 <= k < |members| ==> ds[more[k]].unknown;
    }
  }

  lemma {:induction false} AbsorbRepresents(ds: seq<Detection>, members: seq<nat>, i: nat, v: Detection)
    requires Represents(ds, members, v) && i < |ds| && ds[i].kind == v.kind
    ensures Represents(ds, members + [i], Absorb(v, ds[i]))
  {
    AbsorbedKind(ds, members, i, v);
    AbsorbedUnknown(ds, members, i, v.unknown);
    AbsorbedLayers(ds, members, i, v);
    AbsorbedGreatest(ds, members, i, v);
    assert (members + [i])[0] == members[0] && |members + [i]| > 1;
  }

  /** A group folded together is represented as promised. */
  lemma {:induction false} FoldRepresents(ds: seq<Detection>, members: seq<nat>)
    requires members != [] && Within(members, |ds|)
    requires forall k :: 0 <= k < |members| ==> ds[members[k]].kind == ds[members[0]].kind
    ensures Represents(ds, members, Fold(ds, members)) && Fold(ds, members).kind == ds[members[0]].kind
    decreases |members|
  {
    if |members| == 1 {
      assert FirstGreatest(ds, members, ds[members[0]], 0);
    } else {
      var front, last := members[..|members| - 1], members[|members| - 1];
      assert members == front + [last];
      FoldRepresents(ds, front);
      assert Fold(ds, members) == Absorb(Fold(ds, front), ds[last]);
      AbsorbRepresents(ds, front, last, Fold(ds, front));
    }
  }

  lemma {:induction false} MembersOneMore(owner: seq<nat>, o: nat, r: nat)
    ensures Members(owner + [o], r) == Members(owner, r) + if o == r then [|owner|] else []
  {
    assert (owner + [o])[..|owner|] == owner;
  }

  /** The members of a group are exactly the inputs it owns, in order. */
  lemma {:induction false} MembersAreOwned(owner: seq<nat>, r: nat)
    ensures forall i :: i in Members(owner, r) <==> 0 <= i < |owner| && owner[i] == r
    ensures forall k, l :: 0 <= k < l < |Members(owner, r)| ==> Members(owner, r)[k] < Members(owner, r)[l]
  {
    if owner != [] {
      var front := owner[..|owner| - 1];
      MembersAreOwned(front, r);
      assert forall k :: 0 <= k < |Members(front, r)| ==> Members(front, r)[k] in Members(front, r);
    }
  }

  lemma {:induction false} NoMembers(owner: seq<nat>, r: nat)
    requires r !in owner
    ensures Members(owner, r) == []
  {
    if owner != [] {
      NoMembers(owner[..|owner| - 1], r);
    }
  }

  lemma {:induction false} NewLeads(ds: seq<Detection>, m: Merge, i: nat)
    requires |m.values| == |ds| && i == |m.owner| < |ds| && i !in m.owner && m.values[i] == ds[i]
    ensures Leads(ds, Merge(m.values, m.reps + [i], m.owner + [i]), i)
  {
    NoMembers(m.owner, i);
    MembersOneMore(m.owner, i, i);
    assert Members(m.owner + [i], i) == [i];
  }

  /** A group that gains no member keeps its leader. */
  lemma {:induction false} StillLeads(ds: seq<Detection>, m: Merge, m': Merge, o: nat, r: nat)
    requires Leads(ds, m, r) && m'.owner == m.owner + [o] && o != r
    requires |m'.values| == |m.values| && m'.values[r] == m.values[r]
    ensures Leads(ds, m', r)
  {
    MembersOneMore(m.owner, o, r);
    assert Members(m.owner, r) + [] == Members(m.owner, r);
  }

  lemma {:induction false} AbsorbingLeads(ds: seq<Detection>, m: Merge, m': Merge, r: nat)
    requires Leads(ds, m, r) && |m.values| == |ds| && |m.owner| < |ds|
    requires m'.owner == m.owner + [r] && m'.values == m.values[r := Absorb(m.values[r], ds[|m.owner|])]
    ensures Leads(ds, m', r)
  {
    var members := Members(m.owner, r);
    MembersOneMore(m.owner, r, r);
    assert (members + [|m.owner|])[..|members|] == members;
  }

  lemma {:induction false} IndexedAfterOne(m: Merge, i: nat, d: Detection)
    requires Indexed(m.reps, m.owner) && i == |m.owner|
    ensures var m' := MergeOne(m, i, d); Indexed(m'.reps, m'.owner) && |m'.owner| == i + 1
  {
    assert forall r :: r in m.reps ==> r in m.reps + [i];
    assert (m.reps + [i])[|m.reps|] == i;
  }

  lemma {:induction false} MergingIndexes(ds: seq<Detection>, n: nat)
    requires n <= |ds|
    ensures Indexed(Merged(ds, n).reps, Merged(ds, n).owner) && |Merged(ds, n).owner| == n
  {
    var p := (k: nat, m: Merge) => Indexed(m.reps, m.owner) && |m.owner| == k;
    forall k: nat, m: Merge | k < n && p(k, m)
      ensures p(k + 1, MergeOne(m, k, ds[k]))
    {
      IndexedAfterOne(m, k, ds[k]);
    }
    MergeInduction(ds, n, p);
  }

  /** A representative leads a group that it stands for; anything else is as it was. */
  ghost predicate Settled(ds: seq<Detection>, m: Merge, r: nat) {
    && |m.values| == |ds|
    && if r in m.reps then Leads(ds, m, r) else r < |ds| ==> m.values[r] == ds[r]
  }

  lemma {:induction false} SettledAfterOne(ds: seq<Detection>, m: Merge, i: nat, r: nat)
    requires Indexed(m.reps, m.owner) && Settled(ds, m, r) && i == |m.owner| < |ds|
    ensures Settled(ds, MergeOne(m, i, ds[i]), r)
  {
    if r in m.reps {
      LeadsAfterOne(ds, m, r);
    } else if r == i && r in MergeOne(m, i, ds[i]).reps {
      NewLeads(ds, m, r);
    }
  }

  lemma {:induction false} StartsSettled(ds: seq<Detection>, m: Merge, r: nat)
    requires m == Merge(ds, [], [])
    ensures Indexed(m.reps, m.owner) && |m.owner| == 0 && Settled(ds, m, r)
  {}

  lemma {:induction false} MergingSettles(ds: seq<Detection>, n: nat, r: nat)
    requires n <= |ds|
    ensures Settled(ds, Merged(ds, n), r)
  {
    var p := (k: nat, m: Merge) => Indexed(m.reps, m.owner) && |m.owner| == k && Settled(ds, m, r);
    forall k: nat, m: Merge | k < n && p(k, m)
      ensures p(k + 1, MergeOne(m, k, ds[k]))
    {
      IndexedAfterOne(m, k, ds[k]);
      SettledAfterOne(ds, m, k, r);
    }
    StartsSettled(ds, Merge(ds, [], []), r);
    MergeInduction(ds, n, p);
  }

  lemma {:induction false} LeadsAfterOne(ds: seq<Detection>, m: Merge, r: nat)
    requires Leads(ds, m, r) && |m.values| == |ds| && |m.owner| < |ds|
    ensures Leads(ds, MergeOne(m, |m.owner|, ds[|m.owner|]), r)
  {
    var i := |m.owner|;
    var m' := MergeOne(m, i, ds[i]);
    var o := m'.owner[i];
    assert m'.owner == m.owner + [o];
    if o == r {
      AbsorbingLeads(ds, m, m', r);
    } else {
      StillLeads(ds, m, m', o, r);
    }
  }

  /** Representatives have the type of what they represent. */
  ghost predicate KindsKept(ds: seq<Detection>, m: Merge) {
    && |m.values| == |ds| && |m.owner| <= |ds|
    && (forall i :: 0 <= i < |ds| ==> m.values[i].kind == ds[i].kind)
    && (forall i :: 0 <= i < |m.owner| ==> m.owner[i] < |ds| && ds[m.owner[i]].kind == ds[i].kind)
    && (forall k :: 0 <= k < |m.reps| ==> m.reps[k] < |ds|)
  }

  lemma {:induction false} KindsAfterOne(ds: seq<Detection>, m: Merge, i: nat)
    requires KindsKept(ds, m) && i == |m.owner| < |ds|
    ensures KindsKept(ds, MergeOne(m, i, ds[i])) && |MergeOne(m, i, ds[i]).owner| == i + 1
  {}

  lemma {:induction false} MergingKeepsKinds(ds: seq<Detection>, n: nat)
    requires n <= |ds|
    ensures KindsKept(ds, Merged(ds, n)) && |Merged(ds, n).owner| == n
  {
    var p := (k: nat, m: Merge) => KindsKept(ds, m) && |m.owner| == k;
    forall k: nat, m: Merge | k < n && p(k, m)
      ensures p(k + 1, MergeOne(m, k, ds[k]))
    {
      KindsAfterOne(ds, m, k);
    }
    MergeInduction(ds, n, p);
  }

  /** What each input has become: its representative has its type and stands for its group. */
  lemma {:induction false} RepresentativeOf(ds: seq<Detection>, i: nat)
    requires i < |ds|
    ensures |Merged(ds, |ds|).owner| == |ds|
    ensures var m, r := Merged(ds, |ds|), Merged(ds, |ds|).owner[i];
            && r in m.reps && r < |ds| && m.values[r].kind == ds[i].kind
            && i in Members(m.owner, r) && Represents(ds, Members(m.owner, r), m.values[r])
  {
    MergingIndexes(ds, |ds|);
    MergingKeepsKinds(ds, |ds|);
    var m := Merged(ds, |ds|);
    var r := m.owner[i];
    MembersAreOwned(m.owner, r);
    MergingSettles(ds, |ds|, r);
    var members := Members(m.owner, r);
    forall k | 0 <= k < |members|
      ensures ds[members[k]].kind == ds[members[0]].kind
    {
      assert members[k] in members && members[0] in members;
    }
    FoldRepresents(ds, members);
  }

  /** A representative leads its own group. */
  lemma {:induction false} LeadsItself(ds: seq<Detection>, r: nat)
    requires r in Merged(ds, |ds|).reps
    ensures r < |Merged(ds, |ds|).owner| == |ds| && Merged(ds, |ds|).owner[r] == r
  {
    MergingIndexes(ds, |ds|);
    MergingSettles(ds, |ds|, r);
    MembersAreOwned(Merged(ds, |ds|).owner, r);
    assert Members(Merged(ds, |ds|).owner, r)[0] in Members(Merged(ds, |ds|).owner, r);
  }

  /** And comes first in it. */
  lemma {:induction false} LeaderFirst(ds: seq<Detection>, a: nat, m: Merge)
    requires a < |ds| && m == Merged(ds, |ds|)
    ensures |m.owner| == |ds| && m.owner[a] <= a && m.owner[a] in m.reps
  {
    MergingIndexes(ds, |ds|);
    RepresentativeOf(ds, a);
    LeadsItself(ds, m.owner[a]);
    MergingSettles(ds, |ds|, m.owner[a]);
    var members := Members(m.owner, m.owner[a]);
    MembersAreOwned(m.owner, m.owner[a]);
    var k :| 0 <= k < |members| && members[k] == a;
    assert members[0] == m.owner[a];
  }

  /** Two overlapping findings of one type become one. */
  lemma {:induction false} PairMerges(ds: seq<Detection>, m: Merge)
    requires |ds| == 2 && m == Merged(ds, |ds|) && ds[0].kind == ds[1].kind && ds[0].box.Overlaps(ds[1].box)
    ensures m.owner == [0, 0] && m.reps == [0] && |m.values| == 2 && m.values[0] == Absorb(ds[0], ds[1])
  {
    assert Merged(ds, 0) == Merge(ds, [], []);
    assert Merged(ds, 1) == Merge(ds, [0], [0]);
    assert FirstDuplicate(ds, [0], ds[1]) == Some(0);
    assert Merged(ds, 2) == Merge(ds[0 := Absorb(ds[0], ds[1])], [0], [0, 0]);
  }

  // ---------- the loop ----------

  method MergeOverlapping(detections: array<Detection>) returns (merged: seq<nat>)
    modifies detections
    ensures detections[..] == Merged(old(detections[..]), detections.Length).values
    ensures merged == Merged(old(detections[..]), detections.Length).reps
  {
    ghost var before := detections[..];
    merged := [];
    for n := 0 to detections.Length
      invariant detections[..] == Merged(before, n).values && merged == Merged(before, n).reps
    {
      NotYetMerged(before, n);
      RepsInRange(before, n);
      merged := MergeNext(detections, merged, n, Merged(before, n));
    }
  }

  method MergeNext(detections: array<Detection>, merged: seq<nat>, n: nat, ghost m: Merge) returns (after: seq<nat>)
    requires n < detections.Length && detections[..] == m.values && merged == m.reps
    requires forall k :: 0 <= k < |merged| ==> merged[k] < detections.Length
    modifies detections
    ensures detections[..] == MergeOne(m, n, old(detections[n])).values
    ensures after == MergeOne(m, n, old(detections[n])).reps
  {
    var d := detections[n];
    var duplicate := Find(detections, merged, d);
    if duplicate.None? {
      return merged + [n];
    }
    AbsorbInto(detections, duplicate.value, d);
    return merged;
  }

  lemma {:induction false} NotYetMerged(ds: seq<Detection>, n: nat)
    requires n < |ds|
    ensures Merged(ds, n).values[n] == ds[n]
  {
    MergingIndexes(ds, n);
    MergingSettles(ds, n, n);
  }

  lemma {:induction false} RepsInRange(ds: seq<Detection>, n: nat)
    requires n <= |ds|
    ensures forall k :: 0 <= k < |Merged(ds, n).reps| ==> Merged(ds, n).reps[k] < |ds|
  {
    MergingKeepsKinds(ds, n);
  }

  method Find(detections: array<Detection>, merged: seq<nat>, d: Detection) returns (duplicate: Option<nat>)
    requires forall k :: 0 <= k < |merged| ==> merged[k] < detections.Length
    ensures duplicate == FirstDuplicate(detections[..], merged, d)
  {
    for k := 0 to |merged|
      invariant FirstDuplicate(detections[..], merged, d) == FirstDuplicate(detections[..], merged[k..], d)
    {
      var m := detections[merged[k]];
      if m.kind == d.kind && m.box.Overlaps(d.box) {
        return Some(merged[k]);
      }
      assert merged[k..][1..] == merged[k + 1..];
    }
    return None;
  }

  method AbsorbInto(detections: array<Detection>, r: nat, d: Detection)
    requires r < detections.Length
    modifies detections
    ensures detections[..] == old(detections[..])[r := Absorb(old(detections[r]), d)]
  {
    if d.confidence > detections[r].confidence {
      detections[r] := detections[r].(confidence := d.confidence);
      detections[r] := detections[r].(box := d.box);
      detections[r] := detections[r].(text := d.text);
    }
    detections[r] := detections[r].(sourceLayers := Dedup(detections[r].sourceLayers + d.sourceLayers));
    detections[r] := detections[r].(unknown := detections[r].unknown && d.unknown);
  }
}
