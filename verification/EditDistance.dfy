/**
 The benchmark's edit distance (benchmarks/ocr/metrics.py).

 `Levenshtein` is the two-row loop.  `Distance` is the recurrence it fills in, and
 `Edit`/`RunScript` is an independent account of what the number should mean: single
 character edits at arbitrary positions, applied one after the other.
 */
module EditDistance {
  import opened Collections
  import opened Models

  // ---------- what an edit script is ----------

  datatype Edit = Insert(at: nat, c: char) | Delete(at: nat) | Substitute(at: nat, c: char)
  {
    predicate Applies(s: string) {
      if Insert? then at <= |s| else at < |s|
    }

    function Apply(s: string): string
      requires Applies(s)
    {
      match this
      case Insert(i, c) => s[..i] + [c] + s[i..]
      case Delete(i) => s[..i] + s[i + 1..]
      case Substitute(i, c) => s[..i] + [c] + s[i + 1..]
    }
  }

  /** `script` can be run on `a`, edit by edit, and leaves `b`. */
  ghost predicate Turns(script: seq<Edit>, a: string, b: string) {
    if script == [] then a == b
    else script[0].Applies(a) && Turns(script[1..], script[0].Apply(a), b)
  }

  // ---------- the recurrence ----------

  function Cost(c: char, d: char): nat { if c == d then 0 else 1 }

  function Distance(a: string, b: string): nat
    decreases |a| + |b|
  {
    if a == "" then |b|
    else if b == "" then |a|
    else
      Min(Min(Distance(Front(a), b) + 1, Distance(a, Front(b)) + 1),
          Distance(Front(a), Front(b)) + Cost(Last(a), Last(b)))
  }

  // ---------- the loop ----------

  method Levenshtein(a: string, b: string) returns (d: nat)
    ensures d == Distance(a, b)
  {
    if a == b {
      DistanceToItself(a);
      return 0;
    }
    if a == "" {
      return |b|;
    }
    if b == "" {
      return |a|;
    }
    ghost var table := DistanceTable(a, b);
    var previousRow: seq<nat> := seq(|b| + 1, j => j);
    for i := 0 to |a|
      invariant previousRow == table[i]
    {
      var currentRow: seq<nat> := [i + 1];
      for j := 0 to |b|
        invariant |currentRow| == j + 1 && currentRow == table[i + 1][..j + 1]
      {
        assert Step(table, a, b, i, j);
        var cost := if a[i] == b[j] then 0 else 1;
        currentRow := currentRow + [Min(Min(previousRow[j + 1] + 1, currentRow[j] + 1), previousRow[j] + cost)];
      }
      previousRow := currentRow;
    }
    return previousRow[|previousRow| - 1];
  }

  /** Cell (i + 1, j + 1) of a table is computed from its three neighbours. */
  ghost predicate Step(table: seq<seq<nat>>, a: string, b: string, i: nat, j: nat) {
    && i < |a| && j < |b| && i + 1 < |table| && j + 1 < |table[i]| && j + 1 < |table[i + 1]|
    && table[i + 1][j + 1] == Min(Min(table[i][j + 1] + 1, table[i + 1][j] + 1), table[i][j] + Cost(a[i], b[j]))
  }

  /** The distances between all pairs of prefixes. */
  lemma {:induction false} DistanceTable(a: string, b: string) returns (table: seq<seq<nat>>)
    ensures |table| == |a| + 1 && forall i :: 0 <= i <= |a| ==> |table[i]| == |b| + 1 && table[i][0] == i
    ensures forall j :: 0 <= j <= |b| ==> table[0][j] == j
    ensures forall i, j :: 0 <= i < |a| && 0 <= j < |b| ==> Step(table, a, b, i, j)
    ensures table[|a|][|b|] == Distance(a, b)
  {
    table := seq(|a| + 1, i requires 0 <= i <= |a| =>
      seq(|b| + 1, j requires 0 <= j <= |b| => Distance(a[..i], b[..j])));
    forall i, j | 0 <= i < |a| && 0 <= j < |b|
      ensures Step(table, a, b, i, j)
    {
      assert Front(a[..i + 1]) == a[..i] && Front(b[..j + 1]) == b[..j];
    }
    assert a[..|a|] == a && b[..|b|] == b;
  }

  // ---------- the distance is a metric ----------

  lemma {:induction false} DistanceToItself(a: string)
    ensures Distance(a, a) == 0
  {
    if a != "" {
      DistanceToItself(Front(a));
    }
  }

  lemma {:induction false} ZeroOnlyWhenEqual(a: string, b: string)
    ensures Distance(a, b) == 0 <==> a == b
    decreases |a| + |b|
  {
    if a == b {
      DistanceToItself(a);
    } else if a != "" && b != "" {
      ZeroOnlyWhenEqual(Front(a), Front(b));
      assert a == Front(a) + [Last(a)] && b == Front(b) + [Last(b)];
    }
  }

  lemma {:induction false} Symmetric(a: string, b: string)
    ensures Distance(a, b) == Distance(b, a)
    decreases |a| + |b|
  {
    if a != "" && b != "" {
      Symmetric(Front(a), b);
      Symmetric(a, Front(b));
      Symmetric(Front(a), Front(b));
    }
  }

  lemma {:induction false} LengthBounds(a: string, b: string)
    ensures |a| - |b| <= Distance(a, b) && |b| - |a| <= Distance(a, b) <= Max(|a|, |b|)
    decreases |a| + |b|
  {
    if a != "" && b != "" {
      LengthBounds(Front(a), b);
      LengthBounds(a, Front(b));
      LengthBounds(Front(a), Front(b));
    }
  }

  /** The three ways to end, none of which beats the distance, one of which reaches it. */
  lemma {:induction false} LastStep(a: string, b: string)
    requires a != "" && b != ""
    ensures Distance(a, b) <= Distance(Front(a), b) + 1
    ensures Distance(a, b) <= Distance(a, Front(b)) + 1
    ensures Distance(a, b) <= Distance(Front(a), Front(b)) + Cost(Last(a), Last(b))
    ensures || Distance(a, b) == Distance(Front(a), b) + 1
            || Distance(a, b) == Distance(a, Front(b)) + 1
            || Distance(a, b) == Distance(Front(a), Front(b)) + Cost(Last(a), Last(b))
  {}

  lemma {:induction false} Triangle(a: string, b: string, c: string)
    ensures Distance(a, c) <= Distance(a, b) + Distance(b, c)
    decreases |a| + |b| + |c|
  {
    if a == "" || b == "" || c == "" {
      LengthBounds(a, b);
      LengthBounds(b, c);
      LengthBounds(a, c);
    } else {
      LastStep(a, b);
      LastStep(b, c);
      LastStep(a, c);
      if Distance(a, b) == Distance(Front(a), b) + 1 {
        Triangle(Front(a), b, c);
      } else if Distance(b, c) == Distance(b, Front(c)) + 1 {
        Triangle(a, b, Front(c));
      } else if Distance(a, b) == Distance(a, Front(b)) + 1 {
        Triangle(a, Front(b), if Distance(b, c) == Distance(Front(b), c) + 1 then c else Front(c));
      } else {
        Triangle(Front(a), Front(b), if Distance(b, c) == Distance(Front(b), c) + 1 then c else Front(c));
      }
    }
  }

  // ---------- the distance is the length of a shortest script ----------

  lemma {:induction false} ApplyUnderSuffix(e: Edit, s: string, c: char)
    requires e.Applies(s)
    ensures e.Applies(s + [c]) && e.Apply(s + [c]) == e.Apply(s) + [c]
  {
    assert (s + [c])[..e.at] == s[..e.at];
    if !e.Insert? {
      assert (s + [c])[e.at + 1..] == s[e.at + 1..] + [c];
    }
  }

  lemma {:induction false} DistanceUnderSuffix(a: string, b: string, c: char)
    ensures Distance(a + [c], b + [c]) <= Distance(a, b)
  {
    assert Front(a + [c]) == a && Front(b + [c]) == b;
  }

  lemma {:induction false} OneMore(a: string, c: char)
    ensures Distance(a, a + [c]) <= 1
  {
    assert Front(a + [c]) == a;
    DistanceToItself(a);
  }

  /** One edit moves a string by at most one. */
  lemma {:induction false} OneEdit(e: Edit, s: string)
    requires e.Applies(s)
    ensures Distance(s, e.Apply(s)) <= 1
    decreases |s|
  {
    if e.at + 1 < |s| || (e.Insert? && e.at < |s|) {
      ApplyUnderSuffix(e, Front(s), Last(s));
      assert Front(s) + [Last(s)] == s;
      OneEdit(e, Front(s));
      DistanceUnderSuffix(Front(s), e.Apply(Front(s)), Last(s));
    } else if e.Insert? {
      assert e.Apply(s) == s + [e.c];
      OneMore(s, e.c);
    } else if e.Delete? {
      assert e.Apply(s) == Front(s) && Front(s) + [Last(s)] == s;
      OneMore(Front(s), Last(s));
      Symmetric(s, Front(s));
    } else {
      assert e.Apply(s) == Front(s) + [e.c] && Front(Front(s) + [e.c]) == Front(s);
      DistanceToItself(Front(s));
    }
  }

  lemma {:induction false} NoShorterScript(script: seq<Edit>, a: string, b: string)
    requires Turns(script, a, b)
    ensures Distance(a, b) <= |script|
    decreases |script|
  {
    if script == [] {
      DistanceToItself(a);
    } else {
      var mid := script[0].Apply(a);
      OneEdit(script[0], a);
      NoShorterScript(script[1..], mid, b);
      Triangle(a, mid, b);
    }
  }

  lemma {:induction false} TurnsAfter(e: Edit, rest: seq<Edit>, a: string, b: string)
    requires e.Applies(a) && Turns(rest, e.Apply(a), b)
    ensures Turns([e] + rest, a, b)
  {
    assert ([e] + rest)[1..] == rest;
  }

  lemma {:induction false} TurnsThen(first: seq<Edit>, e: Edit, a: string, b: string)
    requires Turns(first, a, b) && e.Applies(b)
    ensures Turns(first + [e], a, e.Apply(b))
    decreases |first|
  {
    if first == [] {
      TurnsAfter(e, [], a, e.Apply(b));
      assert first + [e] == [e] + [];
    } else {
      TurnsThen(first[1..], e, first[0].Apply(a), b);
      TurnsAfter(first[0], first[1..] + [e], a, e.Apply(b));
      assert first + [e] == [first[0]] + (first[1..] + [e]);
    }
  }

  /** A script never notices a character it does not reach. */
  lemma {:induction false} TurnsUnderSuffix(script: seq<Edit>, a: string, b: string, c: char)
    requires Turns(script, a, b)
    ensures Turns(script, a + [c], b + [c])
    decreases |script|
  {
    if script != [] {
      ApplyUnderSuffix(script[0], a, c);
      TurnsUnderSuffix(script[1..], script[0].Apply(a), b, c);
    }
  }

  lemma {:induction false} ShortestScript(a: string, b: string) returns (script: seq<Edit>)
    ensures Turns(script, a, b) && |script| == Distance(a, b)
    decreases |a| + |b|, 1
  {
    if a == "" && b == "" {
      script := [];
    } else if a != "" && (b == "" || Distance(a, b) == Distance(Front(a), b) + 1) {
      script := ShortestScript(Front(a), b);
      LengthBounds(Front(a), b);
      DeletingLast(script, a, b);
      script := [Delete(|a| - 1)] + script;
    } else if b != "" && (a == "" || Distance(a, b) == Distance(a, Front(b)) + 1) {
      script := ShortestScript(a, Front(b));
      InsertingLast(script, a, b);
      script := script + [Insert(|b| - 1, Last(b))];
    } else {
      script := ScriptKeepingLast(a, b);
    }
  }

  lemma {:induction false} DeletingLast(rest: seq<Edit>, a: string, b: string)
    requires a != "" && Turns(rest, Front(a), b)
    ensures Turns([Delete(|a| - 1)] + rest, a, b)
  {
    assert Delete(|a| - 1).Apply(a) == Front(a);
    TurnsAfter(Delete(|a| - 1), rest, a, b);
  }

  lemma {:induction false} InsertingLast(rest: seq<Edit>, a: string, b: string)
    requires b != "" && Turns(rest, a, Front(b))
    ensures Turns(rest + [Insert(|b| - 1, Last(b))], a, b)
  {
    assert Insert(|b| - 1, Last(b)).Apply(Front(b)) == b;
    TurnsThen(rest, Insert(|b| - 1, Last(b)), a, Front(b));
  }

  /** The case in which the last characters are matched or substituted. */
  lemma {:induction false} ScriptKeepingLast(a: string, b: string) returns (script: seq<Edit>)
    requires a != "" && b != ""
    ensures Turns(script, a, b) && |script| == Distance(Front(a), Front(b)) + Cost(Last(a), Last(b))
    decreases |a| + |b|, 0
  {
    script := ShortestScript(Front(a), Front(b));
    KeepingLast(script, a, b);
    if Last(a) != Last(b) {
      script := [Substitute(|a| - 1, Last(b))] + script;
    }
  }

  lemma {:induction false} KeepingLast(rest: seq<Edit>, a: string, b: string)
    requires a != "" && b != "" && Turns(rest, Front(a), Front(b))
    ensures Last(a) == Last(b) ==> Turns(rest, a, b)
    ensures Turns([Substitute(|a| - 1, Last(b))] + rest, a, b)
  {
    TurnsUnderSuffix(rest, Front(a), Front(b), Last(b));
    FrontThenLast(a);
    FrontThenLast(b);
    LastReplaced(a, Last(b));
    TurnsAfter(Substitute(|a| - 1, Last(b)), rest, a, b);
  }

  lemma {:induction false} FrontThenLast(s: string)
    requires s != ""
    ensures Front(s) + [Last(s)] == s
  {}

  lemma {:induction false} LastReplaced(s: string, c: char)
    requires s != ""
    ensures Substitute(|s| - 1, c).Applies(s) && Substitute(|s| - 1, c).Apply(s) == Front(s) + [c]
  {}

  /** The number the loop returns is the length of a shortest edit script. */
  lemma {:induction false} DistanceIsShortestScript(a: string, b: string)
    ensures exists script :: Turns(script, a, b) && |script| == Distance(a, b)
    ensures forall script :: Turns(script, a, b) ==> Distance(a, b) <= |script|
  {
    var best := ShortestScript(a, b);
    forall script | Turns(script, a, b)
      ensures Distance(a, b) <= |script|
    {
      NoShorterScript(script, a, b);
    }
  }
}
