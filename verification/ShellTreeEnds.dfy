/** When the `tree` command ends and what it then prints, on any table, stale views or not. */
module ShellTreeEnds {
  import opened FsTable
  import opened ShellTree
  import L = FsLoad

  // ---------- When the walk ends, on any table ----------

  /** The indentation has no part in whether the walk ends. */
  lemma {:induction false} DepthIsIdle(t: Table, past: seq<Node>, path: string, d: nat, d': nat, fuel: nat)
    ensures Walk(t, past, path, d, fuel).Some? <==> Walk(t, past, path, d', fuel).Some?
    decreases fuel, 0
  {
    hide List;
    if fuel > 0 {
      ListedInUse(t, path);
      DepthIsIdleFrom(t, past, List(t, path, VIEW_MAX), d, d', fuel - 1);
    }
  }

  lemma {:induction false} DepthIsIdleFrom(t: Table, past: seq<Node>, es: seq<nat>, d: nat, d': nat, fuel: nat)
    requires InUse(t, es)
    ensures WalkFrom(t, past, es, d, fuel).Some? <==> WalkFrom(t, past, es, d', fuel).Some?
    decreases fuel, 1, |es|
  {
    hide Walk;
    if es != [] {
      DepthIsIdle(t, past, Below(t, past, es[0]), d + 1, d' + 1, fuel);
      DepthIsIdleFrom(t, past, es[1..], d, d', fuel);
    }
  }

  /** What is listed at the path includes the entry e, whose view says directory. */
  predicate Enters(t: Table, path: string, e: nat) {
    e < |t| && e in List(t, path, VIEW_MAX) && t[e].view.kind == DIR
  }

  /** From the path, entry by entry, each listed at the path its predecessor leads to. */
  predicate Descends(t: Table, past: seq<Node>, path: string, es: seq<nat>)
    decreases |es|
  {
    es == [] || (Enters(t, path, es[0]) && Descends(t, past, Below(t, past, es[0]), es[1..]))
  }

  predicate Repeats(es: seq<nat>) {
    exists i, j :: 0 <= i < j < |es| && es[i] == es[j]
  }

  /** Some descent meets the same entry twice. */
  ghost predicate Loops(t: Table, past: seq<Node>, path: string) {
    exists es :: Descends(t, past, path, es) && Repeats(es)
  }

  /** A walk that is out of fuel has descended that far. */
  lemma {:induction false} DeepDescent(t: Table, past: seq<Node>, path: string, depth: nat, fuel: nat)
    returns (es: seq<nat>)
    requires Walk(t, past, path, depth, fuel).None?
    ensures |es| == fuel && Descends(t, past, path, es)
    decreases fuel
  {
    hide List;
    es := [];
    if fuel > 0 {
      var listed := List(t, path, VIEW_MAX);
      ListedInUse(t, path);
      var e := EmptyBlock(t, past, listed, depth, fuel - 1);
      var rest := DeepDescent(t, past, Below(t, past, e), depth + 1, fuel - 1);
      es := [e] + rest;
    }
  }

  lemma {:induction false} EmptyBlock(t: Table, past: seq<Node>, es: seq<nat>, depth: nat, fuel: nat) returns (e: nat)
    requires InUse(t, es) && WalkFrom(t, past, es, depth, fuel).None?
    ensures e in es && e < |t| && t[e].view.kind == DIR && Walk(t, past, Below(t, past, e), depth + 1, fuel).None?
  {
    hide Walk;
    if Block(t, past, es[0], depth, fuel).None? {
      e := es[0];
    } else {
      e := EmptyBlock(t, past, es[1..], depth, fuel);
    }
  }

  lemma {:induction false} DescentIsInUse(t: Table, past: seq<Node>, path: string, es: seq<nat>)
    requires Descends(t, past, path, es)
    ensures InUse(t, es)
    decreases |es|
  {
    hide List;
    if es != [] {
      DescentIsInUse(t, past, Below(t, past, es[0]), es[1..]);
    }
  }

  function Elements(es: seq<nat>): set<nat> {
    set e | e in es
  }

  lemma {:induction false} NoRepeats(es: seq<nat>)
    requires !Repeats(es)
    ensures |Elements(es)| == |es|
  {
    if es != [] {
      var n := |es| - 1;
      assert forall i, j :: 0 <= i < j < n ==> es[..n][i] != es[..n][j];
      NoRepeats(es[..n]);
      assert forall i :: 0 <= i < n ==> es[i] != es[n];
      assert Elements(es) == Elements(es[..n]) + {es[n]};
    }
  }

  function UpTo(n: nat): (s: set<nat>)
    ensures |s| == n && forall k: nat :: k in s <==> k < n
  {
    if n == 0 then {} else UpTo(n - 1) + {n - 1}
  }

  /** Fewer values than places: one comes twice. */
  lemma {:induction false} PigeonHole(es: seq<nat>, n: nat)
    requires |es| > n && forall i :: 0 <= i < |es| ==> es[i] < n
    ensures Repeats(es)
  {
    L.SubsetSize(Elements(es), UpTo(n));
    if !Repeats(es) {
      NoRepeats(es);
    }
  }

  /** A walk that ends leaves less fuel to each step of a descent. */
  lemma {:induction false} DescentUsesFuel(t: Table, past: seq<Node>, path: string, es: seq<nat>, k: nat, fuel: nat)
    requires Descends(t, past, path, es) && k < |es| && Walk(t, past, path, 0, fuel).Some?
    ensures es[k] < |t| && k < fuel && Walk(t, past, Below(t, past, es[k]), 0, fuel - k - 1).Some?
    decreases k
  {
    hide List, Walk;
    NoFuel(t, past, path, 0);
    EntryHasFuel(t, past, path, es[0], fuel);
    if k > 0 {
      DescentUsesFuel(t, past, Below(t, past, es[0]), es[1..], k - 1, fuel - 1);
    }
  }

  lemma {:induction false} EntryHasFuel(t: Table, past: seq<Node>, path: string, e: nat, fuel: nat)
    requires Enters(t, path, e) && fuel > 0 && Walk(t, past, path, 0, fuel).Some?
    ensures Walk(t, past, Below(t, past, e), 0, fuel - 1).Some?
  {
    hide List;
    var es := List(t, path, VIEW_MAX);
    WalkIs(t, past, path, 0, fuel);
    var i :| 0 <= i < |es| && es[i] == e;
    WalkFromNext(t, past, es, i, 0, fuel - 1);
    DepthIsIdle(t, past, Below(t, past, e), 0, 1, fuel - 1);
  }

  lemma {:induction false} LeastFuel(t: Table, past: seq<Node>, path: string, fuel: nat) returns (least: nat)
    requires Walk(t, past, path, 0, fuel).Some?
    ensures 0 < least && Walk(t, past, path, 0, least).Some? && Walk(t, past, path, 0, least - 1).None?
    decreases fuel
  {
    hide Walk;
    NoFuel(t, past, path, 0);
    if Walk(t, past, path, 0, fuel - 1).Some? {
      least := LeastFuel(t, past, path, fuel - 1);
    } else {
      least := fuel;
    }
  }

  /** The rest of a descent after its first n entries. */
  lemma {:induction false} DescentFrom(t: Table, past: seq<Node>, path: string, es: seq<nat>, n: nat)
    requires Descends(t, past, path, es) && n < |es|
    ensures es[n] < |t| && Descends(t, past, Below(t, past, es[n]), es[n + 1..])
    decreases n
  {
    hide List;
    if n > 0 {
      DescentFrom(t, past, Below(t, past, es[0]), es[1..], n - 1);
      assert es[1..][n..] == es[n + 1..];
    }
  }

  /** A walk that ends meets no entry twice on one descent. */
  lemma {:induction false} EndingNeverRepeats(t: Table, past: seq<Node>, path: string, es: seq<nat>, fuel: nat)
    requires Descends(t, past, path, es) && Walk(t, past, path, 0, fuel).Some?
    ensures !Repeats(es)
  {
    hide List, Walk, Descends, Below;
    forall i, j | 0 <= i < j < |es|
      ensures es[i] != es[j]
    {
      DescentUsesFuel(t, past, path, es, i, fuel);
      DescentUsesFuel(t, past, path, es, j, fuel);
      DescentFrom(t, past, path, es, i);
      var here := Below(t, past, es[i]);
      var least := LeastFuel(t, past, here, fuel - i - 1);
      DescentUsesFuel(t, past, here, es[i + 1..], j - i - 1, least);
      if Walk(t, past, Below(t, past, es[j]), 0, least - 1).None? {
        var left := least - (j - i);
        FuelIsEnough(t, past, Below(t, past, es[j]), 0, left, least - 1);
      }
    }
  }

  /** On any table the walk ends exactly if no descent from its start meets the same entry twice;
      and a walk that ends is at most one call deeper than there are slots in use. */
  lemma {:induction false} WalkEndsUnlessLooping(t: Table, past: seq<Node>, path: string, depth: nat)
    ensures (exists fuel: nat :: Walk(t, past, path, depth, fuel).Some?) <==> !Loops(t, past, path)
    ensures !Loops(t, past, path) ==> Walk(t, past, path, depth, |t| + 1).Some?
  {
    hide Walk, Descends;
    if fuel: nat :| Walk(t, past, path, depth, fuel).Some? {
      DepthIsIdle(t, past, path, depth, 0, fuel);
      forall es | Descends(t, past, path, es)
        ensures !Repeats(es)
      {
        EndingNeverRepeats(t, past, path, es, fuel);
      }
    }
    if Walk(t, past, path, depth, |t| + 1).None? {
      var es := DeepDescent(t, past, path, depth, |t| + 1);
      DescentIsInUse(t, past, path, es);
      PigeonHole(es, |t|);
    }
  }

  // ---------- What the walk prints, on any table ----------

  /** Where a descent ends. */
  function End(t: Table, past: seq<Node>, path: string, es: seq<nat>): string
    requires Descends(t, past, path, es)
    decreases |es|
  {
    if es == [] then path else End(t, past, Below(t, past, es[0]), es[1..])
  }

  /** Some descent ends where k is listed. */
  ghost predicate Reached(t: Table, past: seq<Node>, path: string, k: nat) {
    exists es :: Descends(t, past, path, es) && k in List(t, End(t, past, path, es), VIEW_MAX)
  }

  ghost predicate Printed(lines: seq<Line>, k: nat) {
    exists i :: 0 <= i < |lines| && lines[i].slot == k
  }

  lemma {:induction false} PrintedEither(a: seq<Line>, b: seq<Line>, k: nat)
    ensures Printed(a + b, k) <==> Printed(a, k) || Printed(b, k)
  {
    if Printed(a, k) {
      var i :| 0 <= i < |a| && a[i].slot == k;
      assert (a + b)[i].slot == k;
    }
    if Printed(b, k) {
      var i :| 0 <= i < |b| && b[i].slot == k;
      assert (a + b)[|a| + i].slot == k;
    }
  }

  lemma {:induction false} PrintedAlone(depth: nat, e: nat, k: nat)
    ensures Printed([Line(depth, e)], k) <==> k == e
  {
    assert [Line(depth, e)][0].slot == e;
  }

  /** What one more entry of the listing reaches. */
  lemma {:induction false} ReachedStep(t: Table, past: seq<Node>, path: string, k: nat)
    ensures Reached(t, past, path, k) <==>
            || k in List(t, path, VIEW_MAX)
            || exists e: nat :: Enters(t, path, e) && Reached(t, past, Below(t, past, e), k)
  {
    hide List, Below;
    if k in List(t, path, VIEW_MAX) {
      assert Descends(t, past, path, []) && End(t, past, path, []) == path;
    }
    if e: nat :| Enters(t, path, e) && Reached(t, past, Below(t, past, e), k) {
      var es :| Descends(t, past, Below(t, past, e), es) && k in List(t, End(t, past, Below(t, past, e), es), VIEW_MAX);
      assert ([e] + es)[1..] == es;
      assert Descends(t, past, path, [e] + es);
    }
    if Reached(t, past, path, k) {
      var es :| Descends(t, past, path, es) && k in List(t, End(t, past, path, es), VIEW_MAX);
      if es != [] {
        assert k in List(t, End(t, past, Below(t, past, es[0]), es[1..]), VIEW_MAX);
      }
    }
  }

  /** On any table, a walk that ends prints exactly the slots that some descent reaches. */
  lemma {:induction false} WalkPrintsReached(t: Table, past: seq<Node>, path: string, depth: nat, fuel: nat, k: nat)
    requires Walk(t, past, path, depth, fuel).Some?
    ensures Printed(Walk(t, past, path, depth, fuel).value, k) <==> Reached(t, past, path, k)
    decreases fuel, 0
  {
    hide List, Printed, Reached, WalkFrom;
    var es := List(t, path, VIEW_MAX);
    ListedInUse(t, path);
    WalkFromPrintsReached(t, past, es, depth, fuel - 1, k);
    ReachedStep(t, past, path, k);
  }

  lemma {:induction false} WalkFromPrintsReached(t: Table, past: seq<Node>, es: seq<nat>, depth: nat, fuel: nat, k: nat)
    requires InUse(t, es) && WalkFrom(t, past, es, depth, fuel).Some?
    ensures Printed(WalkFrom(t, past, es, depth, fuel).value, k) <==>
            || k in es
            || exists e: nat :: e in es && e < |t| && t[e].view.kind == DIR && Reached(t, past, Below(t, past, e), k)
    decreases fuel, 1, |es|
  {
    hide Walk, Reached, Printed, Below;
    if es == [] {
      assert !Printed([], k) by {
        PrintedNothing(k);
      }
    } else {
      var e := es[0];
      var block, others := Block(t, past, e, depth, fuel).value, WalkFrom(t, past, es[1..], depth, fuel).value;
      PrintedEither(block, others, k);
      PrintedAlone(depth, e, k);
      if t[e].view.kind == DIR {
        var below := Walk(t, past, Below(t, past, e), depth + 1, fuel).value;
        PrintedEither([Line(depth, e)], below, k);
        WalkPrintsReached(t, past, Below(t, past, e), depth + 1, fuel, k);
      }
      WalkFromPrintsReached(t, past, es[1..], depth, fuel, k);
      assert es == [e] + es[1..];
    }
  }

  lemma {:induction false} PrintedNothing(k: nat)
    ensures !Printed([], k)
  {
  }
}
