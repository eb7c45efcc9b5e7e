/** Reachable tables on which the `tree` command does not end. */
module ShellTreeEndless {
  import opened Paths
  import opened PathTests
  import opened FsTable
  import opened FsMap
  import opened FsRefine
  import opened FsRuns
  import opened FsViews
  import opened ShellTree
  import opened ShellTreeShape

  // ---------- Two nested names ----------

  function Nested(a: string, b: string): string {
    a + "/" + b
  }

  lemma {:induction false} NestedIsNormal(a: string, b: string)
    requires IsComponent(a) && IsComponent(b)
    ensures Normal(Nested(a, b)) && Components(Nested(a, b)) == [a, b]
  {
    ComponentsConcat(a, b);
    ComponentsOfComponent(a);
    ComponentsOfComponent(b);
    assert Components(Nested(a, b)) == [a, b];
    assert [a, b][1..] == [b];
    assert Join([a, b]) == Nested(a, b);
  }

  lemma {:induction false} NestedFacts(a: string, b: string)
    requires IsComponent(a) && IsComponent(b) && |a| + 1 + |b| < PATH_MAX
    ensures Nameable(Absolute(Nested(a, b))) && NormalName(Absolute(Nested(a, b))) == Nested(a, b)
    ensures ParentPath(Nested(a, b)) == a
  {
    NestedIsNormal(a, b);
    assert Absolute(Nested(a, b)) == "" + "/" + Nested(a, b);
    ComponentsConcat("", Nested(a, b));
    NameFacts(Absolute(Nested(a, b)));
    LastSlashIs(a, b);
    CollapsedEnd(Absolute(Nested(a, b)));
    assert b[|b| - 1] in b;
  }

  /** fs_move, spelled out for a single renamed slot. */
  lemma {:induction false} MoveOne(t: Table, source: string, destination: string, i: nat)
    requires Nameable(source) && Nameable(destination)
    requires var s, d := NormalName(source), NormalName(destination);
             && Find(t, s) == i < |t| && Find(t, d) == |t| && ParentExists(t, d)
             && !Inside(d, s)
             && forall k :: 0 <= k < |t| && k != i ==> !AtOrInside(t[k].name, s)
    ensures Move(t, source, destination) ==
            Outcome(true, t[i := Node(NormalName(destination), t[i].data, t[i].size, t[i].kind,
                                      View(i, t[i].size, t[i].kind))])
  {
    var s, d := NormalName(source), NormalName(destination);
    NameFacts(destination);
    hide Nameable, Fits, NormalName, ParentExists, Components, Join, Inside;
    assert t[i].name == s && Renamed(s, s, d) == d + [] == d;
    assert MovedTable(t, s, d) == t[i := Synced(t[i].(name := d), i)];
    assert AtOrInside(t[i].name, s) && !Blocked(t, i, s, d);
  }

  lemma {:induction false} ComponentsApart(a: string, b: string, c: string)
    requires IsComponent(a) && IsComponent(b) && IsComponent(c) && a != c
    ensures !AtOrInside(a, c) && !AtOrInside(Nested(a, b), c)
  {
  }

  /** mv /b /a/b on the top-level directories z, b, a. */
  lemma {:induction false} MoveIntoLast(z: string, b: string, a: string)
    requires IsComponent(z) && IsComponent(b) && IsComponent(a) && z != b && z != a && a != b
    requires |z| < PATH_MAX && |a| + 1 + |b| < PATH_MAX
    ensures Move([TopDir(z, 0), TopDir(b, 1), TopDir(a, 2)], Absolute(b), Absolute(Nested(a, b))) ==
            Outcome(true, [TopDir(z, 0), TopDir(Nested(a, b), 1), TopDir(a, 2)])
  {
    hide Components, Join, Collapsed, Absolute, ParentPath, Zeros, Nested, Nameable, NormalName, Inside, Find;
    var t := [TopDir(z, 0), TopDir(b, 1), TopDir(a, 2)];
    var d := Nested(a, b);
    AbsoluteFacts(b);
    NestedFacts(a, b);
    ComponentsApart(a, b, b);
    ComponentsApart(z, z, b);
    ComponentsApart(a, a, b);
    FindAmongThree(t, z, b, a, d);
    assert ParentExists(t, d);
    MoveOne(t, Absolute(b), Absolute(d), 1);
    assert t[1 := TopDir(d, 1)] == [TopDir(z, 0), TopDir(d, 1), TopDir(a, 2)];
  }

  lemma {:induction false} FindAmongThree(t: Table, z: string, b: string, a: string, d: string)
    requires |t| == 3 && t[0].name == z && t[1].name == b && t[2].name == a
    requires z != b && z != a && a != b && '/' !in z && '/' !in b && '/' !in a && d == Nested(a, b)
    ensures Find(t, b) == 1 && Find(t, d) == 3 && Find(t, a) == 2
  {
  }

  lemma {:induction false} LeadingIsAlone(z: string, b: string, a: string)
    requires IsComponent(z) && IsComponent(b) && IsComponent(a) && a != z
    ensures var t := [TopDir(z, 0), TopDir(Nested(a, b), 1), TopDir(a, 2)];
            t[0].name == z && forall k :: 0 <= k < |t| ==> !Inside(t[k].name, z)
  {
  }

  lemma {:induction false} EndlessRun(z: string, b: string, a: string)
    requires IsComponent(z) && IsComponent(b) && IsComponent(a) && z != b && z != a && a != b
    requires |z| < PATH_MAX && |a| + 1 + |b| < PATH_MAX
    ensures Run([], [MkdirOp(Absolute(z)), MkdirOp(Absolute(b)), MkdirOp(Absolute(a)),
                     MoveOp(Absolute(b), Absolute(Nested(a, b))), RemoveOp(Absolute(z))]) ==
            [TopDir(Nested(a, b), 1), TopDir(a, 2)]
  {
    hide Components, Join, Collapsed, Mkdir, Remove, Move, Absolute, Zeros, Nested, Run;
    hide AtOrInside, Inside, IsComponent;
    RunFive([], MkdirOp(Absolute(z)), MkdirOp(Absolute(b)), MkdirOp(Absolute(a)),
            MoveOp(Absolute(b), Absolute(Nested(a, b))), RemoveOp(Absolute(z)));
    MkdirTop([], z);
    assert [] + [TopDir(z, 0)] == [TopDir(z, 0)];
    MkdirTop([TopDir(z, 0)], b);
    assert [TopDir(z, 0)] + [TopDir(b, 1)] == [TopDir(z, 0), TopDir(b, 1)];
    MkdirTop([TopDir(z, 0), TopDir(b, 1)], a);
    assert [TopDir(z, 0), TopDir(b, 1)] + [TopDir(a, 2)] == [TopDir(z, 0), TopDir(b, 1), TopDir(a, 2)];
    MoveIntoLast(z, b, a);
    var t := [TopDir(z, 0), TopDir(Nested(a, b), 1), TopDir(a, 2)];
    assert t[1..] == [TopDir(Nested(a, b), 1), TopDir(a, 2)];
    LeadingIsAlone(z, b, a);
    RemoveFirst(t, z);
  }

  lemma {:induction false} ListingItself(t: Table, past: seq<Node>, path: string, depth: nat, fuel: nat)
    requires |t| > 0 && List(t, path, VIEW_MAX) == [0] && t[0].view.kind == DIR && Below(t, past, 0) == path
    ensures Walk(t, past, path, depth, fuel).None?
    decreases fuel
  {
    hide Below;
    if fuel > 0 {
      ListingItself(t, past, path, depth + 1, fuel - 1);
      assert Block(t, past, 0, depth, fuel - 1).None?;
    }
  }

  /** Stale views: after mkdir /z; mkdir /b; mkdir /a; mv /b /a/b; rm /z the walk of /a never ends,
      whatever the slots past the table hold. */
  lemma {:induction false} EndlessWalk(z: string, b: string, a: string, past: seq<Node>, depth: nat, fuel: nat)
    requires IsComponent(z) && IsComponent(b) && IsComponent(a) && z != b && z != a && a != b
    requires |z| < PATH_MAX && |a| + 1 + |b| < PATH_MAX
    ensures var t := Run([], [MkdirOp(Absolute(z)), MkdirOp(Absolute(b)), MkdirOp(Absolute(a)),
                              MoveOp(Absolute(b), Absolute(Nested(a, b))), RemoveOp(Absolute(z))]);
            Walk(t, past, Absolute(a), depth, fuel).None?
  {
    hide Components, Join, Collapsed, Absolute, Zeros, List, ChildPath, Nested, Run, Walk;
    var t := [TopDir(Nested(a, b), 1), TopDir(a, 2)];
    EndlessRun(z, b, a);
    ListsItself(b, a);
    assert Below(t, past, 0) == ChildPath(t[1].name);
    ListingItself(t, past, Absolute(a), depth, fuel);
  }

  lemma {:induction false} ListsItself(b: string, a: string)
    requires IsComponent(b) && IsComponent(a) && a != b && |a| + 1 + |b| < PATH_MAX
    ensures var t := [TopDir(Nested(a, b), 1), TopDir(a, 2)];
            List(t, Absolute(a), VIEW_MAX) == [0] && ChildPath(t[1].name) == Absolute(a)
  {
    hide Components, Join, Collapsed, Zeros, ParentPath, Nameable, Find, Children;
    var t := [TopDir(Nested(a, b), 1), TopDir(a, 2)];
    AbsoluteFacts(a);
    assert Nested(a, b)[|a|] == '/' && Nested(a, b)[|a| + 1..] == b && Nested(a, b)[..|a|] == a;
    assert t[0].name == Nested(a, b) && t[1].name == a;
    FirstOfTwo(t, a);
  }

  lemma {:induction false} FirstOfTwo(t: Table, a: string)
    requires |t| == 2 && IsDirectChild(a, t[0].name) && t[1].name == a && t[0].name != a && a != ""
    ensures Find(t, a) == 1 && Children(t, a, VIEW_MAX) == [0]
  {
    hide IsDirectChild;
    assert !IsDirectChild(a, a) by {
      SelfIsNoChild(a);
    }
    assert t[..1] == [t[0]] && t[..1][..0] == [];
    assert Children([], a, VIEW_MAX) == [];
    assert Children(t[..1], a, VIEW_MAX) == [0];
  }

  lemma {:induction false} SelfIsNoChild(a: string)
    requires a != ""
    ensures !IsDirectChild(a, a)
  {
  }

  // ---------- Agreeing views, and nothing ever removed ----------

  /** A new directory below the only one. */
  lemma {:induction false} MkdirInside(a: string, b: string)
    requires IsComponent(a) && IsComponent(b) && |a| + 1 + |b| < PATH_MAX
    ensures Mkdir([TopDir(a, 0)], Absolute(Nested(a, b))) == Outcome(true, [TopDir(a, 0), TopDir(Nested(a, b), 1)])
  {
    hide Components, Join, Collapsed, Absolute, ParentPath, Zeros, Nameable, NormalName;
    NestedFacts(a, b);
    var t := [TopDir(a, 0)];
    assert t[..0] == [];
    assert Nested(a, b) != a && Find(t, Nested(a, b)) == 1 && Find(t, a) == 0;
  }

  lemma {:induction false} NestedRun(a: string, b: string)
    requires IsComponent(a) && IsComponent(b) && |a| + 1 + |b| < PATH_MAX
    ensures var ops := [MkdirOp(Absolute(a)), MkdirOp(Absolute(Nested(a, b)))];
            Run([], ops) == [TopDir(a, 0), TopDir(Nested(a, b), 1)] && NeverShifts([], ops)
  {
    hide Components, Join, Collapsed, Mkdir, Absolute, Nested, Zeros, NeverShifts;
    var x, y := MkdirOp(Absolute(a)), MkdirOp(Absolute(Nested(a, b)));
    MkdirTop([], a);
    assert [] + [TopDir(a, 0)] == [TopDir(a, 0)];
    MkdirInside(a, b);
    NothingRemoved([], [x, y]);
    RunCons([], x, [y]);
    RunCons([TopDir(a, 0)], y, []);
    assert [x, y] == [x] + [y] && [y] == [y] + [];
  }

  /** What one can type: mkdir /p; mkdir /p/c; mv /p /a leads to the same table, though the name
      of the inner directory may then be longer than any path one can type. */
  lemma {:induction false} NestedByMove(p: string, a: string, c: string)
    requires IsComponent(p) && IsComponent(a) && IsComponent(c) && p != a
    requires |p| + 1 + |c| < PATH_MAX && |a| + 1 + |c| < PATH_MAX
    ensures var ops := [MkdirOp(Absolute(p)), MkdirOp(Absolute(Nested(p, c))), MoveOp(Absolute(p), Absolute(a))];
            Run([], ops) == [TopDir(a, 0), TopDir(Nested(a, c), 1)] && NeverShifts([], ops)
  {
    hide Components, Join, Collapsed, Mkdir, Move, Absolute, Nested, Zeros, NeverShifts;
    var x, y, z := MkdirOp(Absolute(p)), MkdirOp(Absolute(Nested(p, c))), MoveOp(Absolute(p), Absolute(a));
    var u, v := [TopDir(p, 0)], [TopDir(p, 0), TopDir(Nested(p, c), 1)];
    MkdirTop([], p);
    assert [] + u == u;
    MkdirInside(p, c);
    MoveBoth(p, a, c);
    NothingRemoved([], [x, y, z]);
    RunCons([], x, [y, z]);
    RunCons(u, y, [z]);
    RunCons(v, z, []);
    assert [x, y, z] == [x] + [y, z] && [y, z] == [y] + [z] && [z] == [z] + [];
  }

  /** mv /p /a with one directory inside. */
  lemma {:induction false} MoveBoth(p: string, a: string, c: string)
    requires IsComponent(p) && IsComponent(a) && IsComponent(c) && p != a
    requires |p| + 1 + |c| < PATH_MAX && |a| + 1 + |c| < PATH_MAX
    ensures Move([TopDir(p, 0), TopDir(Nested(p, c), 1)], Absolute(p), Absolute(a)) ==
            Outcome(true, [TopDir(a, 0), TopDir(Nested(a, c), 1)])
  {
    hide Components, Join, Collapsed, Absolute, Zeros, Nameable, NormalName;
    var t := [TopDir(p, 0), TopDir(Nested(p, c), 1)];
    AbsoluteFacts(p);
    AbsoluteFacts(a);
    assert t[..1] == [TopDir(p, 0)] && t[..1][..0] == [];
    assert '/' in Nested(p, c);
    assert Find(t, p) == 0 && Find(t, a) == 2;
    assert !Inside(a, p);
    assert Renamed(p, p, a) == a && Renamed(Nested(p, c), p, a) == Nested(a, c);
    assert AtOrInside(Nested(p, c), p);
    assert '/' in Nested(a, c);
    assert !Blocked(t, 0, p, a) && !Blocked(t, 1, p, a);
    assert MovedTable(t, p, a) == [TopDir(a, 0), TopDir(Nested(a, c), 1)];
  }

  /** Names of 61 and of 1 character: after mkdir /a; mkdir /a/b views agree, nothing was ever removed,
      and the walk of /a never ends. */
  lemma {:induction false} EndlessLongName(a: string, b: string, past: seq<Node>, depth: nat, fuel: nat)
    requires IsComponent(a) && IsComponent(b) && |a| == 61 && |b| == 1
    ensures var ops := [MkdirOp(Absolute(a)), MkdirOp(Absolute(Nested(a, b)))];
            var t := Run([], ops);
            && NeverShifts([], ops) && TreeTable(t) && Coherent(t)
            && Walk(t, past, Absolute(a), depth, fuel).None?
  {
    hide TreeTable, Coherent, Walk, NeverShifts, Run, TopDir, Nested, Absolute, IsComponent;
    NestedRun(a, b);
    NestedIsTree(a, b);
    TrappedInside(a, b, past, depth, fuel);
  }

  lemma {:induction false} NestedIsTree(a: string, b: string)
    requires IsComponent(a) && IsComponent(b) && |a| + 1 + |b| < PATH_MAX
    ensures var t := [TopDir(a, 0), TopDir(Nested(a, b), 1)];
            TreeTable(t) && Coherent(t)
  {
    NestedRun(a, b);
    EmptyIsTree();
    RunRefines([], [MkdirOp(Absolute(a)), MkdirOp(Absolute(Nested(a, b)))]);
    hide Run, TreeTable, Zeros, Nested;
  }

  lemma {:induction false} TrappedInside(a: string, b: string, past: seq<Node>, depth: nat, fuel: nat)
    requires IsComponent(a) && IsComponent(b) && |a| == 61 && |b| == 1
    ensures Walk([TopDir(a, 0), TopDir(Nested(a, b), 1)], past, Absolute(a), depth, fuel).None?
  {
    hide Components, Absolute, Zeros, TreeTable, Walk, Listed, Coherent, Walked, IsComponent;
    var t := [TopDir(a, 0), TopDir(Nested(a, b), 1)];
    NestedIsTree(a, b);
    assert t[1].kind == DIR && Traps(t[1].name);
    TopOfTwo(t, a, b);
    TrapNeverEnds(t, past, Absolute(a), depth, fuel, 1);
  }

  lemma {:induction false} KeysOfTwo(t: Table, a: string, b: string)
    requires IsComponent(a) && IsComponent(b) && |a| + 1 + |b| < PATH_MAX
    requires t == [TopDir(a, 0), TopDir(Nested(a, b), 1)]
    ensures Fits(Absolute(a)) && Components(Absolute(a)) == KeyOf(t[0]) == [a] && KeyOf(t[1]) == [a, b]
  {
    hide Join, Collapsed, Zeros, IsComponent;
    AbsoluteFacts(a);
    ComponentsOfComponent(a);
    assert Absolute(a) == "" + "/" + a;
    ComponentsConcat("", a);
    NestedIsNormal(a, b);
  }

  lemma {:induction false} TopOfTwo(t: Table, a: string, b: string)
    requires IsComponent(a) && IsComponent(b) && |a| + 1 + |b| < PATH_MAX && TreeTable(t)
    requires t == [TopDir(a, 0), TopDir(Nested(a, b), 1)]
    ensures Walked(t, Absolute(a)) && Listed(t, Components(Absolute(a)), 1)
  {
    hide Components, Absolute, Nested, Zeros, Abs, IsTree, NodeOk, Fits, KeyOf, Shown, IsComponent;
    KeysOfTwo(t, a, b);
    AbsAt(t, 0);
    SecondIsShown(t, a, b);
  }

  lemma {:induction false} SecondIsShown(t: Table, a: string, b: string)
    requires IsComponent(a) && IsComponent(b) && t == [TopDir(a, 0), TopDir(Nested(a, b), 1)]
    ensures Shown(t, 1)
  {
    hide Zeros;
    LastSlashIs(a, b);
    assert Nested(a, b)[|a|] == '/' && Nested(a, b)[|a| + 1..] == b && Nested(a, b)[..|a|] == a;
    assert t[1].name == Nested(a, b) && IsDirectChild(a, t[1].name);
    assert ParentPath(t[1].name) == a;
    assert |Children(t[..1], a, VIEW_MAX)| <= 1;
  }
}
