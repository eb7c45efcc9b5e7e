/** The directory tree itself, as an inductive value, and fs_move as surgery on it. */
module FsTree {
  import opened Basics
  import opened Paths
  import opened FsTable
  import opened FsMap
  import opened FsRefine
  import opened FsMove

  datatype Tree = File(kind: word, bytes: seq<byte>) | Dir(children: map<string, Tree>)

  /** The node reached from tree by walking p. */
  function At(tree: Tree, p: Key): Option<Tree> {
    if p == [] then Some(tree)
    else if tree.Dir? && p[0] in tree.children then At(tree.children[p[0]], p[1..])
    else None
  }

  function Label(tree: Tree): Entry {
    match tree
    case File(kind, bytes) => Entry(kind, bytes)
    case Dir(_) => Entry(DIR, [])
  }

  /** What the tree shows at p. */
  function Shows(tree: Tree, p: Key): Option<Entry> {
    match At(tree, p)
    case Some(n) => Some(Label(n))
    case None => None
  }

  /** Files are never labelled as directories. */
  ghost predicate Proper(tree: Tree) {
    match tree
    case File(kind, _) => kind != DIR
    case Dir(ch) => forall c <- ch :: Proper(ch[c])
  }

  /** The tree shows exactly the paths and contents of the map. */
  ghost predicate Depicts(tree: Tree, m: FsMap) {
    && tree.Dir? && Proper(tree)
    && forall p :: p != [] ==> Shows(tree, p) == if p in m then Some(m[p]) else None
  }

  /** The tree without the subtree at p. */
  function Cut(tree: Tree, p: Key): Tree
    requires p != []
  {
    if !tree.Dir? || p[0] !in tree.children then tree
    else if |p| == 1 then Dir(tree.children - {p[0]})
    else Dir(tree.children[p[0] := Cut(tree.children[p[0]], p[1..])])
  }

  /** The tree with sub hung at p, below an existing directory. */
  function Graft(tree: Tree, p: Key, sub: Tree): Tree
    requires p != []
  {
    if !tree.Dir? then tree
    else if |p| == 1 then Dir(tree.children[p[0] := sub])
    else if p[0] !in tree.children then tree
    else Dir(tree.children[p[0] := Graft(tree.children[p[0]], p[1..], sub)])
  }

  lemma {:induction false} PrefixTail(a: Key, b: Key)
    requires a != [] && b != []
    ensures a <= b <==> a[0] == b[0] && a[1..] <= b[1..]
  {
  }

  /** Walking one step. */
  lemma {:induction false} ShowsStep(tree: Tree, q: Key)
    requires q != []
    ensures Shows(tree, q) == if tree.Dir? && q[0] in tree.children then Shows(tree.children[q[0]], q[1..]) else None
  {
  }

  lemma {:induction false} CutKeeps(tree: Tree, p: Key)
    requires p != []
    ensures Label(Cut(tree, p)) == Label(tree)
    ensures Proper(tree) ==> Proper(Cut(tree, p))
    decreases |p|
  {
    if tree.Dir? && p[0] in tree.children && |p| > 1 {
      CutKeeps(tree.children[p[0]], p[1..]);
    }
  }

  lemma {:induction false} AtCut(tree: Tree, p: Key, q: Key)
    requires p != [] && q != []
    ensures Shows(Cut(tree, p), q) == if p <= q then None else Shows(tree, q)
    decreases |p|
  {
    ShowsStep(tree, q);
    ShowsStep(Cut(tree, p), q);
    PrefixTail(p, q);
    if tree.Dir? && p[0] in tree.children && |p| > 1 && q[0] == p[0] {
      var child := tree.children[p[0]];
      if q[1..] == [] {
        CutKeeps(child, p[1..]);
      } else {
        AtCut(child, p[1..], q[1..]);
      }
    }
  }

  lemma {:induction false} GraftKeeps(tree: Tree, p: Key, sub: Tree)
    requires p != []
    ensures Label(Graft(tree, p, sub)) == Label(tree)
    ensures Proper(tree) && Proper(sub) ==> Proper(Graft(tree, p, sub))
    decreases |p|
  {
    if tree.Dir? && p[0] in tree.children && |p| > 1 {
      GraftKeeps(tree.children[p[0]], p[1..], sub);
    }
  }

  lemma {:induction false} AtGraft(tree: Tree, p: Key, sub: Tree, q: Key)
    requires p != [] && q != []
    requires At(tree, p[..|p| - 1]).Some? && At(tree, p[..|p| - 1]).value.Dir?
    ensures Shows(Graft(tree, p, sub), q) == if p <= q then Shows(sub, q[|p|..]) else Shows(tree, q)
    decreases |p|
  {
    ShowsStep(tree, q);
    PrefixTail(p, q);
    if |p| > 1 {
      var up := p[..|p| - 1];
      assert up[0] == p[0] && up[1..] == p[1..][..|p| - 2];
      var child := tree.children[p[0]];
      ShowsStep(Graft(tree, p, sub), q);
      if q[0] == p[0] {
        if q[1..] == [] {
          GraftKeeps(child, p[1..], sub);
        } else {
          AtGraft(child, p[1..], sub, q[1..]);
          assert p <= q ==> q[1..][|p| - 1..] == q[|p|..];
        }
      }
    }
  }

  lemma {:induction false} AtConcat(tree: Tree, p: Key, q: Key)
    ensures At(tree, p).Some? ==> At(tree, p + q) == At(At(tree, p).value, q)
    ensures Proper(tree) && At(tree, p).Some? ==> Proper(At(tree, p).value)
    decreases |p|
  {
    if p == [] {
      assert p + q == q;
    } else if tree.Dir? && p[0] in tree.children {
      assert (p + q)[1..] == p[1..] + q;
      AtConcat(tree.children[p[0]], p[1..], q);
    }
  }

  lemma {:induction false} ShowsConcat(tree: Tree, p: Key, q: Key)
    ensures At(tree, p).Some? ==> Shows(tree, p + q) == Shows(At(tree, p).value, q)
    ensures Proper(tree) && At(tree, p).Some? ==> Proper(At(tree, p).value)
  {
    AtConcat(tree, p, q);
  }

  /** A depicted directory is a directory of the tree. */
  lemma {:induction false} DirIsDir(tree: Tree, m: FsMap, p: Key)
    requires Depicts(tree, m) && (p == [] || IsDir(m, p))
    ensures At(tree, p).Some? && At(tree, p).value.Dir?
  {
    if p != [] {
      assert Shows(tree, p) == Some(m[p]);
      ShowsConcat(tree, p, []);
    }
  }

  /** What the cut and grafted tree shows at q is what the moved map holds there. */
  lemma {:induction false} MoveShows(tree: Tree, m: FsMap, s: Key, d: Key, q: Key)
    requires IsTree(m) && Depicts(tree, m) && CanMove(m, s, d) && q != []
    requires At(tree, s).Some?
    requires At(Cut(tree, s), d[..|d| - 1]).Some? && At(Cut(tree, s), d[..|d| - 1]).value.Dir?
    ensures var m' := MovedMap(m, s, d);
            Shows(Graft(Cut(tree, s), d, At(tree, s).value), q) == if q in m' then Some(m'[q]) else None
  {
    var sub := At(tree, s).value;
    AtGraft(Cut(tree, s), d, sub, q);
    if d <= q {
      MovedFrom(m, s, d, q);
      ShowsConcat(tree, s, q[|d|..]);
    } else {
      AtCut(tree, s, q);
      StaysPut(m, s, d, q);
    }
  }

  /** A successful fs_move cuts the subtree at the source out of the directory tree and grafts it
      in at the destination. */
  lemma {:induction false} MoveIsCutAndGraft(tree: Tree, m: FsMap, s: Key, d: Key)
    requires IsTree(m) && Depicts(tree, m) && CanMove(m, s, d)
    ensures At(tree, s).Some?
    ensures Depicts(Graft(Cut(tree, s), d, At(tree, s).value), MovedMap(m, s, d))
  {
    assert Shows(tree, s) == Some(m[s]);
    ShowsConcat(tree, s, []);
    CutKeeps(tree, s);
    DirIsDir(tree, m, d[..|d| - 1]);
    CutKeepsDir(tree, s, d[..|d| - 1]);
    GraftKeeps(Cut(tree, s), d, At(tree, s).value);
    forall q: Key | q != []
      ensures Shows(Graft(Cut(tree, s), d, At(tree, s).value), q) ==
              if q in MovedMap(m, s, d) then Some(MovedMap(m, s, d)[q]) else None
    {
      MoveShows(tree, m, s, d, q);
    }
  }

  lemma {:induction false} CutKeepsDir(tree: Tree, s: Key, up: Key)
    requires s != [] && !(s <= up) && At(tree, up).Some? && At(tree, up).value.Dir? && Proper(tree)
    ensures At(Cut(tree, s), up).Some? && At(Cut(tree, s), up).value.Dir?
  {
    CutKeeps(tree, s);
    if up != [] {
      AtCut(tree, s, up);
      ShowsConcat(tree, up, []);
      ShowsConcat(Cut(tree, s), up, []);
    }
  }

  // ---------- Every tree-shaped map is depicted by one tree ----------

  function Below(m: FsMap, p: Key): set<Key> {
    set q <- m | p < q
  }

  lemma {:induction false} BelowShrinks(m: FsMap, p: Key, n: string)
    requires p + [n] in m
    ensures Below(m, p + [n]) < Below(m, p)
  {
    var c := p + [n];
    assert p < c && c in Below(m, p) && c !in Below(m, c);
    forall q <- Below(m, c)
      ensures q in Below(m, p)
    {
      assert c < q;
    }
  }

  /** The names of the children of p. */
  function ChildNames(m: FsMap, p: Key): (ns: set<string>)
    ensures forall n :: n in ns <==> p + [n] in m
  {
    var ns := set q <- m | |q| == |p| + 1 && p < q :: q[|p|];
    assert forall n :: n in ns <==> p + [n] in m by {
      forall n: string
        ensures n in ns <==> p + [n] in m
      {
        if p + [n] in m {
          assert |p + [n]| == |p| + 1 && p < p + [n] && (p + [n])[|p|] == n;
        }
        if n in ns {
          var q :| q in m && |q| == |p| + 1 && p < q && q[|p|] == n;
          assert q == p + [n];
        }
      }
    }
    ns
  }

  /** The directory at p, built from the keys below it. */
  function Build(m: FsMap, p: Key): Tree
    decreases Below(m, p)
  {
    Dir(map n <- ChildNames(m, p) ::
      BelowShrinks(m, p, n);
      var e := m[p + [n]];
      if e.kind == DIR then Build(m, p + [n]) else File(e.kind, e.bytes))
  }

  lemma {:induction false} BuildProper(m: FsMap, p: Key)
    ensures Proper(Build(m, p)) && Build(m, p).Dir?
    decreases Below(m, p)
  {
    var ch := Build(m, p).children;
    forall n <- ch
      ensures Proper(ch[n])
    {
      BelowShrinks(m, p, n);
      if m[p + [n]].kind == DIR {
        BuildProper(m, p + [n]);
      }
    }
  }

  /** Only directories have something below them. */
  lemma {:induction false} OnlyDirsHaveBelow(m: FsMap, c: Key, r: Key)
    requires IsTree(m) && c != [] && r != [] && c + r in m
    ensures IsDir(m, c)
  {
    assert Rooted(m, c + r);
    assert (c + r)[..|c|] == c;
  }

  /** What the built directory shows one step down. */
  lemma {:induction false} BuildStep(m: FsMap, p: Key, q: Key)
    requires q != []
    ensures var c := p + [q[0]];
            Shows(Build(m, p), q) ==
            if c !in m then None
            else Shows(if m[c].kind == DIR then Build(m, c) else File(m[c].kind, m[c].bytes), q[1..])
  {
  }

  lemma {:induction false} BuildLabel(m: FsMap, c: Key)
    requires IsTree(m)
    ensures c in m ==>
              Shows(if m[c].kind == DIR then Build(m, c) else File(m[c].kind, m[c].bytes), []) == Some(m[c])
  {
  }

  lemma {:induction false} BuildShows(m: FsMap, p: Key, q: Key)
    requires IsTree(m) && q != []
    ensures Shows(Build(m, p), q) == if p + q in m then Some(m[p + q]) else None
    decreases |q|
  {
    hide Shows, Build, Rooted;
    var c, r := p + [q[0]], q[1..];
    BuildStep(m, p, q);
    assert p + q == c + r;
    if r == [] {
      assert c + r == c;
      BuildLabel(m, c);
    } else {
      if c + r in m {
        OnlyDirsHaveBelow(m, c, r);
      }
      if IsDir(m, c) {
        BuildShows(m, c, r);
      } else if c in m {
        ShowsStep(File(m[c].kind, m[c].bytes), r);
      }
    }
  }

  /** Every tree-shaped map is depicted ... */
  lemma {:induction false} TreeExists(m: FsMap)
    requires IsTree(m)
    ensures Depicts(Build(m, []), m)
  {
    hide Build, Shows, Label, IsTree;
    BuildProper(m, []);
    forall q: Key | q != []
      ensures Shows(Build(m, []), q) == if q in m then Some(m[q]) else None
    {
      BuildShows(m, [], q);
      assert [] + q == q;
    }
  }

  ghost predicate SameShows(a: Tree, b: Tree) {
    forall q: Key :: Shows(a, q) == Shows(b, q)
  }

  /** ... and by one tree only: trees that show the same are the same. */
  lemma {:induction false} TreeUnique(a: Tree, b: Tree)
    requires Proper(a) && Proper(b) && SameShows(a, b)
    ensures a == b
  {
    assert Shows(a, []) == Shows(b, []);
    if a.Dir? {
      forall n: string
        ensures n in a.children <==> n in b.children
        ensures n in a.children && n in b.children ==> a.children[n] == b.children[n]
      {
        assert Shows(a, [n]) == Shows(b, [n]);
        ShowsStep(a, [n]);
        ShowsStep(b, [n]);
        if n in a.children && n in b.children {
          forall q: Key
            ensures Shows(a.children[n], q) == Shows(b.children[n], q)
          {
            assert Shows(a, [n] + q) == Shows(b, [n] + q);
            ShowsStep(a, [n] + q);
            ShowsStep(b, [n] + q);
            assert ([n] + q)[1..] == q;
          }
          TreeUnique(a.children[n], b.children[n]);
        }
      }
    }
  }

  lemma {:induction false} DepictedOnce(a: Tree, b: Tree, m: FsMap)
    requires Depicts(a, m) && Depicts(b, m)
    ensures a == b
  {
    assert Shows(a, []) == Shows(b, []) == Some(Entry(DIR, []));
    TreeUnique(a, b);
  }

  /** The tree of the moved table is, as a value, the cut and grafted tree of the table before. */
  lemma {:induction false} MovedTreeIsCutAndGraft(m: FsMap, s: Key, d: Key)
    requires IsTree(m) && CanMove(m, s, d) && IsKey(d)
    ensures At(Build(m, []), s).Some?
    ensures Build(MovedMap(m, s, d), []) ==
            Graft(Cut(Build(m, []), s), d, At(Build(m, []), s).value)
  {
    TreeExists(m);
    MoveIsCutAndGraft(Build(m, []), m, s, d);
    MoveKeepsTree(m, s, d);
    TreeExists(MovedMap(m, s, d));
    DepictedOnce(Build(MovedMap(m, s, d), []),
                 Graft(Cut(Build(m, []), s), d, At(Build(m, []), s).value),
                 MovedMap(m, s, d));
  }

  /** A successful fs_move, slot by slot as it is, turns the directory tree of the table into the
      tree with the source's subtree cut out and grafted in at the destination. */
  lemma {:induction false} MoveIsTreeSurgery(t: Table, source: string, destination: string)
    requires TreeTable(t) && Move(t, source, destination).ok
    ensures var s, d := Components(source), Components(destination);
            var before, after := Build(Abs(t), []), Build(Abs(Move(t, source, destination).table), []);
            && s != [] && d != [] && At(before, s).Some?
            && after == Graft(Cut(before, s), d, At(before, s).value)
  {
    MoveRefines(t, source, destination);
    hide Build, At, Graft, Cut, MovedMap, Abs, TreeTable, Move, Components, Refines;
    TreeMoves(t, source, destination);
  }

  lemma {:induction false} TreeMoves(t: Table, source: string, destination: string)
    requires TreeTable(t)
    requires Refines(Move(t, source, destination), MoveMap(Abs(t), source, destination))
    requires Move(t, source, destination).ok
    ensures var s, d := Components(source), Components(destination);
            var before, after := Build(Abs(t), []), Build(Abs(Move(t, source, destination).table), []);
            && s != [] && d != [] && At(before, s).Some?
            && after == Graft(Cut(before, s), d, At(before, s).value)
  {
    hide Build, At, Graft, Cut, MovedMap, Abs, Move, WellFormed, IsTree;
    MovedTreeIsCutAndGraft(Abs(t), Components(source), Components(destination));
  }
}
