/** What the `tree` command prints on a directory tree whose views agree, and when it ends. */
module ShellTreeShape {
  import opened Basics
  import opened Paths
  import opened PathTests
  import opened FsTable
  import opened FsMap
  import opened FsRefine
  import opened FsViews
  import opened ShellTree
  import opened ShellTreeEnds

  // ---------- What the listing of one directory contains ----------

  ghost predicate Increasing(es: seq<nat>) {
    forall i, j :: 0 <= i < j < |es| ==> es[i] < es[j]
  }

  lemma {:induction false} AllChildren(t: Table, name: string, limit: nat)
    requires |t| <= limit
    ensures forall k: nat :: k in Children(t, name, limit) <==> k < |t| && IsDirectChild(name, t[k].name)
    ensures |Children(t, name, limit)| <= |t| && Increasing(Children(t, name, limit))
  {
    hide IsDirectChild;
    if t != [] {
      var r := Children(t[..|t| - 1], name, limit);
      AllChildren(t[..|t| - 1], name, limit);
      assert forall i :: 0 <= i < |r| ==> r[i] in r;
    }
  }

  /** A limit keeps the first children only. */
  lemma {:induction false} ChildrenLimit(t: Table, name: string, a: nat, b: nat)
    requires a <= b
    ensures Children(t, name, a) <= Children(t, name, b)
    ensures |Children(t, name, b)| <= a ==> Children(t, name, a) == Children(t, name, b)
    ensures |Children(t, name, b)| > a ==> |Children(t, name, a)| == a
  {
    hide IsDirectChild;
    if t != [] {
      ChildrenLimit(t[..|t| - 1], name, a, b);
    }
  }

  /** Where the walk starts: the root or a directory. */
  ghost predicate Walked(t: Table, path: string) {
    Fits(path) && (Components(path) == [] || IsDir(Abs(t), Components(path)))
  }

  ghost predicate IsChild(t: Table, kd: Key, k: nat) {
    k < |t| && |KeyOf(t[k])| == |kd| + 1 && kd <= KeyOf(t[k])
  }

  lemma {:induction false} ChildIs(t: Table, name: string, k: nat)
    requires WellFormed(t) && k < |t| && Normal(name)
    ensures IsDirectChild(name, t[k].name) <==> IsChild(t, Components(name), k)
  {
    assert NodeOk(t[k]);
    DirectChildIsOneMore(name, t[k].name);
    NormalRoundTrip(t[k].name);
    hide Components, Join, NodeOk;
  }

  /** A directory with few enough children is listed in full. */
  lemma {:induction false} ChildrenComplete(t: Table, name: string)
    requires |Children(t, name, |t|)| <= VIEW_MAX
    ensures forall k: nat :: k in Children(t, name, VIEW_MAX) <==> k < |t| && IsDirectChild(name, t[k].name)
    ensures Increasing(Children(t, name, VIEW_MAX))
  {
    hide IsDirectChild, Increasing;
    AllChildren(t, name, |t| + VIEW_MAX);
    AllChildren(t, name, |t|);
    ChildrenLimit(t, name, VIEW_MAX, |t| + VIEW_MAX);
    ChildrenLimit(t, name, |t|, |t| + VIEW_MAX);
  }

  /** The slot is among the entries its parent directory lists for the walk: at most 31 children of
      the same directory come before it. */
  ghost predicate Shown(t: Table, k: nat) {
    k < |t| && k in Children(t, ParentPath(t[k].name), 32)
  }

  lemma {:induction false} ChildrenAreDirect(t: Table, name: string)
    ensures forall k: nat :: k in Children(t, name, VIEW_MAX) ==> k < |t| && IsDirectChild(name, t[k].name)
    ensures Increasing(Children(t, name, VIEW_MAX))
  {
    hide IsDirectChild;
    AllChildren(t, name, |t| + VIEW_MAX);
    ChildrenLimit(t, name, VIEW_MAX, |t| + VIEW_MAX);
  }

  lemma {:induction false} ParentOfChild(t: Table, kd: Key, k: nat)
    requires WellFormed(t) && IsChild(t, kd, k) && IsKey(kd)
    ensures ParentPath(t[k].name) == Join(kd)
  {
    hide Join, Components;
    assert NodeOk(t[k]);
    ParentDropsLast(t[k].name);
    NormalRoundTrip(ParentPath(t[k].name));
    assert KeyOf(t[k])[..|kd|] == kd;
  }

  /** What the walk asks for and gets: the children that are among the first 32, in slot order. */
  lemma {:induction false} ListIs(t: Table, path: string)
    requires WellFormed(t) && Walked(t, path)
    ensures forall k: nat :: k in List(t, path, VIEW_MAX) <==> IsChild(t, Components(path), k) && Shown(t, k)
    ensures Increasing(List(t, path, VIEW_MAX))
  {
    hide Components, Join, NodeOk, Abs, IsDirectChild, Collapsed, Increasing, Children, WellFormed, KeyOf;
    NameFacts(path);
    FindIs(t, NormalName(path));
    var name := NormalName(path);
    assert List(t, path, VIEW_MAX) == Children(t, name, VIEW_MAX);
    ChildrenAreDirect(t, name);
    forall k: nat | k < |t|
      ensures k in Children(t, name, VIEW_MAX) <==> IsChild(t, Components(path), k) && Shown(t, k)
    {
      ChildIs(t, name, k);
      if IsChild(t, Components(path), k) {
        ParentOfChild(t, Components(path), k);
      }
    }
  }

  // ---------- Every descendant once, in preorder ----------

  /** The printed paths, as components. */
  ghost function Keys(t: Table, lines: seq<Line>): (ks: seq<Key>)
    ensures |ks| == |lines|
    ensures forall i :: 0 <= i < |lines| && lines[i].slot < |t| ==> ks[i] == KeyOf(t[lines[i].slot])
  {
    seq(|lines|, i requires 0 <= i < |lines| => if lines[i].slot < |t| then KeyOf(t[lines[i].slot]) else [])
  }

  /** No path comes after itself or after something below it. */
  ghost predicate ParentsFirst(ks: seq<Key>) {
    forall i, j :: 0 <= i < j < |ks| ==> !(ks[j] <= ks[i])
  }

  /** A subtree is printed in one piece. */
  ghost predicate InOnePiece(ks: seq<Key>) {
    forall i, j, l :: 0 <= i < j < l < |ks| && ks[i] <= ks[l] ==> ks[i] <= ks[j]
  }

  predicate Siblings(a: Key, b: Key) {
    a != [] && |a| == |b| && a[..|a| - 1] == b[..|b| - 1]
  }

  /** Children of one directory come in slot order. */
  ghost predicate InSlotOrder(ks: seq<Key>, lines: seq<Line>)
    requires |ks| == |lines|
  {
    forall i, j :: 0 <= i < j < |ks| && Siblings(ks[i], ks[j]) ==> lines[i].slot < lines[j].slot
  }

  ghost predicate Preorder(t: Table, lines: seq<Line>) {
    && ParentsFirst(Keys(t, lines))
    && InOnePiece(Keys(t, lines))
    && InSlotOrder(Keys(t, lines), lines)
  }

  /** Each line is indented by its distance from the start. */
  ghost predicate Indented(t: Table, lines: seq<Line>, base: int) {
    forall i :: 0 <= i < |lines| ==> lines[i].slot < |t| && lines[i].depth == |KeyOf(t[lines[i].slot])| + base
  }

  ghost predicate Incomparable(a: seq<Key>, b: seq<Key>) {
    forall x, y :: 0 <= x < |a| && 0 <= y < |b| ==> !(a[x] <= b[y]) && !(b[y] <= a[x])
  }

  lemma {:induction false} KeysConcat(t: Table, a: seq<Line>, b: seq<Line>)
    ensures Keys(t, a + b) == Keys(t, a) + Keys(t, b)
  {
  }

  lemma {:induction false} PiecesConcat(a: seq<Key>, b: seq<Key>)
    requires ParentsFirst(a) && ParentsFirst(b) && InOnePiece(a) && InOnePiece(b) && Incomparable(a, b)
    ensures ParentsFirst(a + b) && InOnePiece(a + b)
  {
  }

  lemma {:induction false} PiecesCons(k: Key, b: seq<Key>)
    requires ParentsFirst(b) && InOnePiece(b)
    requires forall y :: 0 <= y < |b| ==> k < b[y]
    ensures ParentsFirst([k] + b) && InOnePiece([k] + b)
  {
  }

  /** The keys of two entries of one directory, and what lies below them, never compare; only the
      entries themselves are siblings. */
  lemma {:induction false} EntriesApart(kd: Key, a: Key, b: Key, x: Key, y: Key)
    requires |a| == |b| == |kd| + 1 && a != b && a <= x && b <= y
    ensures !(x <= y) && !(y <= x)
    ensures Siblings(x, y) ==> x == a && y == b
  {
  }

  ghost predicate AtOrBelow(t: Table, e: nat, k: nat) {
    e < |t| && k < |t| && KeyOf(t[e]) <= KeyOf(t[k])
  }

  ghost predicate BelowSome(t: Table, es: seq<nat>, k: nat) {
    exists j :: 0 <= j < |es| && AtOrBelow(t, es[j], k)
  }

  ghost predicate Shape(t: Table, lines: seq<Line>, base: int) {
    Indented(t, lines, base) && Preorder(t, lines)
  }

  /** Entries of one directory in slot order. */
  ghost predicate Entries(t: Table, es: seq<nat>, kd: Key) {
    (forall j :: 0 <= j < |es| ==> IsChild(t, kd, es[j])) && Increasing(es)
  }

  /** A block of the first entry followed by the blocks of the others. */
  lemma {:induction false} BlocksConcat(t: Table, es: seq<nat>, kd: Key, a: seq<Line>, b: seq<Line>, base: int)
    requires WellFormed(t) && es != [] && Entries(t, es, kd)
    requires Shape(t, a, base) && Shape(t, b, base)
    requires forall k: nat :: Printed(a, k) ==> AtOrBelow(t, es[0], k)
    requires forall k: nat :: Printed(b, k) ==> BelowSome(t, es[1..], k)
    ensures Shape(t, a + b, base)
  {
    var ka, kb := Keys(t, a), Keys(t, b);
    hide WellFormed, KeyOf, ParentsFirst, InOnePiece;
    KeysConcat(t, a, b);
    forall x, y | 0 <= x < |a| && 0 <= y < |b|
      ensures !(ka[x] <= kb[y]) && !(kb[y] <= ka[x])
      ensures Siblings(ka[x], kb[y]) ==> a[x].slot < b[y].slot
    {
      ApartInBlocks(t, es, kd, a, b, x, y);
    }
    PiecesConcat(ka, kb);
  }

  lemma {:induction false} ApartInBlocks(t: Table, es: seq<nat>, kd: Key, a: seq<Line>, b: seq<Line>, x: nat, y: nat)
    requires WellFormed(t) && es != [] && Entries(t, es, kd) && x < |a| && y < |b|
    requires forall k: nat :: Printed(a, k) ==> AtOrBelow(t, es[0], k)
    requires forall k: nat :: Printed(b, k) ==> BelowSome(t, es[1..], k)
    ensures var k, k' := Keys(t, a)[x], Keys(t, b)[y];
            && !(k <= k') && !(k' <= k)
            && (Siblings(k, k') ==> a[x].slot < b[y].slot)
  {
    hide Siblings, Components;
    assert Printed(a, a[x].slot) && Printed(b, b[y].slot);
    var j :| 0 <= j < |es| - 1 && AtOrBelow(t, es[1..][j], b[y].slot);
    var e, f := es[0], es[j + 1];
    assert es[1..][j] == f && IsChild(t, kd, e) && IsChild(t, kd, f) && e < f;
    KeysDiffer(t, e, f);
    EntriesApart(kd, KeyOf(t[e]), KeyOf(t[f]), KeyOf(t[a[x].slot]), KeyOf(t[b[y].slot]));
    SameKeySameSlot(t, e, a[x].slot);
    SameKeySameSlot(t, f, b[y].slot);
  }

  lemma {:induction false} SameKeySameSlot(t: Table, i: nat, j: nat)
    requires WellFormed(t) && i < |t| && j < |t|
    ensures KeyOf(t[i]) == KeyOf(t[j]) <==> i == j
  {
  }

  // ---------- What the walk reaches ----------

  /** Slot k lies below kd, and it and every directory between them is shown by its parent. */
  ghost predicate Listed(t: Table, kd: Key, k: nat) {
    && k < |t| && kd < KeyOf(t[k])
    && forall j :: 0 <= j < |t| && kd < KeyOf(t[j]) <= KeyOf(t[k]) ==> Shown(t, j)
  }

  /** Below kd the walk lists a directory whose child path leads to its own parent. */
  ghost predicate Trapped(t: Table, kd: Key) {
    exists e: nat :: Listed(t, kd, e) && t[e].kind == DIR && Traps(t[e].name)
  }

  ghost predicate AtOrListed(t: Table, e: nat, k: nat) {
    e < |t| && k < |t| && (k == e || Listed(t, KeyOf(t[e]), k))
  }

  ghost predicate ListedBySome(t: Table, es: seq<nat>, k: nat) {
    exists j :: 0 <= j < |es| && AtOrListed(t, es[j], k)
  }

  /** Entries of one directory that it shows, in slot order. */
  ghost predicate ShownEntries(t: Table, es: seq<nat>, kd: Key) {
    Entries(t, es, kd) && InUse(t, es) && forall j :: 0 <= j < |es| ==> Shown(t, es[j])
  }

  /** The entry of the directory kd that leads to what lies in slot k. */
  lemma {:induction false} EntryAbove(t: Table, kd: Key, k: nat) returns (e: nat)
    requires TreeTable(t) && k < |t| && kd < KeyOf(t[k])
    ensures IsChild(t, kd, e) && AtOrBelow(t, e, k)
  {
    hide NodeOk, Components;
    var top := KeyOf(t[k])[..|kd| + 1];
    AbsAt(t, k);
    assert Rooted(Abs(t), KeyOf(t[k]));
    assert |top| < |KeyOf(t[k])| ==> IsDir(Abs(t), top);
    assert |top| == |KeyOf(t[k])| ==> top == KeyOf(t[k]);
    AbsKeys(t, top);
    e :| 0 <= e < |t| && KeyOf(t[e]) == top;
  }

  /** What is listed below a child of kd is listed below kd, and what is listed below kd is listed
      at or below one of its entries. */
  lemma {:induction false} ListedThrough(t: Table, kd: Key, e: nat, k: nat)
    requires WellFormed(t) && IsChild(t, kd, e) && k < |t| && KeyOf(t[e]) <= KeyOf(t[k])
    ensures Listed(t, kd, k) <==> Shown(t, e) && AtOrListed(t, e, k)
  {
    hide NodeOk, Components, Shown, KeyOf, WellFormed;
    SameKeySameSlot(t, e, k);
    forall j | 0 <= j < |t| && kd < KeyOf(t[j]) <= KeyOf(t[k])
      ensures j == e || KeyOf(t[e]) < KeyOf(t[j])
    {
      SameKeySameSlot(t, e, j);
      assert KeyOf(t[k])[..|kd| + 1] == KeyOf(t[e]);
    }
  }

  lemma {:induction false} ListedFromHere(t: Table, path: string, k: nat)
    requires TreeTable(t) && Walked(t, path)
    ensures ListedBySome(t, List(t, path, VIEW_MAX), k) <==> Listed(t, Components(path), k)
  {
    hide List, Walked, IsTree, Abs, Components, Shown, KeyOf, IsChild, WellFormed;
    ListIs(t, path);
    var kd, es := Components(path), List(t, path, VIEW_MAX);
    if ListedBySome(t, es, k) {
      var j :| 0 <= j < |es| && AtOrListed(t, es[j], k);
      assert es[j] in es;
      ListedThrough(t, kd, es[j], k);
    }
    if Listed(t, kd, k) {
      var e := EntryAbove(t, kd, k);
      ListedThrough(t, kd, e, k);
      var j :| 0 <= j < |es| && es[j] == e;
      assert AtOrListed(t, es[j], k);
    }
  }

  // ---------- The walk ends, with everything it reaches, unless it is trapped ----------

  /** Where the walk is not trapped, it ends, at most 64 calls deep, and prints what is listed below
      its start. */
  lemma {:induction false} WalkPrints(t: Table, past: seq<Node>, path: string, depth: nat, fuel: nat)
    requires TreeTable(t) && Coherent(t) && Walked(t, path) && !Trapped(t, Components(path))
    requires fuel + |NormalName(path)| >= PATH_MAX
    ensures var kd, walk := Components(path), Walk(t, past, path, depth, fuel);
            && walk.Some?
            && Shape(t, walk.value, depth - |kd| - 1)
            && forall k: nat :: Printed(walk.value, k) <==> Listed(t, kd, k)
    decreases fuel, 0, 0
  {
    hide Components, Join, Shape, Printed, List, Walk, WalkFrom, TreeTable, Walked, WellFormed, Coherent;
    hide Trapped, Listed, ListedBySome, Shown, Fits, NormalName;
    var kd, es := Components(path), List(t, path, VIEW_MAX);
    NameLength(t, path);
    WalkIs(t, past, path, depth, fuel);
    assert WellFormed(t) by {
      TreeIsWellFormed(t);
    }
    ListIs(t, path);
    assert ShownEntries(t, es, kd) by {
      assert forall j :: 0 <= j < |es| ==> es[j] in es;
    }
    WalkFromPrints(t, past, es, depth, fuel - 1, kd);
    forall k: nat
      ensures ListedBySome(t, es, k) <==> Listed(t, kd, k)
    {
      ListedFromHere(t, path, k);
    }
  }

  lemma {:induction false} TreeIsWellFormed(t: Table)
    requires TreeTable(t)
    ensures WellFormed(t)
  {
  }

  lemma {:induction false} NameLength(t: Table, path: string)
    requires Walked(t, path)
    ensures |NormalName(path)| < PATH_MAX && NormalName(path) == Join(Components(path))
  {
    NormalizeIdempotent(path);
  }

  lemma {:induction false} WalkFromPrints(t: Table, past: seq<Node>, es: seq<nat>, depth: nat, fuel: nat, kd: Key)
    requires TreeTable(t) && Coherent(t) && ShownEntries(t, es, kd) && IsKey(kd) && !Trapped(t, kd)
    requires fuel + 1 + |Join(kd)| >= PATH_MAX
    ensures var walk := WalkFrom(t, past, es, depth, fuel);
            && walk.Some?
            && Shape(t, walk.value, depth - |kd| - 1)
            && forall k: nat :: Printed(walk.value, k) <==> ListedBySome(t, es, k)
    decreases fuel, 1, |es|
  {
    hide Components, Join, Walk, TreeTable, WellFormed, Coherent, Shape, Printed, AtOrListed, Shown, Trapped, IsKey;
    if es == [] {
      EmptyShape(t, depth - |kd| - 1);
      WalkFromEmpty(t, past, es, depth, fuel);
      assert forall k: nat :: !Printed([], k) by {
        NothingPrinted();
      }
    } else {
      assert IsChild(t, kd, es[0]) && Shown(t, es[0]);
      BlockPrints(t, past, es[0], depth, fuel, kd);
      WalkFromPrints(t, past, es[1..], depth, fuel, kd);
      var a, b := Block(t, past, es[0], depth, fuel).value, WalkFrom(t, past, es[1..], depth, fuel).value;
      assert WalkFrom(t, past, es, depth, fuel) == Some(a + b);
      hide WalkFrom, Block;
      TreeIsWellFormed(t);
      ListedIsBelow(t, es);
      BlocksConcat(t, es, kd, a, b, depth - |kd| - 1);
      PrintedConcat(t, es, a, b);
    }
  }

  lemma {:induction false} NothingPrinted()
    ensures forall k: nat :: !Printed([], k)
  {
  }

  lemma {:induction false} ListedIsBelow(t: Table, es: seq<nat>)
    requires es != []
    ensures forall k: nat :: AtOrListed(t, es[0], k) ==> AtOrBelow(t, es[0], k)
    ensures forall k: nat :: ListedBySome(t, es[1..], k) ==> BelowSome(t, es[1..], k)
  {
    hide KeyOf, Shown;
    forall k: nat | ListedBySome(t, es[1..], k)
      ensures BelowSome(t, es[1..], k)
    {
      var j :| 0 <= j < |es[1..]| && AtOrListed(t, es[1..][j], k);
      assert AtOrBelow(t, es[1..][j], k);
    }
  }

  lemma {:induction false} EmptyShape(t: Table, base: int)
    ensures Shape(t, [], base)
  {
  }

  lemma {:induction false} PrintedConcat(t: Table, es: seq<nat>, a: seq<Line>, b: seq<Line>)
    requires es != []
    requires forall k: nat :: Printed(a, k) <==> AtOrListed(t, es[0], k)
    requires forall k: nat :: Printed(b, k) <==> ListedBySome(t, es[1..], k)
    ensures forall k: nat :: Printed(a + b, k) <==> ListedBySome(t, es, k)
  {
    hide AtOrListed, ListedBySome, Printed;
    forall k: nat
      ensures Printed(a + b, k) <==> ListedBySome(t, es, k)
    {
      PrintedEither(a, b, k);
      ListedByEither(t, es, k);
    }
  }

  lemma {:induction false} ListedByEither(t: Table, es: seq<nat>, k: nat)
    requires es != []
    ensures ListedBySome(t, es, k) <==> AtOrListed(t, es[0], k) || ListedBySome(t, es[1..], k)
  {
    hide AtOrListed;
  }

  /** Entry e of a directory that is not trapped: its line, and what is listed below it. */
  lemma {:induction false} BlockPrints(t: Table, past: seq<Node>, e: nat, depth: nat, fuel: nat, kd: Key)
    requires TreeTable(t) && Coherent(t) && IsChild(t, kd, e) && Shown(t, e) && IsKey(kd) && !Trapped(t, kd)
    requires fuel + 1 + |Join(kd)| >= PATH_MAX
    ensures var block := Block(t, past, e, depth, fuel);
            && block.Some?
            && Shape(t, block.value, depth - |kd| - 1)
            && forall k: nat :: Printed(block.value, k) <==> AtOrListed(t, e, k)
    decreases fuel, 1, 0
  {
    hide Walk, ChildPath, Components, Join, Coherent, TreeTable, WellFormed, IsKey, NormalName;
    hide Shape, Printed, AtOrListed, Listed, Walked, Trapped, Shown;
    TreeIsWellFormed(t);
    ChildFacts(t, past, e, kd);
    EmptyShape(t, depth - |KeyOf(t[e])|);
    NothingPrinted();
    var below: seq<Line> := [];
    if t[e].kind != DIR {
      NothingBelowFile(t, e);
      ListedLiesBelow(t, e);
    } else if |t[e].name| > NAME_KEPT {
      TrapIsSeen(t, kd, e);
      CutListsNothing(t, e);
      WalkOfNothing(t, past, ChildPath(t[e].name), depth + 1, fuel);
      NothingBelowLong(t, e);
      ListedLiesBelow(t, e);
    } else {
      BlockStart(t, e);
      TrapsBelow(t, kd, e);
      WalkPrints(t, past, ChildPath(t[e].name), depth + 1, fuel);
      below := Walk(t, past, ChildPath(t[e].name), depth + 1, fuel).value;
    }
    assert [Line(depth, e)] + [] == [Line(depth, e)];
    assert Block(t, past, e, depth, fuel) == Some([Line(depth, e)] + below);
    hide Block;
    BlockCons(t, e, below, depth);
  }

  lemma {:induction false} ListedLiesBelow(t: Table, e: nat)
    requires e < |t| && forall k: nat :: k < |t| ==> !(KeyOf(t[e]) < KeyOf(t[k]))
    ensures forall k: nat :: !Listed(t, KeyOf(t[e]), k)
  {
  }

  /** A child's name is longer than its directory's, and its view leads to it. */
  lemma {:induction false} ChildFacts(t: Table, past: seq<Node>, e: nat, kd: Key)
    requires WellFormed(t) && Coherent(t) && IsChild(t, kd, e) && IsKey(kd)
    ensures |Join(kd)| < |t[e].name| < PATH_MAX
    ensures t[e].view.kind == t[e].kind && Below(t, past, e) == ChildPath(t[e].name)
  {
    assert NodeOk(t[e]) && AgreesAt(t, e);
    NormalRoundTrip(t[e].name);
    hide Components, Join, ChildPath;
    if kd == [] {
      JoinNonempty(kd);
    } else {
      JoinSplit(KeyOf(t[e]), |kd|);
      assert KeyOf(t[e])[..|kd|] == kd;
    }
  }

  lemma {:induction false} TrapIsSeen(t: Table, kd: Key, e: nat)
    requires WellFormed(t) && IsChild(t, kd, e) && Shown(t, e) && t[e].kind == DIR && !Trapped(t, kd)
    ensures !Traps(t[e].name)
  {
    hide Components, KeyOf, WellFormed, Listed, Traps, Shown;
    ListedThrough(t, kd, e, e);
  }

  lemma {:induction false} TrapsBelow(t: Table, kd: Key, e: nat)
    requires WellFormed(t) && IsChild(t, kd, e) && Shown(t, e) && !Trapped(t, kd)
    ensures !Trapped(t, KeyOf(t[e]))
  {
    hide Components, KeyOf, WellFormed, Traps, Shown;
    if x: nat :| Listed(t, KeyOf(t[e]), x) && t[x].kind == DIR && Traps(t[x].name) {
      ListedThrough(t, kd, e, x);
    }
  }

  /** No name reaches below one of 63 characters, or below the first 62 of it. */
  lemma {:induction false} NothingBelowLong(t: Table, e: nat)
    requires WellFormed(t) && e < |t| && |t[e].name| > NAME_KEPT
    ensures forall k: nat :: k < |t| ==> !(KeyOf(t[e]) < KeyOf(t[k]))
  {
    hide Components, Join;
    assert NodeOk(t[e]);
    forall k: nat | k < |t|
      ensures !(KeyOf(t[e]) < KeyOf(t[k]))
    {
      assert NodeOk(t[k]);
      InsideIsProperPrefix(t[k].name, t[e].name);
    }
  }

  lemma {:induction false} CutListsNothing(t: Table, e: nat)
    requires WellFormed(t) && e < |t| && |t[e].name| > NAME_KEPT && !Traps(t[e].name)
    ensures List(t, ChildPath(t[e].name), VIEW_MAX) == []
  {
    hide Components, Join, ChildPath, NormalName, Fits, Children;
    assert NodeOk(t[e]);
    CutName(t[e].name);
    var kept := t[e].name[..NAME_KEPT];
    ChildrenAreDirect(t, kept);
    var es := Children(t, kept, VIEW_MAX);
    if es != [] {
      assert es[0] in es;
      var name := t[es[0]].name;
      assert NodeOk(t[es[0]]);
      JoinNonempty(Components(name));
      assert false;
    }
  }

  lemma {:induction false} WalkOfNothing(t: Table, past: seq<Node>, path: string, depth: nat, fuel: nat)
    requires List(t, path, VIEW_MAX) == [] && fuel > 0
    ensures Walk(t, past, path, depth, fuel) == Some([])
  {
  }

  /** The child path of a directory whose name fits starts a walk at that directory. */
  lemma {:induction false} BlockStart(t: Table, e: nat)
    requires TreeTable(t) && e < |t| && |t[e].name| <= NAME_KEPT
    ensures Components(ChildPath(t[e].name)) == KeyOf(t[e])
    ensures NormalName(ChildPath(t[e].name)) == t[e].name
    ensures t[e].kind == DIR ==> Walked(t, ChildPath(t[e].name))
  {
    assert NodeOk(t[e]);
    ChildPathIs(t[e].name);
    AbsAt(t, e);
  }

  lemma {:induction false} NothingBelowFile(t: Table, e: nat)
    requires TreeTable(t) && e < |t| && t[e].kind != DIR
    ensures forall k: nat :: k < |t| ==> !(KeyOf(t[e]) < KeyOf(t[k]))
  {
    hide NodeOk, Components;
    var ke := KeyOf(t[e]);
    AbsAt(t, e);
    assert Storable(ke, Abs(t)[ke]);
    forall k: nat | k < |t|
      ensures !(ke < KeyOf(t[k]))
    {
      var kk := KeyOf(t[k]);
      AbsAt(t, k);
      assert Rooted(Abs(t), kk);
      assert |ke| < |kk| ==> IsDir(Abs(t), kk[..|ke|]) && kk[..|ke|] != ke;
    }
  }

  lemma {:induction false} BlockCons(t: Table, e: nat, below: seq<Line>, depth: nat)
    requires WellFormed(t) && e < |t| && Shape(t, below, depth - |KeyOf(t[e])|)
    requires forall k: nat :: Printed(below, k) <==> Listed(t, KeyOf(t[e]), k)
    ensures Shape(t, [Line(depth, e)] + below, depth - |KeyOf(t[e])|)
    ensures forall k: nat :: Printed([Line(depth, e)] + below, k) <==> AtOrListed(t, e, k)
  {
    hide Shown;
    BlockConsShape(t, e, below, depth);
    hide WellFormed, KeyOf, Shape, Listed, Printed;
    forall k: nat
      ensures Printed([Line(depth, e)] + below, k) <==> AtOrListed(t, e, k)
    {
      PrintedEither([Line(depth, e)], below, k);
      PrintedAlone(depth, e, k);
      ListedIsInUse(t, KeyOf(t[e]), k);
    }
  }

  lemma {:induction false} ListedIsInUse(t: Table, kd: Key, k: nat)
    ensures Listed(t, kd, k) ==> k < |t| && kd < KeyOf(t[k])
  {
  }

  lemma {:induction false} BlockConsShape(t: Table, e: nat, below: seq<Line>, depth: nat)
    requires e < |t| && Shape(t, below, depth - |KeyOf(t[e])|)
    requires forall k: nat :: Printed(below, k) ==> k < |t| && KeyOf(t[e]) < KeyOf(t[k])
    ensures Shape(t, [Line(depth, e)] + below, depth - |KeyOf(t[e])|)
  {
    hide KeyOf, ParentsFirst, InOnePiece;
    var lines, ks := [Line(depth, e)] + below, Keys(t, below);
    KeysConcat(t, [Line(depth, e)], below);
    assert Keys(t, [Line(depth, e)]) == [KeyOf(t[e])];
    forall y | 0 <= y < |below|
      ensures KeyOf(t[e]) < ks[y]
    {
      assert Printed(below, below[y].slot);
    }
    PiecesCons(KeyOf(t[e]), ks);
    forall i, j | 0 <= i < j < |lines| && Siblings(Keys(t, lines)[i], Keys(t, lines)[j])
      ensures lines[i].slot < lines[j].slot
    {
      assert Keys(t, lines)[j] == ks[j - 1];
    }
  }

  // ---------- ... and does not end where it is trapped ----------

  lemma {:induction false} NoneInside(t: Table, past: seq<Node>, es: seq<nat>, i: nat, depth: nat, fuel: nat)
    requires InUse(t, es) && i < |es| && Block(t, past, es[i], depth, fuel).None?
    ensures WalkFrom(t, past, es, depth, fuel).None?
  {
    if i > 0 {
      NoneInside(t, past, es[1..], i - 1, depth, fuel);
    }
  }

  /** However much fuel the walk has, above a trap it runs out. */
  lemma {:induction false} TrapNeverEnds(t: Table, past: seq<Node>, path: string, depth: nat, fuel: nat, e: nat)
    requires TreeTable(t) && Coherent(t) && Walked(t, path)
    requires Listed(t, Components(path), e) && t[e].kind == DIR && Traps(t[e].name)
    ensures Walk(t, past, path, depth, fuel).None?
    decreases fuel
  {
    hide Components, Join, TreeTable, WellFormed, Coherent, Walked, List, ChildPath, Walk, WalkFrom, Listed, Traps;
    hide Shown, IsChild, KeyOf;
    if fuel == 0 {
      NoFuel(t, past, path, depth);
    } else {
      var kd, es := Components(path), List(t, path, VIEW_MAX);
      TreeIsWellFormed(t);
      ListIs(t, path);
      ListedIsInUse(t, kd, e);
      var f := EntryAbove(t, kd, e);
      ListedThrough(t, kd, f, e);
      ChildFacts(t, past, f, kd);
      assert kd == [] || IsDir(Abs(t), kd) by {
        StartsAtDirectory(t, path);
      }
      StepTowardsTrap(t, kd, f, e);
      TrapNeverEnds(t, past, ChildPath(t[f].name), depth + 1, fuel - 1, e);
      WalkIs(t, past, path, depth, fuel);
      var i :| 0 <= i < |es| && es[i] == f;
      NoneInside(t, past, es, i, depth, fuel - 1);
    }
  }

  lemma {:induction false} StartsAtDirectory(t: Table, path: string)
    requires Walked(t, path)
    ensures Components(path) == [] || IsDir(Abs(t), Components(path))
  {
  }

  /** The entry above the trap leads on towards it, the trap itself back to the directory it is in. */
  lemma {:induction false} StepTowardsTrap(t: Table, kd: Key, f: nat, e: nat)
    requires TreeTable(t) && IsChild(t, kd, f) && AtOrListed(t, f, e) && Listed(t, kd, e)
    requires kd == [] || IsDir(Abs(t), kd)
    requires t[e].kind == DIR && Traps(t[e].name)
    ensures t[f].kind == DIR && Walked(t, ChildPath(t[f].name))
    ensures Listed(t, Components(ChildPath(t[f].name)), e)
  {
    hide Shown;
    assert NodeOk(t[e]) && NodeOk(t[f]);
    AbsAt(t, f);
    if f == e {
      TrapLeadsUp(t[e].name);
      assert KeyOf(t[e])[..|kd|] == kd;
    } else {
      AbsAt(t, e);
      assert Rooted(Abs(t), KeyOf(t[e]));
      assert KeyOf(t[e])[..|KeyOf(t[f])|] == KeyOf(t[f]);
      InsideIsProperPrefix(t[e].name, t[f].name);
      BlockStart(t, f);
    }
  }

  // ---------- The tree command ----------

  /** The walk of a directory of a tree with agreeing views ends exactly if no directory it lists has
      a name of 63 characters with a slash before the last. */
  lemma {:induction false} WalkEnds(t: Table, past: seq<Node>, path: string, depth: nat)
    requires TreeTable(t) && Coherent(t) && Walked(t, path)
    ensures (exists fuel: nat :: Walk(t, past, path, depth, fuel).Some?) <==> !Trapped(t, Components(path))
    ensures Loops(t, past, path) <==> Trapped(t, Components(path))
  {
    WalkEndsUnlessLooping(t, past, path, depth);
    hide TreeTable, Coherent, Walked, Walk, Components, Shape, Printed, Traps, NormalName, Shown, KeyOf;
    if Trapped(t, Components(path)) {
      var e: nat :| Listed(t, Components(path), e) && t[e].kind == DIR && Traps(t[e].name);
      forall fuel: nat
        ensures Walk(t, past, path, depth, fuel).None?
      {
        TrapNeverEnds(t, past, path, depth, fuel, e);
      }
    } else {
      WalkPrints(t, past, path, depth, PATH_MAX);
    }
  }

  /** Where it ends, it has printed what it reaches, every node once, in preorder, siblings in slot
      order, indented by depth. */
  lemma {:induction false} WalkShape(t: Table, past: seq<Node>, path: string, depth: nat, fuel: nat)
    requires TreeTable(t) && Coherent(t) && Walked(t, path) && Walk(t, past, path, depth, fuel).Some?
    ensures var kd, lines := Components(path), Walk(t, past, path, depth, fuel).value;
            && Shape(t, lines, depth - |kd| - 1)
            && forall k: nat :: Printed(lines, k) <==> Listed(t, kd, k)
  {
    hide TreeTable, Coherent, Walked, Walk, Components, Shape, Printed, Listed, NormalName, Trapped;
    WalkEnds(t, past, path, depth);
    WalkPrints(t, past, path, depth, PATH_MAX + fuel);
    FuelIsEnough(t, past, path, depth, fuel, PATH_MAX + fuel);
  }

  /** No directory at or below kd has more children than the walk asks for. */
  ghost predicate FewChildren(t: Table, kd: Key) {
    && |Children(t, Join(kd), |t|)| <= 32
    && forall e :: 0 <= e < |t| && kd < KeyOf(t[e]) && t[e].kind == DIR ==>
                     |Children(t, t[e].name, |t|)| <= 32
  }

  /** Everything below kd is reached. */
  ghost predicate AllListed(t: Table, kd: Key) {
    forall k :: 0 <= k < |t| && kd < KeyOf(t[k]) ==> Listed(t, kd, k)
  }

  /** The walk leaves nothing out exactly if no directory at or below its start has more than 32
      children. */
  lemma {:induction false} WalkIsComplete(t: Table, past: seq<Node>, path: string, depth: nat, fuel: nat)
    requires TreeTable(t) && Coherent(t) && Walked(t, path) && Walk(t, past, path, depth, fuel).Some?
    ensures var kd, lines := Components(path), Walk(t, past, path, depth, fuel).value;
            (forall k: nat :: Printed(lines, k) <==> k < |t| && kd < KeyOf(t[k])) <==> FewChildren(t, kd)
  {
    hide TreeTable, Coherent, Walk, Components, Shape, Printed, Listed, KeyOf, FewChildren;
    var kd, lines := Components(path), Walk(t, past, path, depth, fuel).value;
    WalkShape(t, past, path, depth, fuel);
    forall k: nat
      ensures Listed(t, kd, k) ==> k < |t| && kd < KeyOf(t[k])
    {
      ListedIsInUse(t, kd, k);
    }
    assert (forall k: nat :: Printed(lines, k) <==> k < |t| && kd < KeyOf(t[k])) <==> AllListed(t, kd);
    if FewChildren(t, kd) {
      FewAreListed(t, kd);
    }
    if AllListed(t, kd) {
      AllListedAreFew(t, kd);
    }
  }

  lemma {:induction false} FewAreListed(t: Table, kd: Key)
    requires TreeTable(t) && IsKey(kd) && FewChildren(t, kd)
    ensures AllListed(t, kd)
  {
    hide TreeTable, FewChildren, Shown, KeyOf;
    forall j: nat | j < |t| && kd < KeyOf(t[j])
      ensures Shown(t, j)
    {
      FewAreShown(t, kd, j);
    }
  }

  lemma {:induction false} FewAreShown(t: Table, kd: Key, j: nat)
    requires TreeTable(t) && IsKey(kd) && FewChildren(t, kd) && j < |t| && kd < KeyOf(t[j])
    ensures Shown(t, j)
  {
    hide Components, Join, IsDirectChild, Children, NodeOk, Abs;
    var key := KeyOf(t[j]);
    var up := key[..|key| - 1];
    assert NodeOk(t[j]) by {
      hide *;
      NodeIsOk(t, j);
    }
    ParentDropsLast(t[j].name) by {
      NodeNames(t[j]);
    }
    NodeNames(t[j]);
    NormalRoundTrip(ParentPath(t[j].name));
    DirectChildIsOneMore(ParentPath(t[j].name), t[j].name);
    if up != kd {
      AbsAt(t, j);
      assert Rooted(Abs(t), key) && IsDir(Abs(t), up);
      AbsKeys(t, up);
      var e :| 0 <= e < |t| && KeyOf(t[e]) == up;
      AbsAt(t, e);
      NodeIsOk(t, e);
      NodeNames(t[e]);
      NormalRoundTrip(t[e].name);
    }
    ChildrenComplete(t, ParentPath(t[j].name));
  }

  lemma {:induction false} NodeIsOk(t: Table, k: nat)
    requires WellFormed(t) && k < |t|
    ensures NodeOk(t[k])
  {
  }

  lemma {:induction false} NodeNames(n: Node)
    requires NodeOk(n)
    ensures Normal(n.name) && n.name != "" && |n.name| < PATH_MAX
  {
  }

  lemma {:induction false} AllListedAreFew(t: Table, kd: Key)
    requires TreeTable(t) && IsKey(kd) && AllListed(t, kd)
    ensures FewChildren(t, kd)
  {
    hide Components, Join, Children, NodeOk, Abs, Normal, KeyOf, Shown;
    TreeIsWellFormed(t);
    NormalOfKey(kd);
    AllShownAreFew(t, kd, kd);
    forall e: nat | e < |t| && kd < KeyOf(t[e]) && t[e].kind == DIR
      ensures |Children(t, t[e].name, |t|)| <= VIEW_MAX
    {
      NodeIsOk(t, e);
      NodeNames(t[e]);
      NormalRoundTrip(t[e].name);
      KeyIsComponents(t, e);
      AllShownAreFew(t, kd, KeyOf(t[e]));
    }
  }

  lemma {:induction false} KeyIsComponents(t: Table, e: nat)
    requires e < |t|
    ensures KeyOf(t[e]) == Components(t[e].name)
  {
  }

  /** A directory that shows all its children has at most 32 of them. */
  lemma {:induction false} AllShownAreFew(t: Table, kd: Key, kc: Key)
    requires WellFormed(t) && AllListed(t, kd) && kd <= kc && IsKey(kc)
    ensures |Children(t, Join(kc), |t|)| <= VIEW_MAX
  {
    hide Join, Children, NodeOk, Normal, KeyOf, WellFormed, Components, IsDirectChild;
    var name := Join(kc);
    var all, first := Children(t, name, |t|), Children(t, name, VIEW_MAX);
    AllChildren(t, name, |t|);
    ChildrenLimit(t, name, VIEW_MAX, |t| + VIEW_MAX);
    ChildrenLimit(t, name, |t|, |t| + VIEW_MAX);
    NormalOfKey(kc);
    forall k <- all
      ensures k in first
    {
      ChildIs(t, name, k);
      ParentOfChild(t, kc, k);
      assert Listed(t, kd, k) && Shown(t, k);
    }
    NextIsNotFirst(first, all);
  }

  lemma {:induction false} NextIsNotFirst(first: seq<nat>, all: seq<nat>)
    requires Increasing(all) && (first <= all || all <= first)
    ensures |first| < |all| ==> all[|first|] in all && all[|first|] !in first
  {
  }

  /** A path that names no directory, or is too long, has nothing below it to print. */
  lemma {:induction false} NothingToWalk(t: Table, past: seq<Node>, path: string, depth: nat)
    requires WellFormed(t) && !Walked(t, path)
    ensures Walk(t, past, path, depth, 1) == Some([])
  {
    hide Components, Join, NodeOk, Abs, Collapsed, Children, WellFormed, Walk, KeyOf;
    NameFacts(path);
    FindIs(t, NormalName(path));
    WalkOfNothing(t, past, path, depth, 1);
  }
}
