/** fs_move: the rename of a whole subtree, slot by slot. */
module FsMove {
  import opened Paths
  import opened PathTests
  import opened FsTable
  import opened FsMap
  import opened FsRefine

  /** The destination lies under the source exactly when the code's test says so: it asks
      whether the source is a directory, which here follows. */
  lemma {:induction false} UnderSourceTest(t: Table, i: nat, d: string)
    requires TreeTable(t) && i < |t| && Normal(d) && d != "" && Find(t, d) == |t|
    requires ParentExists(t, d)
    ensures (t[i].kind == DIR && Inside(d, t[i].name)) <==> KeyOf(t[i]) <= Components(d)
  {
    var s := t[i].name;
    var ks, kd := Components(s), Components(d);
    assert NodeOk(t[i]);
    InsideIsProperPrefix(d, s);
    ParentExistsIs(t, d);
    FindIs(t, d);
    AbsAt(t, i);
    if ks <= kd {
      assert ks != kd;
      NormalRoundTrip(s);
      ChildIsRooted(Abs(t), kd);
      assert kd[..|ks|] == ks;
      assert IsDir(Abs(t), kd[..|ks|]);
    }
  }

  /** In a tree the collision scan never finds anything: only a name that got too long stops a move. */
  lemma {:induction false} CollisionNeverFires(t: Table, k: nat, s: string, d: string)
    requires TreeTable(t) && k < |t| && AtOrInside(t[k].name, s)
    requires Normal(s) && Normal(d) && s != "" && d != "" && Find(t, d) == |t|
    ensures forall j :: 0 <= j < |t| ==> t[j].name != Renamed(t[k].name, s, d)
    ensures Components(s) <= KeyOf(t[k])
    ensures Blocked(t, k, s, d) <==> |Join(Rekey(KeyOf(t[k]), Components(s), Components(d)))| >= PATH_MAX
  {
    assert NodeOk(t[k]);
    RenamedIsRekeyed(t[k].name, s, d);
    FindIs(t, d);
    NormalRoundTrip(d);
    forall j | 0 <= j < |t|
      ensures t[j].name != Renamed(t[k].name, s, d)
    {
      AbsAt(t, j);
      DestinationIsFree(Abs(t), Components(d), KeyOf(t[j]));
      assert Components(d) <= Components(Renamed(t[k].name, s, d));
    }
  }

  ghost predicate SomeBlocked(t: Table, s: string, d: string) {
    exists k :: 0 <= k < |t| && AtOrInside(t[k].name, s) && Blocked(t, k, s, d)
  }

  lemma {:induction false} BlockedIsTooLong(t: Table, s: string, d: string)
    requires TreeTable(t) && Normal(s) && Normal(d) && s != "" && d != "" && Find(t, d) == |t|
    ensures SomeBlocked(t, s, d) <==>
            exists q <- Abs(t) :: Components(s) <= q && |Join(Rekey(q, Components(s), Components(d)))| >= PATH_MAX
  {
    var ks, kd := Components(s), Components(d);
    if SomeBlocked(t, s, d) {
      var k :| 0 <= k < |t| && AtOrInside(t[k].name, s) && Blocked(t, k, s, d);
      CollisionNeverFires(t, k, s, d);
      AbsAt(t, k);
    }
    if q :| q in Abs(t) && ks <= q && |Join(Rekey(q, ks, kd))| >= PATH_MAX {
      AbsKeys(t, q);
      var k :| 0 <= k < |t| && KeyOf(t[k]) == q;
      assert NodeOk(t[k]);
      AtOrInsideIsPrefix(t[k].name, s);
      CollisionNeverFires(t, k, s, d);
    }
  }

  /** What the rewriting pass does to one slot. */
  lemma {:induction false} MovedNodeFacts(n: Node, k: nat, s: string, d: string)
    requires NodeOk(n) && Normal(s) && Normal(d) && s != "" && d != ""
    requires AtOrInside(n.name, s) ==> |Renamed(n.name, s, d)| < PATH_MAX
    ensures NodeOk(MovedNode(n, k, s, d))
    ensures KeyOf(MovedNode(n, k, s, d)) == Moved(KeyOf(n), Components(s), Components(d))
    ensures EntryOf(MovedNode(n, k, s, d)) == EntryOf(n)
  {
    AtOrInsideIsPrefix(n.name, s);
    if AtOrInside(n.name, s) {
      RenamedIsRekeyed(n.name, s, d);
    }
  }

  /** All slots after the rewriting pass. */
  lemma {:induction false} MovedSlots(t: Table, s: string, d: string, k: nat)
    requires TreeTable(t) && Normal(s) && Normal(d) && s != "" && d != ""
    requires CanMove(Abs(t), Components(s), Components(d)) && k < |t|
    ensures var n := MovedTable(t, s, d)[k];
            NodeOk(n) && KeyOf(n) == Moved(KeyOf(t[k]), Components(s), Components(d)) && EntryOf(n) == EntryOf(t[k])
  {
    assert NodeOk(t[k]);
    AbsAt(t, k);
    AtOrInsideIsPrefix(t[k].name, s);
    if AtOrInside(t[k].name, s) {
      RenamedIsRekeyed(t[k].name, s, d);
    }
    MovedNodeFacts(t[k], k, s, d);
  }

  lemma {:induction false} MovedTableWellFormed(t: Table, s: string, d: string)
    requires TreeTable(t) && Normal(s) && Normal(d) && s != "" && d != ""
    requires CanMove(Abs(t), Components(s), Components(d))
    ensures WellFormed(MovedTable(t, s, d))
  {
    var t' := MovedTable(t, s, d);
    forall k | 0 <= k < |t|
      ensures NodeOk(t'[k])
    {
      MovedSlots(t, s, d, k);
    }
    forall i, j | 0 <= i < j < |t|
      ensures t'[i].name != t'[j].name
    {
      MovedSlots(t, s, d, i);
      MovedSlots(t, s, d, j);
      AbsAt(t, i);
      AbsAt(t, j);
      MovedInjective(Abs(t), Components(s), Components(d), KeyOf(t[i]), KeyOf(t[j]));
      KeysDiffer(t, i, j);
    }
  }

  lemma {:induction false} MovedTableRefines(t: Table, s: string, d: string)
    requires TreeTable(t) && Normal(s) && Normal(d) && s != "" && d != ""
    requires CanMove(Abs(t), Components(s), Components(d))
    ensures WellFormed(MovedTable(t, s, d))
    ensures Abs(MovedTable(t, s, d)) == MovedMap(Abs(t), Components(s), Components(d))
  {
    var t' := MovedTable(t, s, d);
    var ks, kd := Components(s), Components(d);
    var m' := MovedMap(Abs(t), ks, kd);
    MovedTableWellFormed(t, s, d);
    MovedMapIs(Abs(t), ks, kd);
    forall k | 0 <= k < |t'|
      ensures KeyOf(t'[k]) in m' && m'[KeyOf(t'[k])] == EntryOf(t'[k])
    {
      MovedSlots(t, s, d, k);
      AbsAt(t, k);
    }
    forall q <- m'
      ensures exists k :: 0 <= k < |t'| && KeyOf(t'[k]) == q
    {
      var p :| p in Abs(t) && Moved(p, ks, kd) == q;
      AbsKeys(t, p);
      var k :| 0 <= k < |t| && KeyOf(t[k]) == p;
      MovedSlots(t, s, d, k);
    }
    AbsUnique(t', m');
  }

  /** On a tree, fs_move succeeds exactly when the map-level move can, and does what it does. */
  lemma {:induction false} MoveRefines(t: Table, source: string, destination: string)
    requires TreeTable(t)
    ensures Refines(Move(t, source, destination), MoveMap(Abs(t), source, destination))
    ensures !Move(t, source, destination).ok ==> Move(t, source, destination).table == t
  {
    hide Abs, NodeOk, IsTree, Components, Join, MovedMap, MovedTable;
    NameFacts(source);
    NameFacts(destination);
    if Nameable(source) && Nameable(destination) {
      var s, d := NormalName(source), NormalName(destination);
      var i := Find(t, s);
      FindIs(t, s);
      FindIs(t, d);
      ParentExistsIs(t, d);
      if i < |t| && Find(t, d) == |t| && ParentExists(t, d) {
        UnderSourceTest(t, i, d);
        BlockedIsTooLong(t, s, d);
        assert Move(t, source, destination).ok <==>
               !(t[i].kind == DIR && Inside(d, s)) && !SomeBlocked(t, s, d);
        if CanMove(Abs(t), Components(s), Components(d)) {
          MovedTableRefines(t, s, d);
        }
      }
    }
  }

  /** fs_move succeeds exactly when both paths can be named, the source is there, the destination is
      not but its parent directory is, the destination does not lie under the source, and every
      renamed path still fits; then every slot at or under the source has its name rewritten and
      nothing else of any slot changes. A refused move changes nothing. */
  lemma {:induction false} MoveExactly(t: Table, source: string, destination: string)
    requires TreeTable(t)
    ensures var s, d, m := Components(source), Components(destination), Abs(t);
            var o := Move(t, source, destination);
            && (o.ok <==>
                  && Names(source, s) && Names(destination, d)
                  && s in m && d !in m && ParentIsDir(m, d) && !(s <= d)
                  && forall k <- m :: s <= k ==> |Join(d + k[|s|..])| < PATH_MAX)
            && |o.table| == |t|
            && (!o.ok ==> o.table == t)
            && (o.ok ==> forall i :: 0 <= i < |t| ==>
                  && KeyOf(o.table[i]) == (if s <= KeyOf(t[i]) then d + KeyOf(t[i])[|s|..] else KeyOf(t[i]))
                  && o.table[i].data == t[i].data && o.table[i].size == t[i].size && o.table[i].kind == t[i].kind)
  {
    MoveRefines(t, source, destination);
    NameFacts(source);
    NameFacts(destination);
    var o := Move(t, source, destination);
    if o.ok {
      var s, d := NormalName(source), NormalName(destination);
      forall i | 0 <= i < |t|
        ensures KeyOf(o.table[i]) == Moved(KeyOf(t[i]), Components(s), Components(d))
        ensures o.table[i].data == t[i].data && o.table[i].size == t[i].size && o.table[i].kind == t[i].kind
      {
        MovedSlots(t, s, d, i);
      }
    }
  }

  // ---------- Moving back ----------

  /** The source of a move is free afterwards, and not below the destination. */
  lemma {:induction false} SourceIsFree(m: FsMap, s: Key, d: Key)
    requires IsTree(m) && CanMove(m, s, d)
    ensures s !in MovedMap(m, s, d) && !(d <= s)
  {
    MovedMapIs(m, s, d);
    DestinationIsFree(m, d, s);
    assert forall k <- m :: Moved(k, s, d) != s;
  }

  lemma {:induction false} SourceParentStays(m: FsMap, s: Key, d: Key)
    requires IsTree(m) && CanMove(m, s, d)
    ensures ParentIsDir(MovedMap(m, s, d), s)
  {
    hide MovedMap, Join;
    if |s| > 1 {
      var up := s[..|s| - 1];
      assert Rooted(m, s);
      assert IsDir(m, up);
      DirMoves(m, s, d, up);
      assert Moved(up, s, d) == up;
    }
  }

  lemma {:induction false} NamesFitAgain(m: FsMap, s: Key, d: Key, q: Key)
    requires IsTree(m) && CanMove(m, s, d) && q in MovedMap(m, s, d) && d <= q
    ensures |Join(Rekey(q, d, s))| < PATH_MAX
  {
    MovedFrom(m, s, d, q);
    var k := s + q[|d|..];
    assert Storable(k, m[k]);
  }

  /** After a move there is room to move back. */
  lemma {:induction false} CanMoveBack(m: FsMap, s: Key, d: Key)
    requires IsTree(m) && CanMove(m, s, d)
    ensures CanMove(MovedMap(m, s, d), d, s)
  {
    hide MovedMap, Join, IsTree;
    SourceIsFree(m, s, d);
    SourceParentStays(m, s, d);
    MovedMapAt(m, s, d, s);
    assert Moved(s, s, d) == d;
    forall q <- MovedMap(m, s, d) | d <= q
      ensures |Join(Rekey(q, d, s))| < PATH_MAX
    {
      NamesFitAgain(m, s, d, q);
    }
  }

  /** Two tables that differ at most in their entry views. */
  ghost predicate SameButViews(a: Table, b: Table) {
    |a| == |b| && forall k :: 0 <= k < |a| ==> a[k] == b[k].(view := a[k].view)
  }

  lemma {:induction false} MovedTwice(n: Node, k: nat, s: string, d: string)
    requires Normal(n.name) && Normal(s) && Normal(d) && s != "" && d != ""
    requires !(Components(d) <= KeyOf(n))
    ensures MovedNode(MovedNode(n, k, s, d), k, d, s) ==
            if AtOrInside(n.name, s) then Synced(n, k) else n
  {
    AtOrInsideIsPrefix(n.name, d);
    if AtOrInside(n.name, s) {
      var r := Renamed(n.name, s, d);
      assert r[..|d|] == d && r[|d|..] == n.name[|s|..];
      assert n.name == s + n.name[|s|..];
      assert AtOrInside(r, d) by {
        if n.name != s {
          assert r[|d|] == n.name[|s|];
        }
      }
    }
  }

  /** Slot k after moving there and back. */
  lemma {:induction false} MovedBackSlot(t: Table, s: string, d: string, k: nat)
    requires TreeTable(t) && Normal(s) && Normal(d) && s != "" && d != "" && k < |t|
    requires CanMove(Abs(t), Components(s), Components(d))
    ensures MovedTable(MovedTable(t, s, d), d, s)[k] == if AtOrInside(t[k].name, s) then Synced(t[k], k) else t[k]
  {
    assert NodeOk(t[k]);
    AbsAt(t, k);
    DestinationIsFree(Abs(t), Components(d), KeyOf(t[k]));
    MovedTwice(t[k], k, s, d);
  }

  lemma {:induction false} BackSucceeds(t: Table, source: string, destination: string)
    requires TreeTable(t) && Move(t, source, destination).ok
    ensures Nameable(source) && Nameable(destination)
    ensures var s, d := NormalName(source), NormalName(destination);
            && CanMove(Abs(t), Components(s), Components(d))
            && Normal(s) && Normal(d)
            && Move(t, source, destination).table == MovedTable(t, s, d)
            && Move(MovedTable(t, s, d), destination, source) == Outcome(true, MovedTable(MovedTable(t, s, d), d, s))
  {
    NameFacts(source);
    NameFacts(destination);
    MoveRefines(t, source, destination);
    var s, d := NormalName(source), NormalName(destination);
    var m, ks, kd := Abs(t), Components(s), Components(d);
    MovedTableRefines(t, s, d);
    MoveKeepsTree(m, ks, kd);
    CanMoveBack(m, ks, kd);
    MoveRefines(MovedTable(t, s, d), destination, source);
  }

  lemma {:induction false} MovedBackTable(t: Table, s: string, d: string)
    requires TreeTable(t) && Normal(s) && Normal(d) && s != "" && d != ""
    requires CanMove(Abs(t), Components(s), Components(d))
    ensures var t'' := MovedTable(MovedTable(t, s, d), d, s);
            && SameButViews(t'', t)
            && ((forall k :: 0 <= k < |t| ==> t[k] == Synced(t[k], k)) ==> t'' == t)
  {
    hide TreeTable, CanMove, AtOrInside, MovedNode;
    var t'' := MovedTable(MovedTable(t, s, d), d, s);
    forall k | 0 <= k < |t|
      ensures t''[k] == Synced(t[k], k) || t''[k] == t[k]
    {
      MovedBackSlot(t, s, d, k);
    }
  }

  /** Moves undo each other: after a successful move the opposite move succeeds and brings back
      every slot - name, contents, order - and the views too where they were in agreement. */
  lemma {:induction false} MoveBack(t: Table, source: string, destination: string)
    requires TreeTable(t) && Move(t, source, destination).ok
    ensures var back := Move(Move(t, source, destination).table, destination, source);
            && back.ok
            && SameButViews(back.table, t)
            && ((forall k :: 0 <= k < |t| ==> t[k] == Synced(t[k], k)) ==> back.table == t)
  {
    hide Move, TreeTable, SameButViews, Synced, MovedTable, CanMove;
    BackSucceeds(t, source, destination);
    MovedBackTable(t, NormalName(source), NormalName(destination));
  }
}
