/** The slot table refines the map from paths to contents: every operation of FsTable, read
    through the abstraction Abs, is the operation of FsMap of the same name. */
module FsRefine {
  import opened Basics
  import opened Paths
  import opened PathTests
  import opened FsTable
  import opened FsMap

  /** A slot in use: a normal, storable name, directories empty, the buffer zero past the contents. */
  ghost predicate NodeOk(n: Node) {
    && Normal(n.name) && n.name != "" && |n.name| < PATH_MAX
    && (n.kind == DIR ==> n.size == 0)
    && forall k :: n.size <= k < MAX_SIZE ==> n.data[k] == 0
  }

  ghost predicate DistinctNames(t: Table) {
    forall i, j :: 0 <= i < j < |t| ==> t[i].name != t[j].name
  }

  ghost predicate WellFormed(t: Table) {
    && |t| <= MAX_ENTRIES
    && (forall i :: 0 <= i < |t| ==> NodeOk(t[i]))
    && DistinctNames(t)
  }

  function KeyOf(n: Node): Key {
    Components(n.name)
  }

  function EntryOf(n: Node): Entry {
    Entry(n.kind, Contents(n))
  }

  /** The map a table stands for. */
  function Abs(t: Table): FsMap {
    if t == [] then map[] else Abs(t[..|t| - 1])[KeyOf(t[|t| - 1]) := EntryOf(t[|t| - 1])]
  }

  /** The table is a directory tree. */
  ghost predicate TreeTable(t: Table) {
    WellFormed(t) && IsTree(Abs(t))
  }

  // ---------- The abstraction ----------

  lemma {:induction false} AbsKeys(t: Table, p: Key)
    requires p in Abs(t)
    ensures exists i :: 0 <= i < |t| && KeyOf(t[i]) == p
  {
    var n := |t| - 1;
    if p != KeyOf(t[n]) {
      AbsKeys(t[..n], p);
      var i :| 0 <= i < n && KeyOf(t[..n][i]) == p;
      assert KeyOf(t[i]) == p;
    }
  }

  lemma {:induction false} KeysDiffer(t: Table, i: nat, j: nat)
    requires WellFormed(t) && i < |t| && j < |t| && i != j
    ensures KeyOf(t[i]) != KeyOf(t[j])
  {
  }

  lemma {:induction false} WellFormedPrefix(t: Table, n: nat)
    requires WellFormed(t) && n <= |t|
    ensures WellFormed(t[..n])
  {
  }

  lemma {:induction false} AbsAt(t: Table, i: nat)
    requires WellFormed(t) && i < |t|
    ensures KeyOf(t[i]) in Abs(t) && Abs(t)[KeyOf(t[i])] == EntryOf(t[i])
  {
    hide NodeOk, Components;
    var n := |t| - 1;
    if i < n {
      WellFormedPrefix(t, n);
      AbsAt(t[..n], i);
      KeysDiffer(t, i, n);
    }
  }

  /** Abs(t) is the only map that holds exactly the slots of t. */
  lemma {:induction false} AbsUnique(t: Table, m: FsMap)
    requires WellFormed(t)
    requires forall i :: 0 <= i < |t| ==> KeyOf(t[i]) in m && m[KeyOf(t[i])] == EntryOf(t[i])
    requires forall p <- m :: exists i :: 0 <= i < |t| && KeyOf(t[i]) == p
    ensures Abs(t) == m
  {
    hide Abs, NodeOk, Components;
    forall p | p in Abs(t) || p in m
      ensures p in Abs(t) && p in m && Abs(t)[p] == m[p]
    {
      if p in Abs(t) {
        AbsKeys(t, p);
      }
      var i :| 0 <= i < |t| && KeyOf(t[i]) == p;
      AbsAt(t, i);
    }
  }

  lemma {:induction false} AbsSize(t: Table)
    requires WellFormed(t)
    ensures |Abs(t)| == |t|
  {
    if t != [] {
      var n := |t| - 1;
      WellFormedPrefix(t, n);
      AbsSize(t[..n]);
      forall p | p in Abs(t[..n])
        ensures p != KeyOf(t[n])
      {
        AbsKeys(t[..n], p);
        var i :| 0 <= i < n && KeyOf(t[..n][i]) == p;
        KeysDiffer(t, i, n);
      }
    }
  }

  /** strcmp over the slots finds a name exactly when the map has its key. */
  lemma {:induction false} FindIs(t: Table, name: string)
    requires WellFormed(t) && Normal(name)
    ensures Find(t, name) < |t| <==> Components(name) in Abs(t)
    ensures Find(t, name) < |t| ==> EntryOf(t[Find(t, name)]) == Abs(t)[Components(name)]
  {
    var i := Find(t, name);
    if i < |t| {
      AbsAt(t, i);
    }
    if Components(name) in Abs(t) {
      AbsKeys(t, Components(name));
      var j :| 0 <= j < |t| && KeyOf(t[j]) == Components(name);
      assert NodeOk(t[j]);
      assert t[j].name == name;
    }
  }

  lemma {:induction false} AbsPush(t: Table, n: Node)
    ensures Abs(t + [n]) == Abs(t)[KeyOf(n) := EntryOf(n)]
  {
  }

  lemma {:induction false} PushWellFormed(t: Table, n: Node)
    requires WellFormed(t) && NodeOk(n) && |t| < MAX_ENTRIES && Find(t, n.name) == |t|
    ensures WellFormed(t + [n])
  {
  }

  lemma {:induction false} AbsUpdate(t: Table, i: nat, n: Node)
    requires WellFormed(t) && i < |t| && NodeOk(n) && n.name == t[i].name
    ensures WellFormed(t[i := n])
    ensures Abs(t[i := n]) == Abs(t)[KeyOf(n) := EntryOf(n)]
  {
    hide Abs, NodeOk, Components, EntryOf;
    var t' := t[i := n];
    var m := Abs(t)[KeyOf(n) := EntryOf(n)];
    forall j | 0 <= j < |t'|
      ensures KeyOf(t'[j]) in m && m[KeyOf(t'[j])] == EntryOf(t'[j])
    {
      AbsAt(t, j);
      if j != i {
        KeysDiffer(t, i, j);
      }
    }
    forall p <- m
      ensures exists j :: 0 <= j < |t'| && KeyOf(t'[j]) == p
    {
      if p == KeyOf(n) {
        assert KeyOf(t'[i]) == p;
      } else {
        AbsKeys(t, p);
        var j :| 0 <= j < |t| && KeyOf(t[j]) == p;
        assert KeyOf(t'[j]) == p;
      }
    }
    AbsUnique(t', m);
  }

  function Without(t: Table, i: nat): Table
    requires i < |t|
  {
    t[..i] + t[i + 1..]
  }

  lemma {:induction false} WithoutAt(t: Table, i: nat)
    requires i < |t|
    ensures |Without(t, i)| == |t| - 1
    ensures forall j :: 0 <= j < i ==> Without(t, i)[j] == t[j]
    ensures forall j :: i < j < |t| ==> Without(t, i)[j - 1] == t[j]
    ensures forall j :: i <= j < |t| - 1 ==> Without(t, i)[j] == t[j + 1]
  {
  }

  lemma {:induction false} WithoutWellFormed(t: Table, i: nat)
    requires WellFormed(t) && i < |t|
    ensures WellFormed(Without(t, i))
  {
  }

  lemma {:induction false} WithoutKeeps(t: Table, i: nat, k: nat)
    requires WellFormed(t) && i < |t| && k < |t| && k != i
    ensures KeyOf(t[k]) in Abs(t) - {KeyOf(t[i])}
    ensures (Abs(t) - {KeyOf(t[i])})[KeyOf(t[k])] == EntryOf(t[k])
  {
    AbsAt(t, k);
    KeysDiffer(t, k, i);
  }

  lemma {:induction false} WithoutLosesOne(t: Table, i: nat, p: Key)
    requires WellFormed(t) && i < |t| && p in Abs(t) && p != KeyOf(t[i])
    ensures exists j :: 0 <= j < |Without(t, i)| && KeyOf(Without(t, i)[j]) == p
  {
    hide Abs, WellFormed;
    AbsKeys(t, p);
    var k :| 0 <= k < |t| && KeyOf(t[k]) == p;
    WithoutAt(t, i);
    var j := if k < i then k else k - 1;
    assert KeyOf(Without(t, i)[j]) == p;
  }

  lemma {:induction false} AbsRemove(t: Table, i: nat)
    requires WellFormed(t) && i < |t|
    ensures WellFormed(Without(t, i))
    ensures Abs(Without(t, i)) == Abs(t) - {KeyOf(t[i])}
  {
    var t' := Without(t, i);
    var m := Abs(t) - {KeyOf(t[i])};
    WithoutWellFormed(t, i);
    forall j | 0 <= j < |t'|
      ensures KeyOf(t'[j]) in m && m[KeyOf(t'[j])] == EntryOf(t'[j])
    {
      WithoutAt(t, i);
      WithoutKeeps(t, i, if j < i then j else j + 1);
    }
    forall p <- m
      ensures exists j :: 0 <= j < |t'| && KeyOf(t'[j]) == p
    {
      WithoutLosesOne(t, i, p);
    }
    AbsUnique(t', m);
  }

  // ---------- Meaning of the shared tests ----------

  /** What a table-level test on a nameable path says about its key. */
  lemma {:induction false} NameFacts(path: string)
    ensures Normal(NormalName(path)) && Components(NormalName(path)) == Components(path)
    ensures |NormalName(path)| <= |Collapsed(path)|
    ensures Nameable(path) <==> Names(path, Components(path))
    ensures NormalName(path) == "" <==> Components(path) == []
  {
    NormalizeIdempotent(path);
    NormalOfKey(Components(path));
    JoinNonempty(Components(path));
  }

  lemma {:induction false} ParentExistsIs(t: Table, name: string)
    requires WellFormed(t) && Normal(name) && name != ""
    ensures Components(name) != []
    ensures ParentExists(t, name) <==> ParentIsDir(Abs(t), Components(name))
  {
    ParentDropsLast(name);
    var parent := ParentPath(name);
    NormalRoundTrip(parent);
    FindIs(t, parent);
    NormalRoundTrip(name);
  }

  lemma {:induction false} HasChildrenIs(t: Table, name: string)
    requires WellFormed(t) && Normal(name) && name != ""
    ensures HasChildren(t, name) <==> Occupied(Abs(t), Components(name))
  {
    var p := Components(name);
    if HasChildren(t, name) {
      var k :| 0 <= k < |t| && Inside(t[k].name, name);
      assert NodeOk(t[k]);
      InsideIsProperPrefix(t[k].name, name);
      AbsAt(t, k);
    }
    if Occupied(Abs(t), p) {
      var q :| q in Abs(t) && p < q;
      AbsKeys(t, q);
      var k :| 0 <= k < |t| && KeyOf(t[k]) == q;
      assert NodeOk(t[k]);
      InsideIsProperPrefix(t[k].name, name);
    }
  }

  lemma {:induction false} StoredFacts(name: string, data: seq<byte>, kind: word, slot: nat)
    requires |data| <= MAX_SIZE
    requires Normal(name) && name != "" && |name| < PATH_MAX && (kind == DIR ==> data == [])
    ensures var n := Stored(name, data, kind, slot);
            n.name == name && NodeOk(n) && EntryOf(n) == Entry(kind, data)
  {
  }

  /** Pushing a fresh node is adding its key. */
  lemma {:induction false} PushRefines(t: Table, name: string, data: seq<byte>, kind: word)
    requires WellFormed(t) && Normal(name) && name != "" && |name| < PATH_MAX
    requires |t| < MAX_ENTRIES && Find(t, name) == |t|
    requires |data| <= MAX_SIZE && (kind == DIR ==> data == [])
    ensures var t' := t + [Stored(name, data, kind, |t|)];
            WellFormed(t') && Abs(t') == Abs(t)[Components(name) := Entry(kind, data)]
  {
    var n := Stored(name, data, kind, |t|);
    StoredFacts(name, data, kind, |t|);
    PushWellFormed(t, n);
    AbsPush(t, n);
  }

  // ---------- Each operation refines its map operation ----------

  ghost predicate Refines(o: Outcome, mo: MapOutcome) {
    o.ok == mo.ok && WellFormed(o.table) && Abs(o.table) == mo.files
  }

  lemma {:induction false} PushedDirIsStored(t: Table, name: string)
    requires |t| < MAX_ENTRIES && |name| < PATH_MAX
    ensures PushNode(t, name, DIR) == Outcome(true, t + [Stored(name, [], DIR, |t|)])
  {
    assert Splice(Zeros(), 0, []) == Zeros();
  }

  lemma {:induction false} MkdirRefines(t: Table, path: string)
    requires TreeTable(t)
    ensures Refines(Mkdir(t, path), MkdirMap(Abs(t), path))
  {
    hide Stored, Abs, NodeOk, IsTree, Join, Components, ParentExists;
    NameFacts(path);
    if Nameable(path) {
      var name := NormalName(path);
      FindIs(t, name);
      ParentExistsIs(t, name);
      AbsSize(t);
      if Find(t, name) == |t| && |t| < MAX_ENTRIES {
        PushedDirIsStored(t, name);
        PushRefines(t, name, [], DIR);
      }
    }
  }

  lemma {:induction false} WriteRefines(t: Table, path: string, data: seq<byte>, kind: word)
    requires TreeTable(t)
    ensures Refines(WriteFile(t, path, data, kind), WriteMap(Abs(t), path, data, kind))
  {
    hide Stored, Abs, NodeOk, IsTree, Join, Components, ParentExists;
    NameFacts(path);
    if Nameable(path) && kind != DIR && |data| <= MAX_SIZE {
      var name := NormalName(path);
      var i := Find(t, name);
      FindIs(t, name);
      ParentExistsIs(t, name);
      AbsSize(t);
      if i < |t| {
        StoredFacts(name, data, kind, i);
        AbsUpdate(t, i, Stored(name, data, kind, i));
      } else if |t| < MAX_ENTRIES {
        PushRefines(t, name, data, kind);
      }
    }
  }

  /** The node fs_append_file leaves behind. */
  lemma {:induction false} AppendedFacts(n: Node, data: seq<byte>, slot: nat)
    requires NodeOk(n) && n.kind == TEXT && n.size + |data| <= MAX_SIZE
    ensures var n' := n.(data := Splice(n.data, n.size, data), size := n.size + |data|,
                         view := View(slot, n.size + |data|, TEXT));
            NodeOk(n') && EntryOf(n') == Entry(TEXT, Contents(n) + data)
  {
  }

  lemma {:induction false} AppendRefines(t: Table, path: string, data: seq<byte>)
    requires TreeTable(t)
    ensures Refines(AppendFile(t, path, data), AppendMap(Abs(t), path, data))
  {
    hide WriteFile, Abs, NodeOk, IsTree, Join, Components, Splice;
    NameFacts(path);
    if Nameable(path) {
      var name := NormalName(path);
      var i := Find(t, name);
      FindIs(t, name);
      if i == |t| {
        NormalizeIdempotent(path);
        WriteRefines(t, name, data, TEXT);
      } else if t[i].kind == TEXT && t[i].size + |data| <= MAX_SIZE {
        AppendedFacts(t[i], data, i);
        AbsUpdate(t, i, AppendFile(t, path, data).table[i]);
      }
    }
  }

  lemma {:induction false} RemoveRefines(t: Table, path: string)
    requires TreeTable(t)
    ensures Refines(Remove(t, path), RemoveMap(Abs(t), path))
  {
    NameFacts(path);
    if Nameable(path) {
      var name := NormalName(path);
      var i := Find(t, name);
      FindIs(t, name);
      HasChildrenIs(t, name);
      if i < |t| {
        if Occupied(Abs(t), Components(path)) {
          OnlyDirsAreOccupied(Abs(t), Components(path));
        }
        AbsRemove(t, i);
      }
    }
  }

  /** The test on children matters for directories only: below a file there is nothing. */
  lemma {:induction false} OnlyDirsAreOccupied(m: FsMap, p: Key)
    requires IsTree(m) && p in m && p != [] && Occupied(m, p)
    ensures IsDir(m, p)
  {
    var q :| q in m && p < q;
    assert Rooted(m, q);
    assert q[..|p|] == p;
  }

  lemma {:induction false} CopyRefines(t: Table, source: string, destination: string)
    requires TreeTable(t)
    ensures Refines(Copy(t, source, destination), CopyMap(Abs(t), source, destination))
  {
    hide WriteFile, Abs, IsTree, Join, Components;
    NameFacts(source);
    NameFacts(destination);
    var s, d := NormalName(source), NormalName(destination);
    FindIs(t, s);
    FindIs(t, d);
    var i := Find(t, s);
    if i < |t| {
      assert NodeOk(t[i]);
      NormalizeIdempotent(destination);
      NameFacts(d);
      WriteRefines(t, d, Contents(t[i]), t[i].kind);
    }
  }
}
