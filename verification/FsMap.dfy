/** What the file system promises, without slots or strings: a map from paths to contents and
    the effect of each operation on it. */
module FsMap {
  import opened Basics
  import opened Paths
  import opened PathTests
  import opened FsTable

  datatype Entry = Entry(kind: word, bytes: seq<byte>)

  type FsMap = map<Key, Entry>

  datatype MapOutcome = MapOutcome(ok: bool, files: FsMap)

  predicate IsDir(m: FsMap, p: Key) {
    p in m && m[p].kind == DIR
  }

  /** What one slot can hold: a storable name, and contents only in files. */
  predicate Storable(p: Key, e: Entry) {
    && p != [] && IsKey(p) && |Join(p)| < PATH_MAX
    && |e.bytes| <= MAX_SIZE
    && (e.kind == DIR ==> e.bytes == [])
  }

  /** Everything above p is a directory. */
  ghost predicate Rooted(m: FsMap, p: Key) {
    forall n :: 0 < n < |p| ==> IsDir(m, p[..n])
  }

  /** The map is a directory tree. */
  ghost predicate IsTree(m: FsMap) {
    && |m| <= MAX_ENTRIES
    && (forall p <- m :: Storable(p, m[p]))
    && (forall p <- m :: Rooted(m, p))
  }

  /** The parent directory is there (the root always is). */
  predicate ParentIsDir(m: FsMap, p: Key)
    requires p != []
  {
    |p| == 1 || IsDir(m, p[..|p| - 1])
  }

  /** The key a path names, if an operation accepts it. */
  predicate Names(path: string, p: Key) {
    p == Components(path) && p != [] && |Collapsed(path)| < PATH_MAX
  }

  /** Room for one more node whose parent is a directory. */
  predicate CanCreate(m: FsMap, p: Key)
    requires p != []
  {
    p !in m && ParentIsDir(m, p) && |m| < MAX_ENTRIES
  }

  function MkdirMap(m: FsMap, path: string): MapOutcome {
    var p := Components(path);
    if !Names(path, p) then MapOutcome(false, m)
    else if p in m then MapOutcome(IsDir(m, p), m)
    else if CanCreate(m, p) then MapOutcome(true, m[p := Entry(DIR, [])])
    else MapOutcome(false, m)
  }

  function WriteMap(m: FsMap, path: string, data: seq<byte>, kind: word): MapOutcome {
    var p := Components(path);
    if Names(path, p) && kind != DIR && |data| <= MAX_SIZE && !IsDir(m, p) && (p in m || CanCreate(m, p))
    then MapOutcome(true, m[p := Entry(kind, data)])
    else MapOutcome(false, m)
  }

  function AppendMap(m: FsMap, path: string, data: seq<byte>): MapOutcome {
    var p := Components(path);
    if !Names(path, p) then MapOutcome(false, m)
    else if p !in m then WriteMap(m, path, data, TEXT)
    else if m[p].kind == TEXT && |m[p].bytes| + |data| <= MAX_SIZE
    then MapOutcome(true, m[p := Entry(TEXT, m[p].bytes + data)])
    else MapOutcome(false, m)
  }

  /** Something lies below p. */
  ghost predicate Occupied(m: FsMap, p: Key) {
    exists q <- m :: p < q
  }

  ghost function RemoveMap(m: FsMap, path: string): MapOutcome {
    var p := Components(path);
    if Names(path, p) && p in m && !Occupied(m, p) then MapOutcome(true, m - {p})
    else MapOutcome(false, m)
  }

  function CopyMap(m: FsMap, source: string, destination: string): MapOutcome {
    var s, d := Components(source), Components(destination);
    if Names(source, s) && s in m && !IsDir(m, s) && d !in m
    then WriteMap(m, destination, m[s].bytes, m[s].kind)
    else MapOutcome(false, m)
  }

  /** Where key k ends up when s is renamed to d. */
  function Moved(k: Key, s: Key, d: Key): Key {
    if s <= k then Rekey(k, s, d) else k
  }

  function MovedKeys(m: FsMap, s: Key, d: Key): set<Key> {
    set k <- m :: Moved(k, s, d)
  }

  /** The map with everything at and below s renamed to lie at and below d. */
  ghost function MovedMap(m: FsMap, s: Key, d: Key): FsMap {
    map q <- MovedKeys(m, s, d) :: m[var k :| k in m && Moved(k, s, d) == q; k]
  }

  ghost predicate CanMove(m: FsMap, s: Key, d: Key) {
    && s != [] && d != [] && s in m && d !in m && ParentIsDir(m, d)
    && !(s <= d)
    && forall k <- m :: s <= k ==> |Join(Rekey(k, s, d))| < PATH_MAX
  }

  ghost function MoveMap(m: FsMap, source: string, destination: string): MapOutcome {
    var s, d := Components(source), Components(destination);
    if Names(source, s) && Names(destination, d) && CanMove(m, s, d)
    then MapOutcome(true, MovedMap(m, s, d))
    else MapOutcome(false, m)
  }

  ghost function StepMap(m: FsMap, op: Op): MapOutcome {
    match op
    case MkdirOp(p) => MkdirMap(m, p)
    case WriteOp(p, data, kind) => WriteMap(m, p, data, kind)
    case AppendOp(p, data) => AppendMap(m, p, data)
    case RemoveOp(p) => RemoveMap(m, p)
    case CopyOp(s, d) => CopyMap(m, s, d)
    case MoveOp(s, d) => MoveMap(m, s, d)
  }

  // ---------- Each operation keeps the tree ----------

  /** A child of a directory has directories all the way up. */
  lemma {:induction false} ChildIsRooted(m: FsMap, p: Key)
    requires IsTree(m) && p != [] && ParentIsDir(m, p)
    ensures Rooted(m, p)
  {
    forall n | 0 < n < |p|
      ensures IsDir(m, p[..n])
    {
      var up := p[..|p| - 1];
      assert Rooted(m, up);
      assert p[..n] == up[..n] && up[..|up|] == up;
      assert n < |up| ==> IsDir(m, up[..n]);
    }
  }

  lemma {:induction false} StillRooted(m: FsMap, m': FsMap, p: Key)
    requires Rooted(m, p)
    requires forall n :: 0 < n < |p| && IsDir(m, p[..n]) ==> IsDir(m', p[..n])
    ensures Rooted(m', p)
  {
  }

  /** Storing at a fresh or existing non-directory path keeps the tree. */
  lemma {:induction false} StoreKeepsTree(m: FsMap, p: Key, e: Entry)
    requires IsTree(m) && Storable(p, e)
    requires !IsDir(m, p) && (p in m || CanCreate(m, p))
    ensures IsTree(m[p := e])
  {
    var m' := m[p := e];
    assert m'.Keys == m.Keys + {p};
    if p !in m {
      ChildIsRooted(m, p);
    }
    forall q <- m'
      ensures Rooted(m', q)
    {
      StillRooted(m, m', q);
    }
  }

  lemma {:induction false} RemoveKeepsTree(m: FsMap, p: Key)
    requires IsTree(m) && p in m && !Occupied(m, p)
    ensures IsTree(m - {p})
  {
  }

  // ---------- Moving ----------

  /** Nothing lies below a path that is not there. */
  lemma {:induction false} DestinationIsFree(m: FsMap, d: Key, k: Key)
    requires IsTree(m) && d != [] && d !in m && k in m
    ensures !(d <= k)
  {
    if |d| < |k| {
      assert Rooted(m, k);
      assert IsDir(m, k[..|d|]);
      assert k[..|d|] != d;
    } else {
      assert d <= k ==> k == d;
    }
  }

  /** Renaming s to d never makes two keys meet, and this is what ends up where. */
  lemma {:induction false} MovedInjective(m: FsMap, s: Key, d: Key, a: Key, b: Key)
    requires IsTree(m) && CanMove(m, s, d) && a in m && b in m
    ensures Moved(a, s, d) == Moved(b, s, d) ==> a == b
  {
    DestinationIsFree(m, d, a);
    DestinationIsFree(m, d, b);
    if Moved(a, s, d) == Moved(b, s, d) {
      if s <= a && s <= b {
        var r := Moved(a, s, d);
        assert a[|s|..] == r[|d|..] == b[|s|..];
        assert a == s + a[|s|..] && b == s + b[|s|..];
      }
    }
  }

  lemma {:induction false} MovedMapAt(m: FsMap, s: Key, d: Key, k: Key)
    requires IsTree(m) && CanMove(m, s, d) && k in m
    ensures Moved(k, s, d) in MovedMap(m, s, d)
    ensures MovedMap(m, s, d)[Moved(k, s, d)] == m[k]
  {
    forall j | j in m && Moved(j, s, d) == Moved(k, s, d)
      ensures j == k
    {
      MovedInjective(m, s, d, j, k);
    }
  }

  lemma {:induction false} MovedMapIs(m: FsMap, s: Key, d: Key)
    requires IsTree(m) && CanMove(m, s, d)
    ensures MovedMap(m, s, d).Keys == MovedKeys(m, s, d)
    ensures forall k <- m :: Moved(k, s, d) in MovedMap(m, s, d) && MovedMap(m, s, d)[Moved(k, s, d)] == m[k]
  {
    forall k <- m
      ensures Moved(k, s, d) in MovedMap(m, s, d) && MovedMap(m, s, d)[Moved(k, s, d)] == m[k]
    {
      MovedMapAt(m, s, d, k);
    }
  }

  /** At and below the destination the moved map shows what lay at and below the source. */
  lemma {:induction false} MovedFrom(m: FsMap, s: Key, d: Key, q: Key)
    requires IsTree(m) && CanMove(m, s, d) && d <= q
    ensures var k := s + q[|d|..];
            && (q in MovedMap(m, s, d) <==> k in m)
            && (k in m ==> MovedMap(m, s, d)[q] == m[k])
  {
    var k := s + q[|d|..];
    assert s <= k && k[|s|..] == q[|d|..];
    assert Moved(k, s, d) == q;
    if k in m {
      MovedMapAt(m, s, d, k);
    }
    if q in MovedMap(m, s, d) {
      var j :| j in m && Moved(j, s, d) == q;
      DestinationIsFree(m, d, j);
      assert j[|s|..] == q[|d|..];
      assert j == s + j[|s|..];
    }
  }

  /** Elsewhere it shows what it showed, without the source. */
  lemma {:induction false} StaysPut(m: FsMap, s: Key, d: Key, q: Key)
    requires IsTree(m) && CanMove(m, s, d) && !(d <= q)
    ensures q in MovedMap(m, s, d) <==> q in m && !(s <= q)
    ensures q in m && !(s <= q) ==> MovedMap(m, s, d)[q] == m[q]
  {
  }

  lemma {:induction false} ImageSize<A, B>(ks: set<A>, f: A -> B, image: set<B>)
    requires image == set k <- ks :: f(k)
    requires forall a, b :: a in ks && b in ks && f(a) == f(b) ==> a == b
    ensures |image| == |ks|
    decreases ks
  {
    if ks != {} {
      var k :| k in ks;
      ImageSize(ks - {k}, f, image - {f(k)});
    }
  }

  lemma {:induction false} DirMoves(m: FsMap, s: Key, d: Key, k: Key)
    requires IsTree(m) && CanMove(m, s, d) && IsDir(m, k)
    ensures IsDir(MovedMap(m, s, d), Moved(k, s, d))
  {
    hide MovedMap, Join;
    MovedMapAt(m, s, d, k);
  }

  /** Above the destination nothing changes, because the destination does not lie under s. */
  lemma {:induction false} AboveDestination(m: FsMap, s: Key, d: Key, n: nat)
    requires IsTree(m) && CanMove(m, s, d) && 0 < n < |d|
    ensures IsDir(MovedMap(m, s, d), d[..n])
  {
    hide MovedMap, Join;
    ChildIsRooted(m, d);
    assert IsDir(m, d[..n]);
    assert s <= d[..n] ==> s <= d;
    DirMoves(m, s, d, d[..n]);
  }

  /** Ancestors move with their descendants, or stay with them. */
  lemma {:induction false} AncestorsMove(m: FsMap, s: Key, d: Key, k: Key, n: nat)
    requires IsTree(m) && CanMove(m, s, d) && k in m && 0 < n < |Moved(k, s, d)|
    ensures IsDir(MovedMap(m, s, d), Moved(k, s, d)[..n])
  {
    hide MovedMap, Join;
    assert Rooted(m, k);
    var k' := Moved(k, s, d);
    if s <= k && n < |d| {
      AboveDestination(m, s, d, n);
      assert k'[..n] == d[..n];
    } else if s <= k {
      var j := k[..n - |d| + |s|];
      assert IsDir(m, j);
      assert s <= j && Moved(j, s, d) == k'[..n];
      DirMoves(m, s, d, j);
    } else {
      var j := k[..n];
      assert IsDir(m, j);
      assert !(s <= j);
      DirMoves(m, s, d, j);
    }
  }

  lemma {:induction false} MovedSize(m: FsMap, s: Key, d: Key)
    requires IsTree(m) && CanMove(m, s, d)
    ensures |MovedMap(m, s, d)| == |m|
  {
    hide MovedMap, IsTree, CanMove;
    MovedMapIs(m, s, d);
    forall a, b | a in m.Keys && b in m.Keys && Moved(a, s, d) == Moved(b, s, d)
      ensures a == b
    {
      MovedInjective(m, s, d, a, b);
    }
    ImageSize(m.Keys, k => Moved(k, s, d), MovedMap(m, s, d).Keys);
  }

  lemma {:induction false} MoveKeepsTree(m: FsMap, s: Key, d: Key)
    requires IsTree(m) && CanMove(m, s, d) && IsKey(d)
    ensures IsTree(MovedMap(m, s, d)) && |MovedMap(m, s, d)| == |m|
  {
    hide MovedMap, Join;
    var m' := MovedMap(m, s, d);
    MovedMapIs(m, s, d);
    MovedSize(m, s, d);
    forall q <- m'
      ensures Storable(q, m'[q]) && Rooted(m', q)
    {
      var k :| k in m && Moved(k, s, d) == q;
      assert Storable(k, m[k]);
      forall n | 0 < n < |q|
        ensures IsDir(m', q[..n])
      {
        AncestorsMove(m, s, d, k, n);
      }
    }
  }

  /** Every operation turns a directory tree into a directory tree, and changes nothing when it
      reports failure. */
  lemma {:induction false} StepKeepsTree(m: FsMap, op: Op)
    requires IsTree(m)
    ensures IsTree(StepMap(m, op).files)
    ensures !StepMap(m, op).ok ==> StepMap(m, op).files == m
  {
    var o := StepMap(m, op);
    match op
    case MkdirOp(path) =>
      NormalizeIdempotent(path);
      if o.files != m {
        StoreKeepsTree(m, Components(path), Entry(DIR, []));
      }
    case WriteOp(path, data, kind) =>
      WriteKeepsTree(m, path, data, kind);
    case AppendOp(path, data) =>
      NormalizeIdempotent(path);
      var p := Components(path);
      if p !in m {
        WriteKeepsTree(m, path, data, TEXT);
      } else if o.ok {
        assert Storable(p, m[p]);
        StoreKeepsTree(m, p, Entry(TEXT, m[p].bytes + data));
      }
    case RemoveOp(path) =>
      if o.ok {
        RemoveKeepsTree(m, Components(path));
      }
    case CopyOp(source, destination) =>
      if Components(source) in m {
        assert Storable(Components(source), m[Components(source)]);
        WriteKeepsTree(m, destination, m[Components(source)].bytes, m[Components(source)].kind);
      }
    case MoveOp(source, destination) =>
      if o.ok {
        MoveKeepsTree(m, Components(source), Components(destination));
      }
  }

  lemma {:induction false} WriteKeepsTree(m: FsMap, path: string, data: seq<byte>, kind: word)
    requires IsTree(m)
    ensures IsTree(WriteMap(m, path, data, kind).files)
  {
    NormalizeIdempotent(path);
    if WriteMap(m, path, data, kind).ok {
      StoreKeepsTree(m, Components(path), Entry(kind, data));
    }
  }
}
