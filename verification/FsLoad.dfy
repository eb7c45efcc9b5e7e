/** Filling the table at boot: fs_ensure_dir_chain, fs_load_file and the loading loop of fs_init
    (kernel/fs.c). */
module FsLoad {
  import opened Basics
  import opened Paths
  import opened PathTests
  import opened FsTable
  import opened FsMap
  import opened FsRefine

  /** strchr(name + start, '/'), as an index; |name| when there is none. */
  function NextSlash(name: string, start: nat): (k: nat)
    requires start <= |name|
    ensures start <= k <= |name|
    ensures k < |name| ==> name[k] == '/'
    ensures forall j :: start <= j < k ==> name[j] != '/'
    decreases |name| - start
  {
    if start == |name| || name[start] == '/' then start else NextSlash(name, start + 1)
  }

  /** fs_ensure_dir_chain, from the position `start` on. */
  function EnsureDirs(t: Table, name: string, start: nat): Outcome
    requires start <= |name|
    decreases |name| - start
  {
    var slash := NextSlash(name, start);
    if start == |name| || slash == |name| then Outcome(true, t)
    else if slash >= PATH_MAX then Outcome(false, t)
    else
      var i := Find(t, name[..slash]);
      if i < |t| then
        if t[i].kind == DIR then EnsureDirs(t, name, slash + 1) else Outcome(false, t)
      else
        var pushed := PushNode(t, name[..slash], DIR);
        if pushed.ok then EnsureDirs(pushed.table, name, slash + 1) else pushed
  }

  /** What the loader reads out of one image entry. */
  datatype Item = Item(path: string, content: seq<byte>, kind: word)

  /** fs_load_file */
  function LoadFile(t: Table, f: Item): Outcome {
    var name := NormalName(f.path);
    if !Nameable(f.path) || f.kind == DIR || |f.content| > MAX_SIZE then Outcome(false, t)
    else
      var chain := EnsureDirs(t, name, 0);
      if !chain.ok then chain
      else if |chain.table| >= MAX_ENTRIES || |name| + 1 > PATH_MAX then Outcome(false, chain.table)
      else Outcome(true, chain.table + [Stored(name, f.content, f.kind, |chain.table|)])
  }

  /** How many items were loaded before one failed, and the table then. */
  datatype Loaded = Loaded(count: nat, table: Table)

  /** The loop of fs_init. */
  function LoadAll(items: seq<Item>): Loaded {
    if items == [] then Loaded(0, [])
    else
      var before := LoadAll(items[..|items| - 1]);
      if before.count < |items| - 1 then before
      else
        var o := LoadFile(before.table, items[|items| - 1]);
        Loaded(if o.ok then |items| else |items| - 1, o.table)
  }

  // ---------- The chain of directories above a path ----------

  function Above(p: Key): set<Key> {
    set n | 0 < n < |p| :: p[..n]
  }

  /** The map with directories at the given paths, where there was nothing. */
  function WithDirs(m: FsMap, ks: set<Key>): FsMap {
    m + map k <- ks - m.Keys :: Entry(DIR, [])
  }

  /** Where in the joined text the component after the first n begins. */
  function Offset(p: Key, n: nat): nat
    requires n <= |p|
  {
    if n == 0 then 0 else |Join(p[..n])| + 1
  }

  /** The chain's positions are the ends of the proper prefixes. */
  lemma {:induction false} NextSlashIs(p: Key, n: nat)
    requires IsKey(p) && n < |p|
    ensures Offset(p, n) < |Join(p)|
    ensures NextSlash(Join(p), Offset(p, n)) == |Join(p[..n + 1])| <= |Join(p)|
    ensures Join(p)[..|Join(p[..n + 1])|] == Join(p[..n + 1])
    ensures n + 1 < |p| ==> |Join(p[..n + 1])| < |Join(p)|
  {
    var text, start := Join(p), Offset(p, n);
    var c := p[n];
    assert IsComponent(c);
    assert p[..n + 1] == p[..n] + [c];
    if n > 0 {
      JoinConcat(p[..n], [c]);
    } else {
      assert p[..1] == [c];
    }
    assert Join(p[..n + 1])[start..] == c;
    if n + 1 < |p| {
      JoinSplit(p, n + 1);
    } else {
      assert p[..n + 1] == p;
    }
    assert text[start..start + |c|] == c;
    forall j | start <= j < start + |c|
      ensures text[j] != '/'
    {
      assert text[j] == c[j - start] && c[j - start] in c;
    }
    assert start + |c| == |Join(p[..n + 1])|;
    assert n + 1 < |p| ==> text[start + |c|] == '/';
  }

  lemma {:induction false} WithDirsStep(m: FsMap, p: Key, n: nat)
    requires 0 < n < |p| && (p[..n] in m ==> IsDir(m, p[..n]))
    ensures var m' := if p[..n] in m then m else m[p[..n] := Entry(DIR, [])];
            && WithDirs(m', AboveFrom(p, n + 1)) == WithDirs(m, AboveFrom(p, n))
  {
    assert AboveFrom(p, n) == AboveFrom(p, n + 1) + {p[..n]};
  }

  /** The proper prefixes of p with at least n components. */
  function AboveFrom(p: Key, n: nat): set<Key> {
    set j | n <= j < |p| && 0 < j :: p[..j]
  }

  /** No proper prefix of p with at least n components is a file. */
  ghost predicate NoFileFrom(m: FsMap, p: Key, n: nat) {
    forall j :: n <= j < |p| && 0 < j && p[..j] in m ==> IsDir(m, p[..j])
  }

  /** Pushing a missing directory below what is already there. */
  lemma {:induction false} PushDir(t: Table, p: Key, n: nat)
    requires TreeTable(t) && IsKey(p) && 0 < n <= |p| && |Join(p[..n])| < PATH_MAX && |t| < MAX_ENTRIES
    requires p[..n] !in Abs(t) && (n > 1 ==> IsDir(Abs(t), p[..n - 1]))
    ensures var o := PushNode(t, Join(p[..n]), DIR);
            && o.ok && TreeTable(o.table)
            && Abs(o.table) == Abs(t)[p[..n] := Entry(DIR, [])]
  {
    var k := p[..n];
    var name := Join(k);
    NormalOfKey(k);
    JoinNonempty(k);
    FindIs(t, name);
    PushedDirIsStored(t, name);
    PushRefines(t, name, [], DIR);
    AbsSize(t);
    assert k[..n - 1] == p[..n - 1];
    hide Components, Join, Abs;
    StoreKeepsTree(Abs(t), k, Entry(DIR, []));
  }

  /** Where the chain stands: the first n components are directories. */
  ghost predicate ChainAt(t: Table, p: Key, n: nat) {
    n < |p| && IsKey(p) && |Join(p)| < PATH_MAX && TreeTable(t) && (n > 0 ==> IsDir(Abs(t), p[..n]))
  }

  /** One round of the loop in fs_ensure_dir_chain. */
  lemma {:induction false} EnsureRound(t: Table, p: Key, n: nat)
    requires ChainAt(t, p, n)
    ensures Offset(p, n) <= |Join(p)|
    ensures var o, k := EnsureDirs(t, Join(p), Offset(p, n)), p[..n + 1];
            if n + 1 == |p| then o == Outcome(true, t)
            else if k in Abs(t) then
              if IsDir(Abs(t), k) then Offset(p, n + 1) <= |Join(p)| && o == EnsureDirs(t, Join(p), Offset(p, n + 1))
              else o == Outcome(false, t)
            else
              var pushed := PushNode(t, Join(k), DIR);
              if |t| < MAX_ENTRIES then
                Offset(p, n + 1) <= |Join(p)| && pushed.ok && o == EnsureDirs(pushed.table, Join(p), Offset(p, n + 1))
              else o == Outcome(false, t)
  {
    hide Components, Join, Abs, NodeOk, IsTree, Find, WellFormed, Normal;
    NextSlashIs(p, n);
    var k := p[..n + 1];
    NormalOfKey(k);
    FindIs(t, Join(k));
    AbsSize(t);
    if n + 1 == |p| {
      assert p[..n + 1] == p;
    }
  }

  lemma {:induction false} SubsetSize<A>(a: set<A>, b: set<A>)
    requires a <= b
    ensures |a| <= |b|
    ensures a != b ==> |a| < |b|
  {
    assert b == a + (b - a);
  }

  lemma {:induction false} WithDirsIsBigger(m: FsMap, ks: set<Key>, k: Key)
    requires k in ks && k !in m
    ensures |WithDirs(m, ks)| > |m|
  {
  }

  /** What the chain has done when it stands after n components. */
  ghost predicate ChainResult(m: FsMap, o: Outcome, p: Key, n: nat) {
    && TreeTable(o.table)
    && (o.ok ==> Abs(o.table) == WithDirs(m, AboveFrom(p, n)) && NoFileFrom(m, p, n))
    && (!o.ok && NoFileFrom(m, p, n) ==> |WithDirs(m, AboveFrom(p, n))| > MAX_ENTRIES)
    && OnlyDirsAdded(m, Abs(o.table), p)
  }

  /** m' has what m has and otherwise directories above p. */
  ghost predicate OnlyDirsAdded(m: FsMap, m': FsMap, p: Key) {
    && (forall q <- m :: q in m' && m'[q] == m[q])
    && (forall q <- m' :: q in m || (q in Above(p) && m'[q] == Entry(DIR, [])))
  }

  lemma {:induction false} NoFileStep(m: FsMap, m': FsMap, p: Key, n: nat)
    requires 0 < n < |p|
    requires if p[..n] in m then IsDir(m, p[..n]) && m' == m else m' == m[p[..n] := Entry(DIR, [])]
    ensures NoFileFrom(m, p, n) <==> NoFileFrom(m', p, n + 1)
  {
  }

  lemma {:induction false} OnlyDirsStep(m: FsMap, m': FsMap, m'': FsMap, p: Key, n: nat)
    requires 0 < n < |p| && OnlyDirsAdded(m', m'', p)
    requires if p[..n] in m then m' == m else m' == m[p[..n] := Entry(DIR, [])]
    ensures OnlyDirsAdded(m, m'', p)
  {
  }

  /** The result after one more round, with or without a new directory. */
  lemma {:induction false} ChainResultStep(m: FsMap, m': FsMap, o: Outcome, p: Key, n: nat)
    requires 0 < n < |p| && ChainResult(m', o, p, n + 1)
    requires if p[..n] in m then IsDir(m, p[..n]) && m' == m else m' == m[p[..n] := Entry(DIR, [])]
    ensures ChainResult(m, o, p, n)
  {
    hide TreeTable, Abs, WithDirs, NoFileFrom, OnlyDirsAdded;
    WithDirsStep(m, p, n);
    NoFileStep(m, m', p, n);
    OnlyDirsStep(m, m', Abs(o.table), p, n);
  }

  /** On success every missing directory above p is there; the chain fails only at a file in the
      way or on a full table, and whatever happens the table stays a tree. */
  lemma {:induction false} EnsureRefines(t: Table, p: Key, n: nat)
    requires ChainAt(t, p, n)
    ensures Offset(p, n) <= |Join(p)|
    ensures ChainResult(Abs(t), EnsureDirs(t, Join(p), Offset(p, n)), p, n + 1)
    decreases |p| - n
  {
    hide EnsureDirs, Abs, WellFormed, IsTree, Join, ChainResult, Offset, PushNode, WithDirs;
    EnsureRound(t, p, n);
    var k, m, o := p[..n + 1], Abs(t), EnsureDirs(t, Join(p), Offset(p, n));
    AbsSize(t);
    if n + 1 == |p| {
      ChainDone(t, p, n);
    } else if k in m && IsDir(m, k) {
      EnsureRefines(t, p, n + 1);
      ChainResultStep(m, m, o, p, n + 1);
    } else if k !in m && |t| < MAX_ENTRIES {
      JoinPrefixShorter(p, n + 1);
      PushDir(t, p, n + 1);
      var t' := PushNode(t, Join(k), DIR).table;
      EnsureRefines(t', p, n + 1);
      ChainResultStep(m, Abs(t'), o, p, n + 1);
    } else {
      ChainStops(t, p, n);
    }
  }

  lemma {:induction false} JoinPrefixShorter(p: Key, n: nat)
    requires IsKey(p) && n <= |p|
    ensures |Join(p[..n])| <= |Join(p)|
  {
    if n == |p| {
      assert p[..n] == p;
    } else if n > 0 {
      JoinSplit(p, n);
    }
  }

  lemma {:induction false} ChainDone(t: Table, p: Key, n: nat)
    requires ChainAt(t, p, n) && n + 1 == |p|
    ensures ChainResult(Abs(t), Outcome(true, t), p, n + 1)
  {
  }

  lemma {:induction false} ChainStops(t: Table, p: Key, n: nat)
    requires ChainAt(t, p, n) && n + 1 < |p| && |Abs(t)| == |t|
    requires var k := p[..n + 1]; if k in Abs(t) then !IsDir(Abs(t), k) else |t| >= MAX_ENTRIES
    ensures ChainResult(Abs(t), Outcome(false, t), p, n + 1)
  {
    var k := p[..n + 1];
    assert k in AboveFrom(p, n + 1);
    if k !in Abs(t) {
      WithDirsIsBigger(Abs(t), AboveFrom(p, n + 1), k);
    }
  }

  // ---------- Loading one file ----------

  predicate Loadable(f: Item) {
    Names(f.path, Components(f.path)) && f.kind != DIR && |f.content| <= MAX_SIZE
  }

  lemma {:induction false} AboveIs(p: Key)
    ensures AboveFrom(p, 1) == Above(p)
  {
  }

  /** Adding the file once its directories are there. */
  lemma {:induction false} AddFile(t: Table, p: Key, f: Item)
    requires TreeTable(t) && Loadable(f) && p == Components(f.path) && p !in Abs(t) && ParentIsDir(Abs(t), p)
    ensures |t| < MAX_ENTRIES ==>
              var t' := t + [Stored(Join(p), f.content, f.kind, |t|)];
              TreeTable(t') && Abs(t') == Abs(t)[p := Entry(f.kind, f.content)]
  {
    NameFacts(f.path);
    FindIs(t, Join(p));
    if |t| < MAX_ENTRIES {
      PushRefines(t, Join(p), f.content, f.kind);
      AbsSize(t);
      hide Components, Join, Abs, NodeOk, Stored;
      StoreKeepsTree(Abs(t), p, Entry(f.kind, f.content));
    }
  }

  lemma {:induction false} ParentIsThere(m: FsMap, p: Key)
    requires p != [] && NoFileFrom(m, p, 1)
    ensures ParentIsDir(WithDirs(m, Above(p)), p)
  {
  }

  function ItemKey(f: Item): Key {
    Components(f.path)
  }

  /** The map after the next file. */
  ghost function Next(m: FsMap, f: Item): FsMap {
    WithDirs(m, Above(ItemKey(f)))[ItemKey(f) := Entry(f.kind, f.content)]
  }

  /** Loading a file into a tree: when it fails, and what the table holds then. The loader does not
      look whether the path is taken; if it is, a second slot gets the same name. */
  ghost predicate LoadResult(m: FsMap, o: Outcome, f: Item) {
    var p := ItemKey(f);
    && (o.ok <==> Loadable(f) && NoFileFrom(m, p, 1) && |WithDirs(m, Above(p))| < MAX_ENTRIES)
    && (TreeTable(o.table) <==> !o.ok || p !in m)
    && (o.ok && p !in m ==> Abs(o.table) == Next(m, f))
    && (!o.ok ==> OnlyDirsAdded(m, Abs(o.table), p))
  }

  lemma {:induction false} LoadFileRefines(t: Table, f: Item)
    requires TreeTable(t)
    ensures LoadResult(Abs(t), LoadFile(t, f), f)
  {
    hide TreeTable, Abs, Components, Join, EnsureDirs, OnlyDirsAdded, WithDirs, NoFileFrom, Stored;
    var p, m := Components(f.path), Abs(t);
    NameFacts(f.path);
    if Loadable(f) {
      assert ChainAt(t, p, 0);
      EnsureRefines(t, p, 0);
      AboveIs(p);
      var chain := EnsureDirs(t, Join(p), 0);
      var t' := chain.table;
      TableSize(t');
      if chain.ok {
        ChainAddsDirs(m, p);
        if p in m {
          WithDirsKeeps(m, Above(p), p);
          TakenTwice(t', p, f);
        } else {
          ParentIsThere(m, p);
          NotAboveItself(m, p);
          AddFile(t', p, f);
        }
      }
    } else {
      OnlyDirsRefl(m, p);
    }
  }

  lemma {:induction false} WithDirsKeeps(m: FsMap, ks: set<Key>, p: Key)
    requires p in m
    ensures p in WithDirs(m, ks)
  {
  }

  /** A second slot with a name that is taken. */
  lemma {:induction false} TakenTwice(t: Table, p: Key, f: Item)
    requires TreeTable(t) && Loadable(f) && p == Components(f.path) && p in Abs(t)
    ensures !TreeTable(t + [Stored(Join(p), f.content, f.kind, |t|)])
  {
    hide Abs, Components, Join, IsTree, NodeOk;
    NormalOfKey(p);
    FindIs(t, Join(p));
    var i, t' := Find(t, Join(p)), t + [Stored(Join(p), f.content, f.kind, |t|)];
    assert t'[i].name == t'[|t|].name;
  }

  lemma {:induction false} TableSize(t: Table)
    requires TreeTable(t)
    ensures |Abs(t)| == |t| <= MAX_ENTRIES
  {
    AbsSize(t);
  }

  lemma {:induction false} NotAboveItself(m: FsMap, p: Key)
    requires p !in m
    ensures p !in WithDirs(m, Above(p))
  {
  }

  lemma {:induction false} ChainAddsDirs(m: FsMap, p: Key)
    ensures OnlyDirsAdded(m, WithDirs(m, Above(p)), p)
  {
  }

  lemma {:induction false} OnlyDirsRefl(m: FsMap, p: Key)
    ensures OnlyDirsAdded(m, m, p)
  {
  }

  // ---------- Loading the whole list ----------

  /** No path is, or lies below, another one. */
  ghost predicate PrefixFree(items: seq<Item>) {
    forall i, j :: 0 <= i < |items| && 0 <= j < |items| && i != j ==> !(ItemKey(items[i]) <= ItemKey(items[j]))
  }

  function FileKeys(items: seq<Item>): set<Key> {
    set i | 0 <= i < |items| :: ItemKey(items[i])
  }

  /** All proper ancestors of the files. */
  function DirKeys(items: seq<Item>): set<Key> {
    set i, n | 0 <= i < |items| && 0 < n < |ItemKey(items[i])| :: ItemKey(items[i])[..n]
  }

  /** The map holds exactly the files, with their bytes and types, and exactly their ancestors as
      directories. */
  ghost predicate IsExactly(m: FsMap, items: seq<Item>) {
    && m.Keys == FileKeys(items) + DirKeys(items)
    && (forall i :: 0 <= i < |items| ==> m[ItemKey(items[i])] == Entry(items[i].kind, items[i].content))
    && (forall d <- DirKeys(items) :: m[d] == Entry(DIR, []))
  }

  /** The files of the map are exactly these; directories may be any. */
  ghost predicate FilesAreExactly(m: FsMap, items: seq<Item>) {
    && (forall i :: 0 <= i < |items| ==>
                      ItemKey(items[i]) in m && m[ItemKey(items[i])] == Entry(items[i].kind, items[i].content))
    && (forall q <- m :: IsDir(m, q) || q in FileKeys(items))
  }

  lemma {:induction false} KeysSnoc(items: seq<Item>, f: Item)
    ensures FileKeys(items + [f]) == FileKeys(items) + {ItemKey(f)}
    ensures DirKeys(items + [f]) == DirKeys(items) + Above(ItemKey(f))
  {
    hide ItemKey;
    var all := items + [f];
    assert all[|items|] == f && forall i :: 0 <= i < |items| ==> all[i] == items[i];
    forall k | k in FileKeys(items) + {ItemKey(f)}
      ensures k in FileKeys(all)
    {
    }
    forall d | d in DirKeys(items) + Above(ItemKey(f))
      ensures d in DirKeys(all)
    {
      if d in DirKeys(items) {
        var i, n :| 0 <= i < |items| && 0 < n < |ItemKey(items[i])| && d == ItemKey(items[i])[..n];
        assert ItemKey(all[i])[..n] == d;
      } else {
        var n :| 0 < n < |ItemKey(f)| && d == ItemKey(f)[..n];
        assert ItemKey(all[|items|])[..n] == d;
      }
    }
  }

  /** With a prefix-free list, the next path is free and no file stands above it. */
  lemma {:induction false} NextIsFree(items: seq<Item>, f: Item)
    requires PrefixFree(items + [f])
    ensures ItemKey(f) !in FileKeys(items) && ItemKey(f) !in DirKeys(items)
    ensures forall d <- Above(ItemKey(f)) :: d !in FileKeys(items)
  {
    hide ItemKey;
    var all, p := items + [f], ItemKey(f);
    assert all[|items|] == f && forall i :: 0 <= i < |items| ==> all[i] == items[i];
    forall i, n | 0 <= i < |items| && 0 < n < |ItemKey(items[i])|
      ensures p != ItemKey(items[i])[..n]
    {
      assert !(ItemKey(all[|items|]) <= ItemKey(all[i]));
    }
    forall j, i | 0 < j < |p| && 0 <= i < |items|
      ensures p[..j] != ItemKey(items[i])
    {
      assert !(ItemKey(all[i]) <= ItemKey(all[|items|]));
    }
    forall i | 0 <= i < |items|
      ensures p != ItemKey(items[i])
    {
      assert !(ItemKey(all[i]) <= ItemKey(all[|items|]));
    }
  }

  lemma {:induction false} NextIsFreeInMap(items: seq<Item>, f: Item, m: FsMap)
    requires PrefixFree(items + [f]) && IsExactly(m, items)
    ensures ItemKey(f) !in m && NoFileFrom(m, ItemKey(f), 1)
    ensures forall d <- Above(ItemKey(f)) :: d in m ==> m[d] == Entry(DIR, [])
  {
    NextIsFree(items, f);
    hide ItemKey, DirKeys, FileKeys;
    var p := ItemKey(f);
    forall j | 1 <= j < |p| && p[..j] in m
      ensures IsDir(m, p[..j])
    {
      assert p[..j] in Above(p);
    }
  }

  lemma {:induction false} NextKeys(m: FsMap, f: Item)
    requires ItemKey(f) !in m
    ensures Next(m, f).Keys == m.Keys + Above(ItemKey(f)) + {ItemKey(f)}
    ensures |Next(m, f)| == |WithDirs(m, Above(ItemKey(f)))| + 1
    ensures forall k <- m :: k != ItemKey(f) ==> Next(m, f)[k] == m[k]
    ensures forall d <- Above(ItemKey(f)) :: d !in m && d != ItemKey(f) ==> Next(m, f)[d] == Entry(DIR, [])
    ensures Next(m, f)[ItemKey(f)] == Entry(f.kind, f.content)
  {
    NotAboveItself(m, ItemKey(f));
    hide Above, ItemKey;
    var w := WithDirs(m, Above(ItemKey(f)));
    assert w.Keys == m.Keys + Above(ItemKey(f));
    assert Next(m, f).Keys == w.Keys + {ItemKey(f)};
  }

  lemma {:induction false} NextFile(items: seq<Item>, f: Item, m: FsMap, i: nat)
    requires PrefixFree(items + [f]) && IsExactly(m, items) && i <= |items|
    ensures var g := (items + [f])[i];
            ItemKey(g) in Next(m, f) && Next(m, f)[ItemKey(g)] == Entry(g.kind, g.content)
  {
    hide ItemKey, DirKeys, FileKeys, Above, Next;
    NextIsFreeInMap(items, f, m);
    NextKeys(m, f);
    if i < |items| {
      ItemIsIn(items, i);
    }
  }

  lemma {:induction false} NextDir(items: seq<Item>, f: Item, m: FsMap, d: Key)
    requires PrefixFree(items + [f]) && IsExactly(m, items) && d in DirKeys(items) + Above(ItemKey(f))
    ensures d in Next(m, f) && Next(m, f)[d] == Entry(DIR, [])
  {
    NextIsFreeInMap(items, f, m);
    NextIsFree(items, f);
    NextKeys(m, f);
    NotAboveItself(map[], ItemKey(f));
    hide ItemKey, DirKeys, FileKeys, Above, Next;
  }

  lemma {:induction false} Shuffle(files: set<Key>, dirs: set<Key>, above: set<Key>, p: Key)
    ensures (files + dirs) + above + {p} == (files + {p}) + (dirs + above)
  {
  }

  lemma {:induction false} ExactlySnocKeys(items: seq<Item>, f: Item, m: FsMap)
    requires PrefixFree(items + [f]) && IsExactly(m, items)
    ensures Next(m, f).Keys == FileKeys(items + [f]) + DirKeys(items + [f])
    ensures DirKeys(items + [f]) == DirKeys(items) + Above(ItemKey(f))
  {
    hide PrefixFree, ItemKey, DirKeys, FileKeys, Above, Next, NoFileFrom;
    NextIsFreeInMap(items, f, m);
    NextKeys(m, f);
    KeysSnoc(items, f);
    Shuffle(FileKeys(items), DirKeys(items), Above(ItemKey(f)), ItemKey(f));
  }

  /** The step of the loading loop on the map. */
  lemma {:induction false} ExactlySnoc(items: seq<Item>, f: Item, m: FsMap)
    requires PrefixFree(items + [f]) && IsExactly(m, items)
    ensures IsExactly(Next(m, f), items + [f])
  {
    hide PrefixFree, ItemKey, DirKeys, FileKeys, Above, Next;
    ExactlySnocKeys(items, f, m);
    forall i | 0 <= i < |items + [f]|
      ensures var g := (items + [f])[i];
              ItemKey(g) in Next(m, f) && Next(m, f)[ItemKey(g)] == Entry(g.kind, g.content)
    {
      NextFile(items, f, m, i);
    }
    forall d <- DirKeys(items + [f])
      ensures d in Next(m, f) && Next(m, f)[d] == Entry(DIR, [])
    {
      NextDir(items, f, m, d);
    }
  }

  lemma {:induction false} ItemIsIn(items: seq<Item>, i: nat)
    requires i < |items|
    ensures ItemKey(items[i]) in FileKeys(items)
  {
  }

  lemma {:induction false} PrefixFreeInit(items: seq<Item>, n: nat)
    requires PrefixFree(items) && n <= |items|
    ensures PrefixFree(items[..n])
  {
  }

  ghost predicate AllLoadable(items: seq<Item>) {
    (forall i :: 0 <= i < |items| ==> Loadable(items[i])) && |FileKeys(items) + DirKeys(items)| <= MAX_ENTRIES
  }

  lemma {:induction false} KeysGrow(items: seq<Item>, n: nat)
    requires n <= |items|
    ensures FileKeys(items[..n]) + DirKeys(items[..n]) <= FileKeys(items) + DirKeys(items)
  {
  }

  /** How far loading has come: a prefix of the items, and nothing but it. */
  ghost predicate LoadedPrefix(items: seq<Item>, r: Loaded) {
    && r.count <= |items| && TreeTable(r.table)
    && (r.count == |items| ==> IsExactly(Abs(r.table), items))
    && FilesAreExactly(Abs(r.table), items[..r.count])
    && (AllLoadable(items) <==> r.count == |items|)
  }

  /** The loading loop, on any list of distinct prefix-free paths: the table is a tree; the files in
      it are a prefix of the list; all are loaded exactly if every one is loadable and files and
      ancestors fit the table, and then the table holds them and their ancestors and nothing else. */
  lemma {:induction false} LoadAllIs(items: seq<Item>)
    requires PrefixFree(items)
    ensures LoadedPrefix(items, LoadAll(items))
    decreases |items|
  {
    hide PrefixFree, TreeTable, IsExactly, FilesAreExactly, AllLoadable, LoadFile, Abs;
    if items == [] {
      LoadedNothing();
    } else {
      var n := |items| - 1;
      var init, f, before := items[..n], items[n], LoadAll(items[..n]);
      PrefixFreeInit(items, n);
      LoadAllIs(init);
      assert items == init + [f];
      if before.count < n {
        assert init[..before.count] == items[..before.count];
        NotLoadableInit(items, n);
      } else {
        assert init[..n] == init && items[..|items|] == items;
        NextIsFreeInMap(init, f, Abs(before.table));
        LoadFileRefines(before.table, f);
        LoadedOneMore(init, f, before, LoadFile(before.table, f));
      }
    }
  }

  lemma {:induction false} LoadedNothing()
    ensures LoadedPrefix([], Loaded(0, []))
  {
  }

  lemma {:induction false} NotLoadableInit(items: seq<Item>, n: nat)
    requires n <= |items|
    ensures AllLoadable(items) ==> AllLoadable(items[..n])
  {
    KeysGrow(items, n);
    SubsetSize(FileKeys(items[..n]) + DirKeys(items[..n]), FileKeys(items) + DirKeys(items));
  }

  /** What fits: all of init and f together, if and only if f still fits after init. */
  lemma {:induction false} FitsOneMore(init: seq<Item>, f: Item, m: FsMap)
    requires PrefixFree(init + [f]) && IsExactly(m, init) && AllLoadable(init)
    ensures ItemKey(f) !in m && NoFileFrom(m, ItemKey(f), 1) && IsExactly(Next(m, f), init + [f])
    ensures AllLoadable(init + [f]) <==> Loadable(f) && |WithDirs(m, Above(ItemKey(f)))| < MAX_ENTRIES
  {
    hide PrefixFree, ItemKey, DirKeys, FileKeys, Above, Next, NoFileFrom, WithDirs, Loadable;
    NextIsFreeInMap(init, f, m);
    ExactlySnoc(init, f, m);
    NextKeys(m, f);
    assert Next(m, f).Keys == FileKeys(init + [f]) + DirKeys(init + [f]);
    assert forall i :: 0 <= i < |init| ==> (init + [f])[i] == init[i];
    assert (init + [f])[|init|] == f;
  }

  lemma {:induction false} ExactlyFiles(m: FsMap, items: seq<Item>)
    requires IsExactly(m, items)
    ensures FilesAreExactly(m, items)
  {
  }

  lemma {:induction false} LoadedOneMore(init: seq<Item>, f: Item, before: Loaded, o: Outcome)
    requires PrefixFree(init + [f]) && LoadedPrefix(init, before) && before.count == |init|
    requires LoadResult(Abs(before.table), o, f)
    ensures LoadedPrefix(init + [f], Loaded(if o.ok then |init| + 1 else |init|, o.table))
  {
    hide PrefixFree, AllLoadable, IsExactly, FilesAreExactly, Loadable;
    hide WithDirs, NoFileFrom, OnlyDirsAdded, TreeTable, Abs, Above;
    var m := Abs(before.table);
    FitsOneMore(init, f, m);
    assert init[..|init|] == init && (init + [f])[..|init|] == init && (init + [f])[..|init| + 1] == init + [f];
    if o.ok {
      ExactlyFiles(Abs(o.table), init + [f]);
    } else {
      DirsKeepFiles(m, Abs(o.table), init, ItemKey(f));
    }
  }

  lemma {:induction false} DirsKeepFiles(m: FsMap, m': FsMap, items: seq<Item>, p: Key)
    requires FilesAreExactly(m, items) && OnlyDirsAdded(m, m', p)
    ensures FilesAreExactly(m', items)
  {
  }

  // ---------- Any list: repeated names, names below one another ----------

  lemma {:induction false} EnsureAppends(t: Table, name: string, start: nat)
    requires start <= |name|
    ensures t <= EnsureDirs(t, name, start).table
    decreases |name| - start
  {
    hide Find;
    var slash := NextSlash(name, start);
    if slash < |name| && slash < PATH_MAX {
      if Find(t, name[..slash]) < |t| {
        EnsureAppends(t, name, slash + 1);
      } else {
        EnsureAppends(PushNode(t, name[..slash], DIR).table, name, slash + 1);
      }
    }
  }

  /** Slot k holds the item's file. */
  predicate Holds(t: Table, k: nat, f: Item) {
    && k < |t| && t[k].name == NormalName(f.path) && f.kind != DIR
    && t[k].kind == f.kind && Contents(t[k]) == f.content
  }

  lemma {:induction false} LoadAppends(t: Table, f: Item)
    ensures t <= LoadFile(t, f).table
    ensures var o := LoadFile(t, f);
            o.ok ==> |o.table| > |t| && Holds(o.table, |o.table| - 1, f)
  {
    hide Components, Join, EnsureDirs, Collapsed;
    EnsureAppends(t, NormalName(f.path), 0);
  }

  /** Whatever the list, the files loaded stand in the table in the order of the list. */
  lemma {:induction false} LoadedInOrder(items: seq<Item>) returns (slots: seq<nat>)
    ensures |slots| == LoadAll(items).count <= |items|
    ensures forall i :: 0 <= i < |slots| ==> Holds(LoadAll(items).table, slots[i], items[i])
    ensures forall i, j :: 0 <= i < j < |slots| ==> slots[i] < slots[j]
    decreases |items|
  {
    hide LoadFile, Contents, NormalName;
    slots := [];
    if items != [] {
      var n := |items| - 1;
      slots := LoadedInOrder(items[..n]);
      var before := LoadAll(items[..n]);
      if before.count == n {
        LoadAppends(before.table, items[n]);
        if LoadFile(before.table, items[n]).ok {
          slots := slots + [|LoadFile(before.table, items[n]).table| - 1];
        }
      }
    }
  }

  lemma {:induction false} FileIsNotAbove(m: FsMap, a: Key, b: Key)
    requires IsTree(m) && a in m && b in m && a != b && !IsDir(m, a)
    ensures !(a <= b)
  {
    assert Rooted(m, b);
    assert 0 < |a| < |b| ==> IsDir(m, b[..|a|]);
    assert Storable(a, m[a]);
    assert |a| <= |b| ==> b[..|a|] != a;
  }

  /** A tree has no two files at or below one another. */
  lemma {:induction false} TreeIsPrefixFree(t: Table, items: seq<Item>, slots: seq<nat>)
    requires TreeTable(t) && |slots| == |items|
    requires forall i :: 0 <= i < |items| ==> Holds(t, slots[i], items[i])
    requires forall i, j :: 0 <= i < j < |slots| ==> slots[i] < slots[j]
    ensures PrefixFree(items)
  {
    hide Components, Join, Abs, NodeOk, Contents, WellFormed;
    forall i, j | 0 <= i < |items| && 0 <= j < |items| && i != j
      ensures !(ItemKey(items[i]) <= ItemKey(items[j]))
    {
      var a, b := ItemKey(items[i]), ItemKey(items[j]);
      NormalOfKey(a);
      NormalOfKey(b);
      AbsAt(t, slots[i]);
      AbsAt(t, slots[j]);
      KeysDiffer(t, slots[i], slots[j]);
      FileIsNotAbove(Abs(t), a, b);
    }
  }

  /** Loading stops at the first file that fails. */
  lemma {:induction false} LoadStops(items: seq<Item>)
    ensures var n := LoadAll(items).count;
            && n <= |items| && LoadAll(items[..n]).count == n
            && (n < |items| ==> var o := LoadFile(LoadAll(items[..n]).table, items[n]);
                                !o.ok && LoadAll(items).table == o.table)
    decreases |items|
  {
    hide LoadFile;
    if items != [] {
      var m := |items| - 1;
      LoadStops(items[..m]);
      var n := LoadAll(items).count;
      if n <= m {
        assert items[..m][..n] == items[..n];
      } else {
        assert items[..n] == items;
      }
    } else {
      assert items[..0] == items;
    }
  }

  /** The loading loop, on any list: the table is a tree exactly if the names of the files loaded are
      distinct and prefix-free; then the files in it are exactly those. */
  lemma {:induction false} LoadAnyIs(items: seq<Item>)
    ensures var r := LoadAll(items);
            && r.count <= |items|
            && (TreeTable(r.table) <==> PrefixFree(items[..r.count]))
            && (TreeTable(r.table) ==> FilesAreExactly(Abs(r.table), items[..r.count]))
  {
    hide LoadAll, LoadFile, TreeTable, PrefixFree, FilesAreExactly, Abs, Holds, AllLoadable;
    var r := LoadAll(items);
    var n := r.count;
    LoadStops(items);
    if TreeTable(r.table) {
      var slots := LoadedInOrder(items);
      TreeIsPrefixFree(r.table, items[..n], slots);
    }
    if PrefixFree(items[..n]) {
      LoadAllIs(items[..n]);
      assert items[..n][..n] == items[..n];
      if n < |items| {
        var before := LoadAll(items[..n]).table;
        LoadFileRefines(before, items[n]);
        DirsKeepFiles(Abs(before), Abs(r.table), items[..n], ItemKey(items[n]));
      } else {
        assert items[..n] == items;
      }
    }
  }

  // ---------- When loading leaves a tree: a condition on the list alone ----------

  function TakenKeys(items: seq<Item>): set<Key> {
    FileKeys(items) + DirKeys(items)
  }

  /** The first n items load one after the other, and item n names a file or directory they made; no
      file lies above it and there is room for one more slot, so it is loaded all the same. */
  ghost predicate Clash(items: seq<Item>, n: nat)
    requires n < |items|
  {
    var before, f := items[..n], items[n];
    && PrefixFree(before) && AllLoadable(before) && Loadable(f)
    && ItemKey(f) in TakenKeys(before)
    && (forall d <- Above(ItemKey(f)) :: d !in FileKeys(before))
    && |TakenKeys(before) + Above(ItemKey(f))| < MAX_ENTRIES
  }

  /** Item n after a prefix-free list that fits: it is loaded onto a taken path exactly if they clash. */
  lemma {:induction false} ClashIs(items: seq<Item>, n: nat, m: FsMap)
    requires n < |items| && PrefixFree(items[..n]) && AllLoadable(items[..n]) && IsExactly(m, items[..n])
    ensures var p := ItemKey(items[n]);
            Clash(items, n) <==>
            Loadable(items[n]) && NoFileFrom(m, p, 1) && |WithDirs(m, Above(p))| < MAX_ENTRIES && p in m
  {
    hide ItemKey, Loadable, PrefixFree, AllLoadable, FileKeys, DirKeys, Above, WithDirs, NoFileFrom;
    var before, p := items[..n], ItemKey(items[n]);
    WithDirsSize(m, Above(p));
    NoFileIs(before, m, p);
  }

  lemma {:induction false} WithDirsSize(m: FsMap, ks: set<Key>)
    ensures |WithDirs(m, ks)| == |m.Keys + ks|
  {
    assert WithDirs(m, ks).Keys == m.Keys + ks;
  }

  /** In the map of a loadable prefix-free list, the files are where its paths are. */
  lemma {:induction false} NoFileIs(items: seq<Item>, m: FsMap, p: Key)
    requires IsExactly(m, items) && AllLoadable(items)
    ensures NoFileFrom(m, p, 1) <==> forall d <- Above(p) :: d !in FileKeys(items)
  {
    hide ItemKey, DirKeys;
    forall q | q in m
      ensures IsDir(m, q) <==> q !in FileKeys(items)
    {
      if q in FileKeys(items) {
        var i :| 0 <= i < |items| && q == ItemKey(items[i]);
        assert Loadable(items[i]);
      }
    }
    if NoFileFrom(m, p, 1) {
      forall d <- Above(p)
        ensures d !in FileKeys(items)
      {
        var j :| 0 < j < |p| && d == p[..j];
        assert d in m ==> IsDir(m, p[..j]);
      }
    }
  }

  lemma {:induction false} PrefixLoads(items: seq<Item>, n: nat)
    requires n <= |items|
    ensures n <= LoadAll(items).count <==> LoadAll(items[..n]).count == n
    ensures LoadAll(items).count <= |items|
  {
    hide LoadFile;
    if n == |items| {
      assert items[..n] == items;
      LoadStops(items);
    } else {
      var init := items[..|items| - 1];
      assert init[..n] == items[..n];
      PrefixLoads(init, n);
    }
  }

  /** A clash is loaded, and then the table is no tree, whatever comes after. */
  lemma {:induction false} ClashSpoils(items: seq<Item>, n: nat)
    requires n < |items| && Clash(items, n)
    ensures !TreeTable(LoadAll(items).table)
  {
    hide TreeTable, LoadFile, PrefixFree, AllLoadable, IsExactly, FilesAreExactly, Abs, Loadable, NoFileFrom, WithDirs;
    var before, upto := items[..n], items[..n + 1];
    assert upto[..n] == before && before[..n] == before && upto[n] == items[n];
    LoadAllIs(before);
    var m := Abs(LoadAll(before).table);
    ClashIs(items, n, m);
    hide Clash;
    LoadFileRefines(LoadAll(before).table, items[n]);
    LoadAnyIs(upto);
    assert upto[..n + 1] == upto;
    PrefixLoads(items, n + 1);
    LoadAnyIs(items);
    var c := LoadAll(items).count;
    assert items[..c][..n + 1] == upto;
    if PrefixFree(items[..c]) {
      PrefixFreeInit(items[..c], n + 1);
    }
  }

  /** The first item that spoils a prefix-free list. */
  lemma {:induction false} FirstOffender(items: seq<Item>, c: nat) returns (n: nat)
    requires c <= |items| && !PrefixFree(items[..c])
    ensures n < c && PrefixFree(items[..n]) && !PrefixFree(items[..n + 1])
  {
    assert c > 0;
    if PrefixFree(items[..c - 1]) {
      n := c - 1;
    } else {
      n := FirstOffender(items, c - 1);
    }
  }

  lemma {:induction false} SpoiledByClash(items: seq<Item>) returns (n: nat)
    requires !TreeTable(LoadAll(items).table)
    ensures n < |items| && Clash(items, n)
  {
    hide TreeTable, LoadFile, PrefixFree, AllLoadable, IsExactly, FilesAreExactly, Abs, Loadable, NoFileFrom, WithDirs;
    hide Clash;
    LoadAnyIs(items);
    n := FirstOffender(items, LoadAll(items).count);
    var before, upto := items[..n], items[..n + 1];
    PrefixLoads(items, n);
    PrefixLoads(items, n + 1);
    LoadAllIs(before);
    assert upto[..n] == before && upto[n] == items[n] && upto[..n + 1] == upto;
    LoadAnyIs(upto);
    LoadFileRefines(LoadAll(before).table, items[n]);
    ClashIs(items, n, Abs(LoadAll(before).table));
  }

  /** The loading loop leaves a directory tree exactly if no item of the list clashes with those
      before it. */
  lemma {:induction false} LoadIsTree(items: seq<Item>)
    ensures TreeTable(LoadAll(items).table) <==> forall n :: 0 <= n < |items| ==> !Clash(items, n)
  {
    hide TreeTable, LoadAll, Clash;
    if TreeTable(LoadAll(items).table) {
      forall n | 0 <= n < |items|
        ensures !Clash(items, n)
      {
        if Clash(items, n) {
          ClashSpoils(items, n);
        }
      }
    } else {
      var n := SpoiledByClash(items);
    }
  }

  lemma {:induction false} KeysOfOne(f: Item)
    requires |ItemKey(f)| == 1
    ensures FileKeys([f]) == {ItemKey(f)} && DirKeys([f]) == {} && Above(ItemKey(f)) == {}
  {
    KeysSnoc([], f);
    assert [] + [f] == [f];
  }

  /** Failing input: the same top-level file twice. */
  lemma {:induction false} TwiceIsNoTree(f: Item)
    requires Loadable(f) && |ItemKey(f)| == 1
    ensures !TreeTable(LoadAll([f, f]).table)
  {
    hide FileKeys, DirKeys, Above, ItemKey, Loadable, TreeTable, LoadAll;
    KeysOfOne(f);
    assert [f, f][..1] == [f] && {ItemKey(f)} + {} == {ItemKey(f)};
    assert PrefixFree([f]) && AllLoadable([f]);
    assert Clash([f, f], 1);
    ClashSpoils([f, f], 1);
  }
}
