/** Runs of the public operations: the table stays a directory tree and keeps following the map. */
module FsRuns {
  import opened Basics
  import opened Paths
  import opened FsTable
  import opened FsMap
  import opened FsRefine
  import opened FsMove

  lemma {:induction false} OperationRefines(t: Table, op: Op)
    requires TreeTable(t)
    ensures Refines(Step(t, op), StepMap(Abs(t), op))
  {
    hide Refines, Mkdir, WriteFile, AppendFile, Remove, Copy, Move;
    match op
    case MkdirOp(p) => MkdirRefines(t, p);
    case WriteOp(p, data, kind) => WriteRefines(t, p, data, kind);
    case AppendOp(p, data) => AppendRefines(t, p, data);
    case RemoveOp(p) => RemoveRefines(t, p);
    case CopyOp(s, d) => CopyRefines(t, s, d);
    case MoveOp(s, d) => MoveRefines(t, s, d);
  }

  /** A false return leaves the table untouched, whatever the table. */
  lemma {:induction false} RefusalTouchesNothing(t: Table, op: Op)
    ensures !Step(t, op).ok ==> Step(t, op).table == t
  {
  }

  /** Every operation, on a tree: refines the map operation and keeps the tree. */
  lemma {:induction false} StepRefines(t: Table, op: Op)
    requires TreeTable(t)
    ensures Refines(Step(t, op), StepMap(Abs(t), op))
    ensures TreeTable(Step(t, op).table)
  {
    OperationRefines(t, op);
    StepKeepsTree(Abs(t), op);
  }

  ghost function RunMap(m: FsMap, ops: seq<Op>): FsMap
    decreases |ops|
  {
    if ops == [] then m else RunMap(StepMap(m, ops[0]).files, ops[1..])
  }

  /** Over every run the table is a tree and its map is the run of the map operations. */
  lemma {:induction false} RunRefines(t: Table, ops: seq<Op>)
    requires TreeTable(t)
    ensures TreeTable(Run(t, ops)) && Abs(Run(t, ops)) == RunMap(Abs(t), ops)
    decreases |ops|
  {
    if ops != [] {
      StepRefines(t, ops[0]);
      RunRefines(Step(t, ops[0]).table, ops[1..]);
    }
  }

  lemma {:induction false} EmptyIsTree()
    ensures TreeTable([])
  {
  }

  /** Where an operation takes the node at k. */
  function Follow(op: Op, ok: bool, k: Key): Key {
    match op
    case MoveOp(s, d) => if ok then Moved(k, Components(s), Components(d)) else k
    case _ => k
  }

  /** No operation turns a file into a directory or back, and none but fs_remove loses a node. */
  lemma {:induction false} KindsStay(m: FsMap, op: Op, k: Key)
    requires IsTree(m) && k in m
    ensures var o := StepMap(m, op);
            var k' := Follow(op, o.ok, k);
            && (k' in o.files ==> (IsDir(o.files, k') <==> IsDir(m, k)))
            && (k' !in o.files <==> op.RemoveOp? && o.ok && k == Components(op.path))
  {
    match op
    case MoveOp(s, d) =>
      if StepMap(m, op).ok {
        MovedMapAt(m, Components(s), Components(d), k);
      }
    case _ =>
  }

  /** Where a run takes the node at k; None once it is removed. */
  ghost function FollowRun(m: FsMap, ops: seq<Op>, k: Key): Option<Key>
    decreases |ops|
  {
    if ops == [] then Some(k)
    else
      var o := StepMap(m, ops[0]);
      var k' := Follow(ops[0], o.ok, k);
      if k' in o.files then FollowRun(o.files, ops[1..], k') else None
  }

  /** The run removes the node that is at k when it starts. */
  ghost predicate RemovesAlong(m: FsMap, ops: seq<Op>, k: Key)
    decreases |ops|
  {
    ops != []
    && var o := StepMap(m, ops[0]);
       (ops[0].RemoveOp? && o.ok && k == Components(ops[0].path))
       || RemovesAlong(o.files, ops[1..], Follow(ops[0], o.ok, k))
  }

  /** Over every run a node, wherever moves take it, stays a file or stays a directory until a
      removal names it; nothing else loses it. */
  lemma {:induction false} RunKindsStay(t: Table, ops: seq<Op>, k: Key)
    requires TreeTable(t) && k in Abs(t)
    ensures var at, m := FollowRun(Abs(t), ops, k), Abs(Run(t, ops));
            && (at.Some? ==> at.value in m && (IsDir(m, at.value) <==> IsDir(Abs(t), k)))
            && (at.None? <==> RemovesAlong(Abs(t), ops, k))
    decreases |ops|
  {
    hide StepMap, Step, Abs, IsTree, WellFormed;
    if ops != [] {
      KindsStay(Abs(t), ops[0], k);
      StepRefines(t, ops[0]);
      var o := StepMap(Abs(t), ops[0]);
      var k' := Follow(ops[0], o.ok, k);
      if k' in o.files {
        RunKindsStay(Step(t, ops[0]).table, ops[1..], k');
      }
    }
  }

  /** The operation neither names k nor, being a move, carries k along or onto it. */
  predicate Avoids(op: Op, k: Key) {
    match op
    case MoveOp(s, d) => !(Components(s) <= k) && !(Components(d) <= k)
    case CopyOp(_, d) => k != Components(d)
    case _ => k != Components(op.path)
  }

  ghost predicate Agree(m: FsMap, m': FsMap, k: Key) {
    (k in m <==> k in m') && (k in m ==> m[k] == m'[k])
  }

  /** Framing: an operation leaves alone every path it avoids. */
  lemma {:induction false} StepFrame(m: FsMap, op: Op, k: Key)
    requires IsTree(m) && Avoids(op, k)
    ensures Agree(m, StepMap(m, op).files, k)
  {
    hide MovedMap, IsTree, Components, CanMove;
    match op
    case MoveOp(source, destination) =>
      var s, d := Components(source), Components(destination);
      if StepMap(m, op).ok {
        MovedMapIs(m, s, d);
        if k in m {
          assert Moved(k, s, d) == k;
        }
      }
    case _ =>
  }

  /** Framing over runs. */
  lemma {:induction false} RunFrame(m: FsMap, ops: seq<Op>, k: Key)
    requires IsTree(m) && forall i :: 0 <= i < |ops| ==> Avoids(ops[i], k)
    ensures Agree(m, RunMap(m, ops), k)
    decreases |ops|
  {
    if ops != [] {
      StepFrame(m, ops[0], k);
      StepKeepsTree(m, ops[0]);
      RunFrame(StepMap(m, ops[0]).files, ops[1..], k);
    }
  }

  // ---------- Runs of a few operations ----------

  lemma {:induction false} RunCons(t: Table, op: Op, ops: seq<Op>)
    ensures Run(t, [op] + ops) == Run(Step(t, op).table, ops)
  {
  }

  lemma {:induction false} RunFour(t: Table, a: Op, b: Op, c: Op, d: Op)
    ensures Run(t, [a, b, c, d]) == Step(Step(Step(Step(t, a).table, b).table, c).table, d).table
  {
    hide Step;
    var u := Step(t, a).table;
    var v := Step(u, b).table;
    var w := Step(v, c).table;
    RunCons(t, a, [b, c, d]);
    RunCons(u, b, [c, d]);
    RunCons(v, c, [d]);
    RunCons(w, d, []);
    assert [a, b, c, d] == [a] + [b, c, d] && [b, c, d] == [b] + [c, d] && [c, d] == [c] + [d] && [d] == [d] + [];
  }

  lemma {:induction false} RunFive(t: Table, a: Op, b: Op, c: Op, d: Op, e: Op)
    ensures Run(t, [a, b, c, d, e]) == Step(Step(Step(Step(Step(t, a).table, b).table, c).table, d).table, e).table
  {
    hide Step;
    assert [a, b, c, d, e] == [a] + [b, c, d, e];
    RunCons(t, a, [b, c, d, e]);
    RunFour(Step(t, a).table, b, c, d, e);
  }

  // ---------- Reading back ----------

  /** fs_find, at node level: the slot whose node the path names. */
  function Lookup(t: Table, path: string): nat {
    if Fits(path) then Find(t, NormalName(path)) else |t|
  }

  /** fs_find answers with the node the map holds at the path. */
  lemma {:induction false} LookupIs(t: Table, path: string)
    requires TreeTable(t)
    ensures var i := Lookup(t, path);
            && (i < |t| <==> Names(path, Components(path)) && Components(path) in Abs(t))
            && (i < |t| ==> EntryOf(t[i]) == Abs(t)[Components(path)])
  {
    NameFacts(path);
    FindIs(t, NormalName(path));
    assert forall p <- Abs(t) :: Storable(p, Abs(t)[p]);
  }

  /** A successful write is read back. */
  lemma {:induction false} WriteThenLookup(t: Table, path: string, data: seq<byte>, kind: word)
    requires TreeTable(t) && WriteFile(t, path, data, kind).ok
    ensures var t' := WriteFile(t, path, data, kind).table;
            var i := Lookup(t', path);
            i < |t'| && Contents(t'[i]) == data && t'[i].kind == kind
  {
    StepRefines(t, WriteOp(path, data, kind));
    LookupIs(WriteFile(t, path, data, kind).table, path);
  }

  /** A successful append is read back as the old bytes followed by the new. */
  lemma {:induction false} AppendThenLookup(t: Table, path: string, data: seq<byte>)
    requires TreeTable(t) && AppendFile(t, path, data).ok
    ensures var t' := AppendFile(t, path, data).table;
            var i, j := Lookup(t', path), Lookup(t, path);
            && i < |t'| && t'[i].kind == TEXT
            && Contents(t'[i]) == (if j < |t| then Contents(t[j]) else []) + data
  {
    hide AppendFile, TreeTable, Abs, Names;
    StepRefines(t, AppendOp(path, data));
    LookupIs(t, path);
    LookupIs(AppendFile(t, path, data).table, path);
    NameFacts(path);
  }

  /** The same slot contents are found, read through the map. */
  lemma {:induction false} SameLookup(t: Table, a: string, t': Table, b: string)
    requires TreeTable(t) && TreeTable(t') && Names(a, Components(a)) && Names(b, Components(b))
    requires Components(a) in Abs(t) && Components(b) in Abs(t')
    requires Abs(t)[Components(a)] == Abs(t')[Components(b)]
    ensures var i, j := Lookup(t, a), Lookup(t', b);
            i < |t| && j < |t'| && EntryOf(t[i]) == EntryOf(t'[j])
  {
    LookupIs(t, a);
    LookupIs(t', b);
  }

  lemma {:induction false} CopyMapFacts(m: FsMap, source: string, destination: string)
    requires CopyMap(m, source, destination).ok
    ensures var s, d := Components(source), Components(destination);
            var m' := CopyMap(m, source, destination).files;
            && Names(source, s) && Names(destination, d)
            && s in m && d !in m && d in m' && m'[d] == m[s]
  {
  }

  /** A copy equals its source and is independent of it: after any run of operations that avoid the
      copy, say writes to the source or its removal, the copy still reads as the source did. */
  lemma {:induction false} CopyIsIndependent(t: Table, source: string, destination: string, ops: seq<Op>)
    requires TreeTable(t) && Copy(t, source, destination).ok
    requires forall i :: 0 <= i < |ops| ==> Avoids(ops[i], Components(destination))
    ensures var t' := Run(Copy(t, source, destination).table, ops);
            var j, i := Lookup(t, source), Lookup(t', destination);
            && j < |t| && i < |t'| && EntryOf(t'[i]) == EntryOf(t[j])
  {
    hide Copy, CopyMap, WriteFile, EntryOf, Lookup, TreeTable;
    StepRefines(t, CopyOp(source, destination));
    CopyMapFacts(Abs(t), source, destination);
    RunReads(t, source, Copy(t, source, destination).table, destination, ops);
  }

  lemma {:induction false} RunReads(t: Table, a: string, t': Table, b: string, ops: seq<Op>)
    requires TreeTable(t) && TreeTable(t') && Names(a, Components(a)) && Names(b, Components(b))
    requires Components(a) in Abs(t) && Components(b) in Abs(t')
    requires Abs(t)[Components(a)] == Abs(t')[Components(b)]
    requires forall i :: 0 <= i < |ops| ==> Avoids(ops[i], Components(b))
    ensures var i, j := Lookup(t, a), Lookup(Run(t', ops), b);
            i < |t| && j < |Run(t', ops)| && EntryOf(t[i]) == EntryOf(Run(t', ops)[j])
  {
    RunRefines(t', ops);
    RunFrame(Abs(t'), ops, Components(b));
    SameLookup(t, a, Run(t', ops), b);
  }
}
