/** Entry views: the records fs_get, fs_find and fs_list hand out. Their name and data pointers
    lead to a slot, which is the node's own slot only as long as nobody shifts the table. */
module FsViews {
  import opened Basics
  import opened Paths
  import opened PathTests
  import opened FsTable
  import opened FsRefine
  import opened FsMove
  import opened FsRuns

  /** The view in slot k describes the node in slot k. */
  predicate AgreesAt(t: Table, k: nat)
    requires k < |t|
  {
    t[k].view == View(k, t[k].size, t[k].kind)
  }

  ghost predicate Coherent(t: Table) {
    forall k :: 0 <= k < |t| ==> AgreesAt(t, k)
  }

  /** What does hold of every view over every run: the copied size and kind are right, and the
      pointers lead to the slot itself or further up the array, never down. */
  ghost predicate Ahead(t: Table) {
    forall k :: 0 <= k < |t| ==>
                  && k <= t[k].view.target < MAX_ENTRIES
                  && t[k].view.size == t[k].size && t[k].view.kind == t[k].kind
  }

  /** The operation removes the node of a slot other than the last. */
  predicate ShiftsSlots(t: Table, op: Op) {
    op.RemoveOp? && Remove(t, op.path).ok && Find(t, NormalName(op.path)) < |t| - 1
  }

  lemma {:induction false} MoveKeepsAhead(t: Table, source: string, destination: string)
    requires |t| <= MAX_ENTRIES && Ahead(t)
    ensures |Move(t, source, destination).table| <= MAX_ENTRIES && Ahead(Move(t, source, destination).table)
  {
  }

  lemma {:induction false} StepKeepsAhead(t: Table, op: Op)
    requires |t| <= MAX_ENTRIES && Ahead(t)
    ensures |Step(t, op).table| <= MAX_ENTRIES && Ahead(Step(t, op).table)
  {
    hide Components, Join, ParentExists, Splice, Zeros, Move, HasChildren, Collapsed, Find;
    if op.MoveOp? {
      MoveKeepsAhead(t, op.source, op.destination);
    }
  }

  /** Over every run, pointers lead to the slot itself or up. */
  lemma {:induction false} RunKeepsAhead(t: Table, ops: seq<Op>)
    requires |t| <= MAX_ENTRIES && Ahead(t)
    ensures Ahead(Run(t, ops))
    decreases |ops|
  {
    hide Step, Ahead;
    if ops != [] {
      StepKeepsAhead(t, ops[0]);
      RunKeepsAhead(Step(t, ops[0]).table, ops[1..]);
    }
  }

  /** Removing slot i hands every later slot's view down by one, pointers unchanged. */
  lemma {:induction false} RemoveShiftsTargets(t: Table, path: string)
    requires Remove(t, path).ok
    ensures var i, t' := Find(t, NormalName(path)), Remove(t, path).table;
            && i < |t| && |t'| == |t| - 1
            && (forall k :: 0 <= k < i ==> t'[k] == t[k])
            && (forall k :: i <= k < |t'| ==> t'[k].view.target == t[k + 1].view.target)
  {
  }

  lemma {:induction false} StepKeepsCoherent(t: Table, op: Op)
    requires Coherent(t) && !ShiftsSlots(t, op)
    ensures Coherent(Step(t, op).table)
  {
    hide Components, Join, Inside, AtOrInside, ParentExists, Splice, Zeros;
    var t' := Step(t, op).table;
    forall k | 0 <= k < |t'|
      ensures AgreesAt(t', k)
    {
      assert k < |t| ==> AgreesAt(t, k);
    }
  }

  /** One operation on a coherent table leaves it coherent exactly if it shifts no slots. */
  lemma {:induction false} StepCoherent(t: Table, op: Op)
    requires Coherent(t)
    ensures Coherent(Step(t, op).table) <==> !ShiftsSlots(t, op)
  {
    if ShiftsSlots(t, op) {
      var i := Find(t, NormalName(op.path));
      RemoveShiftsTargets(t, op.path);
      assert AgreesAt(t, i + 1);
      assert !AgreesAt(Step(t, op).table, i);
    } else {
      StepKeepsCoherent(t, op);
    }
  }

  /** No operation of the run removes the node of a slot other than the last at its time. */
  predicate NeverShifts(t: Table, ops: seq<Op>)
    decreases |ops|
  {
    ops == [] || (!ShiftsSlots(t, ops[0]) && NeverShifts(Step(t, ops[0]).table, ops[1..]))
  }

  lemma {:induction false} NothingRemoved(t: Table, ops: seq<Op>)
    requires forall i :: 0 <= i < |ops| ==> !ops[i].RemoveOp?
    ensures NeverShifts(t, ops)
    decreases |ops|
  {
    if ops != [] {
      NothingRemoved(Step(t, ops[0]).table, ops[1..]);
    }
  }

  /** A run keeps views coherent after each of its operations exactly if it never shifts slots. */
  lemma {:induction false} RunCoherent(t: Table, ops: seq<Op>)
    requires Coherent(t)
    ensures NeverShifts(t, ops) <==> forall n :: 0 <= n <= |ops| ==> Coherent(Run(t, ops[..n]))
    decreases |ops|
  {
    hide Step, Coherent, ShiftsSlots;
    if ops == [] {
      assert ops[..0] == [];
    } else {
      var t' := Step(t, ops[0]).table;
      assert forall n :: 0 < n <= |ops| ==> ops[..n] == [ops[0]] + ops[1..][..n - 1];
      assert forall n :: 0 < n <= |ops| ==> Run(t, ops[..n]) == Run(t', ops[1..][..n - 1]);
      StepCoherent(t, ops[0]);
      assert ops[..0] == [] && ops[1..][..0] == [];
      if Coherent(t') {
        RunCoherent(t', ops[1..]);
        if forall n :: 0 <= n <= |ops| ==> Coherent(Run(t, ops[..n])) {
          forall n | 0 <= n <= |ops[1..]|
            ensures Coherent(Run(t', ops[1..][..n]))
          {
            assert Coherent(Run(t, ops[..n + 1]));
          }
        }
      } else {
        assert !Coherent(Run(t, ops[..1]));
      }
    }
  }

  // ---------- A repair: fs_remove re-syncs the slots it shifted ----------

  /** fs_sync_entry on the slots from i on. */
  function SyncFrom(t: Table, i: nat): (t': Table)
    ensures |t'| == |t|
    ensures forall k :: 0 <= k < |t| ==> t'[k] == if k < i then t[k] else Synced(t[k], k)
  {
    seq(|t|, k requires 0 <= k < |t| => if k < i then t[k] else Synced(t[k], k))
  }

  /** fs_remove with one more line in its shifting loop: the slot just filled is re-synced. */
  function RemoveRepaired(t: Table, path: string): Outcome {
    var o := Remove(t, path);
    if o.ok then Outcome(true, SyncFrom(o.table, Find(t, NormalName(path)))) else o
  }

  /** All other operations are as they were. */
  function StepRepaired(t: Table, op: Op): Outcome {
    if op.RemoveOp? then RemoveRepaired(t, op.path) else Step(t, op)
  }

  function RunRepaired(t: Table, ops: seq<Op>): Table
    decreases |ops|
  {
    if ops == [] then t else RunRepaired(StepRepaired(t, ops[0]).table, ops[1..])
  }

  lemma {:induction false} RepairedStepCoherent(t: Table, op: Op)
    requires Coherent(t)
    ensures Coherent(StepRepaired(t, op).table)
  {
    if op.RemoveOp? && Remove(t, op.path).ok {
      var i, t' := Find(t, NormalName(op.path)), RemoveRepaired(t, op.path).table;
      RemoveShiftsTargets(t, op.path);
      hide Remove, Find, NormalName;
      forall k | 0 <= k < |t'|
        ensures AgreesAt(t', k)
      {
        assert AgreesAt(t, k);
      }
    } else {
      StepKeepsCoherent(t, op);
    }
  }

  lemma {:induction false} FindSame(a: Table, b: Table, name: string)
    requires SameButViews(a, b)
    ensures Find(a, name) == Find(b, name)
  {
  }

  lemma {:induction false} PresenceSame(a: Table, b: Table, name: string)
    requires SameButViews(a, b)
    ensures ParentExists(a, name) == ParentExists(b, name) && HasChildren(a, name) == HasChildren(b, name)
  {
    hide Inside, ParentPath;
    FindSame(a, b, ParentPath(name));
  }

  lemma {:induction false} BlockedSame(a: Table, b: Table, k: nat, s: string, d: string)
    requires SameButViews(a, b) && k < |a| && AtOrInside(a[k].name, s)
    ensures Blocked(a, k, s, d) == Blocked(b, k, s, d)
  {
  }

  /** The same verdict, and tables that again differ in nothing but views. */
  ghost predicate SameOutcome(o: Outcome, o': Outcome) {
    o.ok == o'.ok && SameButViews(o.table, o'.table)
  }

  lemma {:induction false} MoveSame(a: Table, b: Table, source: string, destination: string)
    requires SameButViews(a, b)
    ensures SameOutcome(Move(a, source, destination), Move(b, source, destination))
  {
    var s, d := NormalName(source), NormalName(destination);
    hide Blocked, AtOrInside, Inside, Find, ParentExists, NormalName, Fits, Renamed;
    FindSame(a, b, s);
    FindSame(a, b, d);
    PresenceSame(a, b, d);
    forall k | 0 <= k < |a| && AtOrInside(a[k].name, s)
      ensures Blocked(a, k, s, d) == Blocked(b, k, s, d)
    {
      BlockedSame(a, b, k, s, d);
    }
  }

  lemma {:induction false} WriteSame(a: Table, b: Table, path: string, data: seq<byte>, kind: word)
    requires SameButViews(a, b)
    ensures SameOutcome(WriteFile(a, path, data, kind), WriteFile(b, path, data, kind))
  {
    FindSame(a, b, NormalName(path));
    PresenceSame(a, b, NormalName(path));
    hide Find, ParentExists, Components, Join, Splice;
  }

  lemma {:induction false} CopySame(a: Table, b: Table, source: string, destination: string)
    requires SameButViews(a, b)
    ensures SameOutcome(Copy(a, source, destination), Copy(b, source, destination))
  {
    var i, d := Find(a, NormalName(source)), NormalName(destination);
    FindSame(a, b, NormalName(source));
    FindSame(a, b, d);
    if i < |a| {
      WriteSame(a, b, d, Contents(a[i]), a[i].kind);
    }
    hide Find, WriteFile, Components, Join;
  }

  lemma {:induction false} AppendSame(a: Table, b: Table, path: string, data: seq<byte>)
    requires SameButViews(a, b)
    ensures SameOutcome(AppendFile(a, path, data), AppendFile(b, path, data))
  {
    FindSame(a, b, NormalName(path));
    WriteSame(a, b, NormalName(path), data, TEXT);
    hide Find, WriteFile, Components, Join, Splice;
  }

  /** No operation looks at views. */
  lemma {:induction false} StepSame(a: Table, b: Table, op: Op)
    requires SameButViews(a, b)
    ensures SameOutcome(Step(a, op), Step(b, op))
  {
    hide Move, WriteFile, Copy, AppendFile, SameButViews, Find, HasChildren, ParentExists, Components, Join;
    match op
    case WriteOp(p, data, kind) => WriteSame(a, b, p, data, kind);
    case MoveOp(s, d) => MoveSame(a, b, s, d);
    case CopyOp(s, d) => CopySame(a, b, s, d);
    case AppendOp(p, data) => AppendSame(a, b, p, data);
    case RemoveOp(p) => RemoveSame(a, b, p);
    case MkdirOp(p) => MkdirSame(a, b, p);
  }

  lemma {:induction false} RemoveSame(a: Table, b: Table, path: string)
    requires SameButViews(a, b)
    ensures SameOutcome(Remove(a, path), Remove(b, path))
  {
    hide Find, HasChildren, NormalName, Fits;
    FindSame(a, b, NormalName(path));
    PresenceSame(a, b, NormalName(path));
  }

  lemma {:induction false} MkdirSame(a: Table, b: Table, path: string)
    requires SameButViews(a, b)
    ensures SameOutcome(Mkdir(a, path), Mkdir(b, path))
  {
    hide Find, ParentExists, NormalName, Fits;
    FindSame(a, b, NormalName(path));
    PresenceSame(a, b, NormalName(path));
  }

  lemma {:induction false} RepairedStepSame(a: Table, b: Table, op: Op)
    requires SameButViews(a, b)
    ensures SameOutcome(StepRepaired(a, op), Step(b, op))
  {
    StepSame(a, b, op);
    assert op.RemoveOp? ==> Step(a, op) == Remove(a, op.path);
    hide Step, Remove;
  }

  lemma {:induction false} SameAbs(a: Table, b: Table)
    requires SameButViews(a, b)
    ensures Abs(a) == Abs(b)
  {
    if a != [] {
      SameAbs(a[..|a| - 1], b[..|b| - 1]);
    }
  }

  lemma {:induction false} RepairedRunSame(a: Table, b: Table, ops: seq<Op>)
    requires SameButViews(a, b)
    ensures SameButViews(RunRepaired(a, ops), Run(b, ops))
    decreases |ops|
  {
    hide Step, StepRepaired, SameButViews;
    if ops != [] {
      RepairedStepSame(a, b, ops[0]);
      RepairedRunSame(StepRepaired(a, ops[0]).table, Step(b, ops[0]).table, ops[1..]);
    }
  }

  lemma {:induction false} RepairedRunAgrees(t: Table, ops: seq<Op>)
    requires Coherent(t)
    ensures Coherent(RunRepaired(t, ops))
    decreases |ops|
  {
    hide StepRepaired, Coherent;
    if ops != [] {
      RepairedStepCoherent(t, ops[0]);
      RepairedRunAgrees(StepRepaired(t, ops[0]).table, ops[1..]);
    }
  }

  /** With shifted slots re-synced in fs_remove, and nowhere else, views are coherent over every run;
      and nothing but views is different: the run stands for the same map, and whatever operation
      comes next is answered as before. */
  lemma {:induction false} RepairedRunCoherent(t: Table, ops: seq<Op>, next: Op)
    requires Coherent(t)
    ensures Coherent(RunRepaired(t, ops))
    ensures SameButViews(RunRepaired(t, ops), Run(t, ops)) && Abs(RunRepaired(t, ops)) == Abs(Run(t, ops))
    ensures StepRepaired(RunRepaired(t, ops), next).ok == Step(Run(t, ops), next).ok
  {
    hide Step, StepRepaired, Coherent, Run, RunRepaired;
    RepairedRunAgrees(t, ops);
    RepairedRunSame(t, t, ops);
    SameAbs(RunRepaired(t, ops), Run(t, ops));
    RepairedStepSame(RunRepaired(t, ops), Run(t, ops), next);
  }

  // ---------- What is read through a view ----------

  /** The text behind a view's name pointer, which may lead to any slot of the array, in use or not.
      No view of the code leads out of the array (RunKeepsAhead). */
  function ViewedName(slots: seq<Node>, view: View): string {
    if view.target < |slots| then slots[view.target].name else ""
  }

  function ViewedBytes(slots: seq<Node>, view: View): seq<byte> {
    if view.target < |slots| then slots[view.target].data[..view.size] else []
  }

  /** Read through its view, the node shows its own name, bytes and kind, be it in its own slot or in
      a copy left elsewhere. */
  predicate ReadsRight(slots: seq<Node>, n: Node) {
    && n.view.kind == n.kind && n.view.size == n.size
    && ViewedName(slots, n.view) == n.name && ViewedBytes(slots, n.view) == Contents(n)
  }

  /** A view whose size and kind are right reads right exactly if it leads to its own slot, or to a slot
      above the count where the same name and bytes are left over. */
  lemma {:induction false} ReadsRightIs(t: Table, past: seq<Node>, k: nat)
    requires WellFormed(t) && k < |t| && t[k].view.kind == t[k].kind && t[k].view.size == t[k].size
    ensures var n, i := t[k], t[k].view.target;
            ReadsRight(t + past, n) <==>
            || i == k
            || (|t| <= i < |t| + |past| && past[i - |t|].name == n.name && past[i - |t|].data[..n.size] == Contents(n))
  {
    NameNotEmpty(t, k);
    hide NodeOk;
  }

  lemma {:induction false} NameNotEmpty(t: Table, k: nat)
    requires WellFormed(t) && k < |t|
    ensures t[k].name != ""
  {
  }

  /** After removing slot i from a table with agreeing views, exactly the views below i and the last
      one read right: the last one finds the copy that shifting left behind, just above the count. */
  lemma {:induction false} RemoveReads(t: Table, past: seq<Node>, path: string)
    requires WellFormed(t) && Coherent(t) && Remove(t, path).ok
    ensures var i, t' := Find(t, NormalName(path)), Remove(t, path).table;
            && i < |t|
            && forall k :: 0 <= k < |t'| ==>
                             (ReadsRight(t' + ([t[|t| - 1]] + past), t'[k]) <==> k < i || k == |t'| - 1)
  {
    var i, t' := Find(t, NormalName(path)), Remove(t, path).table;
    RemoveShiftsTargets(t, path);
    WithoutWellFormed(t, i);
    assert t' == Without(t, i);
    WithoutAt(t, i);
    hide Remove, Find, NormalName, WellFormed, ReadsRight, Contents;
    forall k | 0 <= k < |t'|
      ensures ReadsRight(t' + ([t[|t| - 1]] + past), t'[k]) <==> k < i || k == |t'| - 1
    {
      var j := if k < i then k else k + 1;
      assert AgreesAt(t, j) && t'[k] == t[j];
      ReadsRightIs(t', [t[|t| - 1]] + past, k);
    }
  }

  // ---------- A directory listing that names the wrong node ----------

  function Absolute(c: string): string {
    "/" + c
  }

  lemma {:induction false} AbsoluteFacts(c: string)
    requires IsComponent(c) && |c| < PATH_MAX
    ensures Nameable(Absolute(c)) && NormalName(Absolute(c)) == c && ParentPath(c) == ""
  {
    ComponentsOfComponent(c);
    assert Absolute(c)[1..] == c;
    assert Absolute(c) == "" + "/" + c;
    ComponentsConcat("", c);
    assert Components(Absolute(c)) == [c];
    assert c[|c| - 1] in c;
    ComponentHasNoSlash(c);
  }

  function TopDir(c: string, target: nat): Node {
    Node(c, Zeros(), 0, DIR, View(target, 0, DIR))
  }

  /** A new directory at top level. */
  lemma {:induction false} MkdirTop(t: Table, c: string)
    requires IsComponent(c) && |c| < PATH_MAX && |t| < MAX_ENTRIES
    requires forall k :: 0 <= k < |t| ==> t[k].name != c
    ensures Mkdir(t, Absolute(c)) == Outcome(true, t + [TopDir(c, |t|)])
  {
    AbsoluteFacts(c);
    hide Components, Join, Collapsed;
  }

  /** The first slot's directory goes, if nothing lies inside it. */
  lemma {:induction false} RemoveFirst(t: Table, c: string)
    requires IsComponent(c) && |c| < PATH_MAX && t != [] && t[0].name == c
    requires forall k :: 0 <= k < |t| ==> !Inside(t[k].name, c)
    ensures Remove(t, Absolute(c)) == Outcome(true, t[1..])
  {
    AbsoluteFacts(c);
    hide Components, Join, Collapsed, Inside;
    assert !HasChildren(t, c);
    assert t[..0] + t[1..] == t[1..];
  }

  /** mkdir /a; mkdir /b; rm /a; mkdir /c: looking up /b yields a record whose name reads "c". */
  lemma {:induction false} WrongName(a: string, b: string, c: string)
    requires IsComponent(a) && IsComponent(b) && IsComponent(c)
    requires |a| < PATH_MAX && |b| < PATH_MAX && |c| < PATH_MAX && a != b && b != c
    ensures var t := Run([], [MkdirOp(Absolute(a)), MkdirOp(Absolute(b)), RemoveOp(Absolute(a)), MkdirOp(Absolute(c))]);
            var k := Lookup(t, Absolute(b));
            k < |t| && t[k].name == b && t[k].view.target < |t| && ViewedName(t, t[k].view) == c
  {
    hide Components, Join, Collapsed, Mkdir, Remove, Absolute, Zeros;
    MkdirTop([], a);
    MkdirTop([TopDir(a, 0)], b);
    RemoveFirst([TopDir(a, 0), TopDir(b, 1)], a);
    MkdirTop([TopDir(b, 1)], c);
    RunFour([], MkdirOp(Absolute(a)), MkdirOp(Absolute(b)), RemoveOp(Absolute(a)), MkdirOp(Absolute(c)));
    assert [] + [TopDir(a, 0)] == [TopDir(a, 0)];
    assert [TopDir(a, 0)] + [TopDir(b, 1)] == [TopDir(a, 0), TopDir(b, 1)];
    assert [TopDir(a, 0), TopDir(b, 1)][1..] == [TopDir(b, 1)];
    var t := [TopDir(b, 1), TopDir(c, 1)];
    assert [TopDir(b, 1)] + [TopDir(c, 1)] == t;
    AbsoluteFacts(b);
    assert t[0].name == b && Find(t, b) == 0;
  }
}
