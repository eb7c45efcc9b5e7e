/** The slot table of kernel/fs.c as a value, and what each operation of the file system does
    to it. Module FileSystem runs these operations in place on an array; module FsMap says
    what they mean for a map from paths to contents. */
module FsTable {
  import opened Basics
  import opened Paths
  import opened PathTests

  const MAX_ENTRIES := 64
  const MAX_SIZE := 16384

  type Buffer = b: seq<byte> | |b| == MAX_SIZE witness seq(MAX_SIZE, _ => 0)

  type Size = n: nat | n <= MAX_SIZE

  const TEXT: word := 1
  const PROGRAM: word := 2
  const DIR: word := 3

  /** fs_entry_t: the name and data pointers lead to the slot `target`; size and kind are copies. */
  datatype View = View(target: nat, size: Size, kind: word)

  datatype Node = Node(name: string, data: Buffer, size: Size, kind: word, view: View)

  /** The slots in use, g_nodes[..g_entry_count]. */
  type Table = seq<Node>

  datatype Outcome = Outcome(ok: bool, table: Table)

  function Zeros(): Buffer {
    seq(MAX_SIZE, _ => 0)
  }

  /** memcpy(buffer + at, data, |data|) */
  function Splice(buffer: Buffer, at: nat, data: seq<byte>): Buffer
    requires at + |data| <= MAX_SIZE
  {
    buffer[..at] + data + buffer[at + |data|..]
  }

  /** fs_sync_entry on the node in slot i. */
  function Synced(node: Node, i: nat): Node {
    node.(view := View(i, node.size, node.kind))
  }

  // ---------- Lookups ----------

  /** fs_normalize_path succeeds. */
  predicate Fits(path: string) {
    |Collapsed(path)| < PATH_MAX
  }

  function NormalName(path: string): string {
    Join(Components(path))
  }

  /** A path that an operation may create or remove: it normalizes, and not to the root. */
  predicate Nameable(path: string) {
    Fits(path) && NormalName(path) != ""
  }

  /** The first slot holding this name; |t| when there is none. */
  function Find(t: Table, name: string): (i: nat)
    ensures i <= |t|
    ensures i < |t| ==> t[i].name == name
    ensures forall j :: 0 <= j < i ==> t[j].name != name
  {
    if t == [] then 0
    else
      var i := Find(t[..|t| - 1], name);
      if i < |t| - 1 || t[|t| - 1].name == name then i else |t|
  }

  predicate HasChildren(t: Table, name: string) {
    if name == "" then t != [] else exists k :: 0 <= k < |t| && Inside(t[k].name, name)
  }

  predicate ParentExists(t: Table, name: string) {
    var parent := ParentPath(name);
    parent == "" || (Find(t, parent) < |t| && t[Find(t, parent)].kind == DIR)
  }

  // ---------- Operations ----------

  function PushNode(t: Table, name: string, kind: word): Outcome {
    if |t| >= MAX_ENTRIES || |name| + 1 > PATH_MAX then Outcome(false, t)
    else Outcome(true, t + [Node(name, Zeros(), 0, kind, View(|t|, 0, kind))])
  }

  /** A node whose buffer was cleared and then filled with data. */
  function Stored(name: string, data: seq<byte>, kind: word, slot: nat): Node
    requires |data| <= MAX_SIZE
  {
    Node(name, Splice(Zeros(), 0, data), |data|, kind, View(slot, |data|, kind))
  }

  function Mkdir(t: Table, path: string): Outcome {
    var name := NormalName(path);
    var i := Find(t, name);
    if !Nameable(path) then Outcome(false, t)
    else if i < |t| then Outcome(t[i].kind == DIR, t)
    else if !ParentExists(t, name) then Outcome(false, t)
    else PushNode(t, name, DIR)
  }

  function WriteFile(t: Table, path: string, data: seq<byte>, kind: word): Outcome {
    var name := NormalName(path);
    var i := Find(t, name);
    if !Nameable(path) || kind == DIR || |data| > MAX_SIZE then Outcome(false, t)
    else if i < |t| then
      if t[i].kind == DIR then Outcome(false, t)
      else Outcome(true, t[i := Stored(t[i].name, data, kind, i)])
    else if !ParentExists(t, name) || |t| >= MAX_ENTRIES || |name| + 1 > PATH_MAX then Outcome(false, t)
    else Outcome(true, t + [Stored(name, data, kind, |t|)])
  }

  function AppendFile(t: Table, path: string, data: seq<byte>): Outcome {
    var name := NormalName(path);
    var i := Find(t, name);
    if !Nameable(path) then Outcome(false, t)
    else if i == |t| then WriteFile(t, name, data, TEXT)
    else if t[i].kind != TEXT || t[i].size + |data| > MAX_SIZE then Outcome(false, t)
    else
      var size := t[i].size + |data|;
      Outcome(true, t[i := t[i].(data := Splice(t[i].data, t[i].size, data),
                                 size := size, view := View(i, size, TEXT))])
  }

  function Remove(t: Table, path: string): Outcome {
    var name := NormalName(path);
    var i := Find(t, name);
    if !Nameable(path) || i == |t| then Outcome(false, t)
    else if t[i].kind == DIR && HasChildren(t, name) then Outcome(false, t)
    else Outcome(true, t[..i] + t[i + 1..])
  }

  /** The bytes fs_copy hands on: the first `size` bytes of the buffer. */
  function Contents(node: Node): seq<byte> {
    node.data[..node.size]
  }

  function Copy(t: Table, source: string, destination: string): Outcome {
    var s, d := NormalName(source), NormalName(destination);
    var i := Find(t, s);
    if !Fits(source) || !Fits(destination) then Outcome(false, t)
    else if i == |t| || t[i].kind == DIR then Outcome(false, t)
    else if Find(t, d) < |t| then Outcome(false, t)
    else WriteFile(t, d, Contents(t[i]), t[i].kind)
  }

  /** The validation pass of fs_move refuses slot k. */
  predicate Blocked(t: Table, k: nat, s: string, d: string)
    requires k < |t| && AtOrInside(t[k].name, s)
  {
    || |Renamed(t[k].name, s, d)| + 1 > PATH_MAX
    || exists j :: 0 <= j < |t| && j != k && t[j].name == Renamed(t[k].name, s, d)
  }

  function MovedNode(node: Node, k: nat, s: string, d: string): Node {
    if AtOrInside(node.name, s) then Synced(node.(name := Renamed(node.name, s, d)), k) else node
  }

  function MovedTable(t: Table, s: string, d: string): (t': Table)
    ensures |t'| == |t|
    ensures forall k :: 0 <= k < |t| ==> t'[k] == MovedNode(t[k], k, s, d)
  {
    seq(|t|, k requires 0 <= k < |t| => MovedNode(t[k], k, s, d))
  }

  function Move(t: Table, source: string, destination: string): Outcome {
    var s, d := NormalName(source), NormalName(destination);
    var i := Find(t, s);
    if !Nameable(source) || !Nameable(destination) then Outcome(false, t)
    else if i == |t| || Find(t, d) < |t| || !ParentExists(t, d) then Outcome(false, t)
    else if t[i].kind == DIR && Inside(d, s) then Outcome(false, t)
    else if exists k :: 0 <= k < |t| && AtOrInside(t[k].name, s) && Blocked(t, k, s, d) then Outcome(false, t)
    else Outcome(true, MovedTable(t, s, d))
  }

  /** fs_list: the slots of the first `limit` direct children, in slot order. */
  function Children(t: Table, directory: string, limit: nat): (r: seq<nat>)
    ensures |r| <= limit
    ensures forall k <- r :: k < |t|
  {
    if t == [] then []
    else
      var n := |t| - 1;
      var r := Children(t[..n], directory, limit);
      if |r| < limit && IsDirectChild(directory, t[n].name) then r + [n] else r
  }

  function List(t: Table, directory: string, limit: nat): seq<nat> {
    var name := NormalName(directory);
    if !Fits(directory) then []
    else if name != "" && (Find(t, name) == |t| || t[Find(t, name)].kind != DIR) then []
    else Children(t, name, limit)
  }

  // ---------- Runs of the public operations ----------

  datatype Op =
    | MkdirOp(path: string)
    | WriteOp(path: string, data: seq<byte>, kind: word)
    | AppendOp(path: string, data: seq<byte>)
    | RemoveOp(path: string)
    | CopyOp(source: string, destination: string)
    | MoveOp(source: string, destination: string)

  function Step(t: Table, op: Op): Outcome {
    match op
    case MkdirOp(p) => Mkdir(t, p)
    case WriteOp(p, data, kind) => WriteFile(t, p, data, kind)
    case AppendOp(p, data) => AppendFile(t, p, data)
    case RemoveOp(p) => Remove(t, p)
    case CopyOp(s, d) => Copy(t, s, d)
    case MoveOp(s, d) => Move(t, s, d)
  }

  function Run(t: Table, ops: seq<Op>): Table
    decreases |ops|
  {
    if ops == [] then t else Run(Step(t, ops[0]).table, ops[1..])
  }
}
