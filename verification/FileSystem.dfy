/** kernel/fs.c in its own form: an array of nodes and a count, changed in place. Every method is
    proved to do to the slots in use exactly what its namesake in FsTable does. */
module FileSystem {
  import opened Basics
  import opened LibString
  import opened Paths
  import opened PathTests
  import T = FsTable
  import L = FsLoad
  import I = Initrd
  import R = FsRuns

  type Node = T.Node

  /** A slot, in use or not: its name is a C string, its view leads into the array. */
  predicate SlotOk(n: Node) {
    '\0' !in n.name && n.view.target < T.MAX_ENTRIES
  }

  class FileSystem {
    const nodes: array<Node>
    var count: nat

    ghost predicate Valid()
      reads this, nodes
    {
      && nodes.Length == T.MAX_ENTRIES && count <= T.MAX_ENTRIES
      && forall k :: 0 <= k < nodes.Length ==> SlotOk(nodes[k])
    }

    /** The slots in use. */
    function Table(): T.Table
      requires Valid()
      reads this, nodes
    {
      nodes[..count]
    }

    constructor ()
      ensures Valid() && fresh(nodes) && Table() == []
    {
      nodes := new Node[T.MAX_ENTRIES](_ => T.Node("", T.Zeros(), 0, 0, T.View(0, 0, 0)));
      count := 0;
    }

    // ---------- Lookups ----------

    /** fs_find_node_normalized; NULL is the index `count`. */
    method FindNode(name: string) returns (i: nat)
      requires Valid()
      ensures i == T.Find(Table(), name)
    {
      i := 0;
      while i < count
        invariant i <= count
        invariant forall k :: 0 <= k < i ==> nodes[k].name != name
      {
        if nodes[i].name == name {
          return;
        }
        i := i + 1;
      }
    }

    method HasChildren(name: string) returns (found: bool)
      requires Valid()
      ensures found == T.HasChildren(Table(), name)
    {
      var i := 0;
      while i < count
        invariant i <= count
        invariant name == "" ==> i == 0
        invariant forall k :: 0 <= k < i ==> !Inside(nodes[k].name, name)
      {
        if |name| == 0 {
          return true;
        }
        if Inside(nodes[i].name, name) {
          assert Inside(Table()[i].name, name);
          return true;
        }
        i := i + 1;
      }
      return false;
    }

    method ParentExists(name: string) returns (found: bool)
      requires Valid()
      ensures found == T.ParentExists(Table(), name)
    {
      var parent := ParentPath(name);
      if parent == "" {
        return true;
      }
      var i := FindNode(parent);
      return i < count && nodes[i].kind == T.DIR;
    }

    /** The caller's buffer after fs_normalize_path, when it succeeds. */
    method Normalize(path: string) returns (ok: bool, name: string)
      requires '\0' !in path
      ensures ok == T.Fits(path)
      ensures ok ==> name == T.NormalName(path) && '\0' !in name
    {
      NormalHasNoNul(path);
      var normalized := new char[PATH_MAX];
      ok := NormalizePath(path, normalized);
      name := CString(normalized[..]);
    }

    // ---------- Changing slots ----------

    method SyncEntry(i: nat)
      requires Valid() && i < count
      modifies nodes
      ensures Valid()
      ensures nodes[..] == old(nodes[..])[i := T.Synced(old(nodes[i]), i)]
    {
      nodes[i] := nodes[i].(view := T.View(i, nodes[i].size, nodes[i].kind));
    }

    method PushNode(name: string, kind: word) returns (ok: bool)
      requires Valid() && '\0' !in name
      modifies this`count, nodes
      ensures Valid()
      ensures T.Outcome(ok, Table()) == T.PushNode(old(Table()), name, kind)
    {
      if count >= T.MAX_ENTRIES || |name| + 1 > PATH_MAX {
        return false;
      }
      var slot := count;
      count := count + 1;
      nodes[slot] := T.Node(name, T.Zeros(), 0, kind, T.View(0, 0, 0));
      SyncEntry(slot);
      ok := true;
    }

    /** memcpy into slot i and the bookkeeping after it. */
    method Fill(i: nat, data: seq<byte>, kind: word)
      requires Valid() && i < count && |data| <= T.MAX_SIZE && nodes[i].data == T.Zeros()
      modifies nodes
      ensures Valid()
      ensures nodes[..] == old(nodes[..])[i := T.Stored(old(nodes[i].name), data, kind, i)]
    {
      if |data| > 0 {
        nodes[i] := nodes[i].(data := T.Splice(nodes[i].data, 0, data));
      }
      assert nodes[i].data == T.Splice(T.Zeros(), 0, data);
      nodes[i] := nodes[i].(size := |data|, kind := kind);
      SyncEntry(i);
    }

    method Mkdir(path: string) returns (ok: bool)
      requires Valid() && '\0' !in path
      modifies this`count, nodes
      ensures Valid()
      ensures T.Outcome(ok, Table()) == T.Mkdir(old(Table()), path)
    {
      var fits, name := Normalize(path);
      if !fits || name == "" {
        return false;
      }
      var existing := FindNode(name);
      if existing < count {
        return nodes[existing].kind == T.DIR;
      }
      var parent := ParentExists(name);
      if !parent {
        return false;
      }
      ok := PushNode(name, T.DIR);
    }

    /** fs_write_file on a node that is there. */
    method Overwrite(i: nat, data: seq<byte>, kind: word)
      requires Valid() && i < count && |data| <= T.MAX_SIZE
      modifies nodes
      ensures Valid()
      ensures Table() == old(Table())[i := T.Stored(old(nodes[i].name), data, kind, i)]
    {
      nodes[i] := nodes[i].(data := T.Zeros());
      Fill(i, data, kind);
    }

    /** fs_write_file on a name that is not. */
    method Create(name: string, data: seq<byte>, kind: word) returns (ok: bool)
      requires Valid() && '\0' !in name && |data| <= T.MAX_SIZE
      modifies this`count, nodes
      ensures Valid()
      ensures ok == (old(count) < T.MAX_ENTRIES && |name| + 1 <= PATH_MAX)
      ensures Table() == if ok then old(Table()) + [T.Stored(name, data, kind, old(count))] else old(Table())
    {
      ok := PushNode(name, kind);
      if ok {
        Fill(count - 1, data, kind);
      }
    }

    method WriteFile(path: string, data: seq<byte>, kind: word) returns (ok: bool)
      requires Valid() && '\0' !in path
      modifies this`count, nodes
      ensures Valid()
      ensures T.Outcome(ok, Table()) == T.WriteFile(old(Table()), path, data, kind)
    {
      hide T.Stored, Components, Join, T.ParentExists;
      var fits, name := Normalize(path);
      if !fits || name == "" || kind == T.DIR || |data| > T.MAX_SIZE {
        return false;
      }
      var existing := FindNode(name);
      if existing < count {
        if nodes[existing].kind == T.DIR {
          return false;
        }
        Overwrite(existing, data, kind);
        return true;
      }
      var parent := ParentExists(name);
      if !parent {
        return false;
      }
      ok := Create(name, data, kind);
    }

    /** The sum of the two sizes is taken in 32 bits. Where it wraps, the test against the capacity of
        a node passes and C promises nothing of the copy that follows. */
    method AppendFile(path: string, data: seq<byte>) returns (ok: bool)
      requires Valid() && '\0' !in path
      requires |data| < WORD_LIMIT
      requires var i := T.Find(Table(), T.NormalName(path));
               i < count && nodes[i].kind == T.TEXT ==> nodes[i].size + |data| < WORD_LIMIT
      modifies this`count, nodes
      ensures Valid()
      ensures T.Outcome(ok, Table()) == T.AppendFile(old(Table()), path, data)
    {
      var fits, name := Normalize(path);
      if !fits || name == "" {
        return false;
      }
      var i := FindNode(name);
      if i == count {
        ok := WriteFile(name, data, T.TEXT);
        return;
      }
      if nodes[i].kind != T.TEXT || (nodes[i].size + |data|) % WORD_LIMIT > T.MAX_SIZE {
        return false;
      }
      nodes[i] := nodes[i].(data := T.Splice(nodes[i].data, nodes[i].size, data));
      nodes[i] := nodes[i].(size := nodes[i].size + |data|);
      SyncEntry(i);
      ok := true;
    }

    method Remove(path: string) returns (ok: bool)
      requires Valid() && '\0' !in path
      modifies this`count, nodes
      ensures Valid()
      ensures T.Outcome(ok, Table()) == T.Remove(old(Table()), path)
      ensures ok ==> nodes[count..] == old(nodes[count - 1..])
    {
      hide Components, Join, Inside, T.HasChildren;
      var fits, name := Normalize(path);
      if !fits || name == "" {
        return false;
      }
      var i := FindNode(name);
      if i == count {
        return false;
      }
      if nodes[i].kind == T.DIR {
        var occupied := HasChildren(name);
        if occupied {
          return false;
        }
      }
      ShiftDown(i);
      count := count - 1;
      ok := true;
    }

    /** The inner loop of fs_remove. */
    method ShiftDown(i: nat)
      requires Valid() && i < count
      modifies nodes
      ensures Valid()
      ensures nodes[..count - 1] == old(Table())[..i] + old(Table())[i + 1..]
      ensures nodes[count - 1..] == old(nodes[count - 1..])
    {
      var j := i + 1;
      while j < count
        invariant i < j <= count
        invariant nodes[..j - 1] == old(nodes[..i] + nodes[i + 1..j])
        invariant forall k :: j - 1 <= k < nodes.Length ==> nodes[k] == old(nodes[k])
        invariant Valid()
      {
        nodes[j - 1] := nodes[j];
        j := j + 1;
      }
      assert old(nodes[..i]) == old(Table())[..i] && old(nodes[i + 1..count]) == old(Table())[i + 1..];
    }

    method Copy(source: string, destination: string) returns (ok: bool)
      requires Valid() && '\0' !in source && '\0' !in destination
      modifies this`count, nodes
      ensures Valid()
      ensures T.Outcome(ok, Table()) == T.Copy(old(Table()), source, destination)
    {
      var sourceFits, s := Normalize(source);
      var destinationFits, d := Normalize(destination);
      if !sourceFits || !destinationFits {
        return false;
      }
      var i := FindNode(s);
      if i == count || nodes[i].kind == T.DIR {
        return false;
      }
      var j := FindNode(d);
      if j < count {
        return false;
      }
      ok := WriteFile(d, nodes[i].data[..nodes[i].size], nodes[i].kind);
    }

    // ---------- Booting ----------

    method EnsureDirChain(name: string) returns (ok: bool)
      requires Valid() && '\0' !in name
      modifies this`count, nodes
      ensures Valid()
      ensures T.Outcome(ok, Table()) == L.EnsureDirs(old(Table()), name, 0)
    {
      hide T.PushNode, T.Find;
      var start := 0;
      while start < |name|
        invariant Valid() && start <= |name|
        invariant L.EnsureDirs(Table(), name, start) == L.EnsureDirs(old(Table()), name, 0)
      {
        var slash := L.NextSlash(name, start);
        if slash == |name| {
          return true;
        }
        if slash >= PATH_MAX {
          return false;
        }
        var existing := FindNode(name[..slash]);
        if existing == count {
          var pushed := PushNode(name[..slash], T.DIR);
          if !pushed {
            return false;
          }
        } else if nodes[existing].kind != T.DIR {
          return false;
        }
        start := slash + 1;
      }
      ok := true;
    }

    method LoadFile(f: L.Item) returns (ok: bool)
      requires Valid() && '\0' !in f.path
      modifies this`count, nodes
      ensures Valid()
      ensures T.Outcome(ok, Table()) == L.LoadFile(old(Table()), f)
    {
      hide T.Stored, Components, Join, L.EnsureDirs;
      var fits, name := Normalize(f.path);
      if !fits || name == "" || f.kind == T.DIR || |f.content| > T.MAX_SIZE {
        return false;
      }
      var chain := EnsureDirChain(name);
      if !chain {
        return false;
      }
      ok := Create(name, f.content, f.kind);
    }

    method UseBuiltin()
      requires Valid()
      modifies this`count, nodes
      ensures Valid() && Table() == T.Run([], I.BuiltinOps())
    {
      hide T.Run, T.Mkdir, T.WriteFile, I.Text;
      count := 0;
      var ok := Mkdir("/docs");
      ok := Mkdir("/home");
      ok := WriteFile("/README.TXT", I.Text(I.README), T.TEXT);
      ok := WriteFile("/docs/MOTD.TXT", I.Text(I.MOTD), T.TEXT);
      ok := WriteFile("/home/WELCOME.TXT", I.Text(I.HOME), T.TEXT);
      ghost var ops := I.BuiltinOps();
      R.RunFive([], ops[0], ops[1], ops[2], ops[3], ops[4]);
      assert ops == [ops[0], ops[1], ops[2], ops[3], ops[4]];
    }

    /** fs_init; the module's bytes stand for the multiboot structures that lead to them. */
    method Init(image: Option<seq<byte>>) returns (ok: bool)
      requires Valid() && (image.Some? ==> I.Readable(image.value))
      modifies this`count, nodes
      ensures Valid()
      ensures T.Outcome(ok, Table()) == I.Init(image)
    {
      count := 0;
      if image.Some? && I.Recognized(image.value) {
        LoadImage(image.value);
        if count > 0 {
          return true;
        }
      }
      UseBuiltin();
      ok := false;
    }

    /** The loop of fs_init over the image's table. */
    method LoadImage(image: seq<byte>)
      requires Valid() && count == 0 && I.Readable(image) && I.Recognized(image)
      modifies this`count, nodes
      ensures Valid() && Table() == L.LoadAll(I.Items(image)).table
    {
      hide I.ItemAt, L.LoadFile, I.ContentsInside, I.Word;
      ghost var items := I.Items(image);
      var i := 0;
      assert items[..0] == [];
      while i < I.CountedEntries(image)
        invariant Valid() && i <= |items|
        invariant L.LoadAll(items[..i]) == L.Loaded(i, Table())
      {
        var item := I.ItemAt(image, i);
        ItemHasNoNul(image, i);
        assert items[..i + 1][..i] == items[..i];
        var ok := LoadFile(item);
        if !ok {
          StoppedLoading(items, i + 1);
          return;
        }
        i := i + 1;
      }
      assert items[..i] == items;
    }

    // ---------- Moving ----------

    method Move(source: string, destination: string) returns (ok: bool)
      requires Valid() && '\0' !in source && '\0' !in destination
      modifies nodes
      ensures Valid()
      ensures T.Outcome(ok, Table()) == T.Move(old(Table()), source, destination)
    {
      var sourceFits, s := Normalize(source);
      var destinationFits, d := Normalize(destination);
      if !sourceFits || !destinationFits {
        return false;
      }
      if s == "" || d == "" {
        return false;
      }
      var i := FindNode(s);
      if i == count {
        return false;
      }
      var j := FindNode(d);
      if j < count {
        return false;
      }
      var parent := ParentExists(d);
      if !parent {
        return false;
      }
      if nodes[i].kind == T.DIR && Inside(d, s) {
        return false;
      }
      var blocked := Validate(s, d);
      if blocked {
        return false;
      }
      Rewrite(s, d);
      ok := true;
    }

    /** The first pass of fs_move: would any renamed slot be too long, or meet another name? */
    method Validate(s: string, d: string) returns (blocked: bool)
      requires Valid()
      ensures blocked <==> exists k :: 0 <= k < count && AtOrInside(nodes[k].name, s) && T.Blocked(Table(), k, s, d)
    {
      var i := 0;
      while i < count
        invariant i <= count
        invariant forall k :: 0 <= k < i && AtOrInside(nodes[k].name, s) ==> !T.Blocked(Table(), k, s, d)
      {
        if AtOrInside(nodes[i].name, s) {
          blocked := ValidateSlot(i, s, d);
          if blocked {
            return;
          }
        }
        i := i + 1;
      }
      blocked := false;
    }

    method ValidateSlot(i: nat, s: string, d: string) returns (blocked: bool)
      requires Valid() && i < count && AtOrInside(nodes[i].name, s)
      ensures blocked <==> T.Blocked(Table(), i, s, d)
    {
      var suffix := nodes[i].name[|s|..];
      if |d| + |suffix| + 1 > PATH_MAX {
        return true;
      }
      var candidate := d + suffix;
      var j := 0;
      while j < count
        invariant j <= count
        invariant forall k :: 0 <= k < j && k != i ==> nodes[k].name != candidate
      {
        if i != j && nodes[j].name == candidate {
          assert Table()[j].name == candidate;
          return true;
        }
        j := j + 1;
      }
      return false;
    }

    /** The second pass of fs_move: names are rewritten in place, one slot after the other. */
    method Rewrite(s: string, d: string)
      requires Valid() && '\0' !in d
      modifies nodes
      ensures Valid()
      ensures Table() == T.MovedTable(old(Table()), s, d)
    {
      var i := 0;
      while i < count
        invariant i <= count
        invariant forall k :: 0 <= k < i ==> nodes[k] == T.MovedNode(old(nodes[k]), k, s, d)
        invariant forall k :: i <= k < nodes.Length ==> nodes[k] == old(nodes[k])
        invariant Valid()
      {
        if AtOrInside(nodes[i].name, s) {
          var suffix := nodes[i].name[|s|..];
          nodes[i] := nodes[i].(name := d);
          if suffix != "" {
            nodes[i] := nodes[i].(name := nodes[i].name + suffix);
          }
          SyncEntry(i);
        }
        i := i + 1;
      }
    }

    /** fs_list: fills results with the slots of direct children. */
    method List(directory: string, limit: nat) returns (results: seq<nat>)
      requires Valid() && '\0' !in directory
      ensures results == T.List(Table(), directory, limit)
    {
      results := [];
      var fits, name := Normalize(directory);
      if !fits {
        return;
      }
      if name != "" {
        var dir := FindNode(name);
        if dir == count || nodes[dir].kind != T.DIR {
          return;
        }
      }
      results := CollectChildren(name, limit);
    }

    /** The loop of fs_list. */
    method CollectChildren(name: string, limit: nat) returns (results: seq<nat>)
      requires Valid()
      ensures results == T.Children(Table(), name, limit)
    {
      hide IsDirectChild;
      ghost var t := Table();
      results := [];
      var i := 0;
      while i < count && |results| < limit
        invariant i <= count && |results| <= limit
        invariant results == T.Children(t[..i], name, limit)
      {
        assert t[..i + 1][..i] == t[..i];
        if IsDirectChild(name, nodes[i].name) {
          results := results + [i];
        }
        i := i + 1;
      }
      ChildrenFull(t, i, name, limit);
    }
  }

  lemma {:induction false} FieldHasNoNul(field: seq<byte>)
    ensures '\0' !in I.FieldName(field)
  {
    if field != [] && field[0] != 0 {
      FieldHasNoNul(field[1..]);
      assert field[0] as char != '\0';
    }
  }

  lemma {:induction false} ItemHasNoNul(image: seq<byte>, i: nat)
    requires I.EntryStart(i) + I.ENTRY_SIZE <= |image|
    ensures '\0' !in I.ItemAt(image, i).path
  {
    FieldHasNoNul(image[I.EntryStart(i)..I.EntryStart(i) + I.NAME_MAX]);
  }

  /** After a failure nothing more is loaded. */
  lemma {:induction false} StoppedLoading(items: seq<L.Item>, n: nat)
    requires 0 < n <= |items| && L.LoadAll(items[..n]).count < n
    ensures L.LoadAll(items) == L.LoadAll(items[..n])
  {
    hide L.LoadFile;
    if n == |items| {
      assert items[..n] == items;
    } else {
      var p := items[..|items| - 1];
      assert p[..n] == items[..n];
      StoppedLoading(p, n);
    }
  }

  lemma {:induction false} ChildrenFull(t: T.Table, n: nat, name: string, limit: nat)
    requires n <= |t| && (|T.Children(t[..n], name, limit)| == limit || n == |t|)
    ensures T.Children(t, name, limit) == T.Children(t[..n], name, limit)
  {
    if n == |t| {
      assert t[..n] == t;
    } else {
      var p := t[..|t| - 1];
      assert p[..n] == t[..n];
      ChildrenFull(p, n, name, limit);
    }
  }
}
