/** From boot on: what fs_init leaves, on any image, and every run after it (kernel/fs.c). */
module FsBoot {
  import opened Basics
  import opened Paths
  import opened FsTable
  import opened FsMap
  import opened FsRefine
  import opened FsRuns
  import opened FsViews
  import opened FsLoad
  import opened Initrd

  // ---------- When the table is a tree ----------

  /** No entry of the image clashes with those before it. */
  ghost predicate GoodImage(image: Option<seq<byte>>)
    requires image.Some? ==> Readable(image.value)
  {
    image.Some? && Recognized(image.value) ==>
      var items := Items(image.value);
      forall n :: 0 <= n < |items| ==> !Clash(items, n)
  }

  /** Boot leaves a tree exactly if the image is good. */
  lemma {:induction false} BootIsTree(image: Option<seq<byte>>)
    requires image.Some? ==> Readable(image.value)
    ensures TreeTable(Init(image).table) <==> GoodImage(image)
  {
    hide Run, TreeTable, BuiltinOps, LoadAll, Items, Recognized, Readable, Clash;
    BuiltinIsTree();
    EmptyIsTree();
    if image.Some? && Recognized(image.value) {
      LoadIsTree(Items(image.value));
    }
  }

  /** Failing input: an image with the same top-level file twice. */
  lemma {:induction false} TwiceInImage(file: SourceFile)
    requires Packable([file, file]) && IsComponent(file.path) && '\0' !in file.path && |file.content| <= MAX_SIZE
    ensures Readable(ImageOf([file, file])) && !TreeTable(Init(Some(ImageOf([file, file]))).table)
  {
    hide ImageOf, Items, TreeTable, LoadAll, Packable, Components, Run, BuiltinOps;
    var files, f := [file, file], Item(file.path, file.content, EntryType(file.path));
    ImageRoundTrip(files);
    assert Items(ImageOf(files)) == [f, f];
    ComponentsOfComponent(file.path);
    NameIsLoadable(files);
    TwiceIsNoTree(f);
    EmptyIsTree();
    InitIs(ImageOf(files));
  }

  lemma {:induction false} NameIsLoadable(files: seq<SourceFile>)
    requires Packable(files) && files != [] && |files[0].content| <= MAX_SIZE && Components(files[0].path) != []
    ensures Loadable(Item(files[0].path, files[0].content, EntryType(files[0].path)))
  {
    assert PackableAt(files, 0);
    CollapsedLength(files[0].path);
  }

  /** Every run after boot, from the built-in tree or from an image, keeps a tree, exactly if the image
      is good. */
  lemma {:induction false} BootThenRun(image: Option<seq<byte>>)
    requires image.Some? ==> Readable(image.value)
    ensures (forall ops :: TreeTable(Run(Init(image).table, ops))) <==> GoodImage(image)
  {
    hide TreeTable, GoodImage, Init, Run, Readable;
    var t := Init(image).table;
    BootIsTree(image);
    if GoodImage(image) {
      forall ops
        ensures TreeTable(Run(t, ops))
      {
        RunRefines(t, ops);
      }
    } else {
      RunNothing(t);
      var ops: seq<Op> := [];
      assert !TreeTable(Run(t, ops));
    }
  }

  lemma {:induction false} RunNothing(t: Table)
    ensures Run(t, []) == t
  {
  }

  // ---------- Booting without an image ----------

  lemma {:induction false} TopPath(c: string)
    requires IsComponent(c) && |c| < 63
    ensures Names("/" + c, [c])
  {
    CollapsedLength("/" + c);
    assert "/" + c == "" + "/" + c;
    ComponentsConcat("", c);
    ComponentsOfComponent(c);
  }

  lemma {:induction false} InnerPath(d: string, c: string)
    requires IsComponent(d) && IsComponent(c) && |d| + |c| < 62
    ensures Names("/" + d + "/" + c, [d, c])
  {
    CollapsedLength("/" + d + "/" + c);
    TopPath(d);
    ComponentsConcat("/" + d, c);
    ComponentsOfComponent(c);
    assert [d] + [c] == [d, c];
  }

  /** The map of the built-in tree. */
  function BuiltinMap(): FsMap {
    map[["docs"] := Entry(3, []),
        ["home"] := Entry(3, []),
        ["README.TXT"] := Entry(1, Text(README)),
        ["docs", "MOTD.TXT"] := Entry(1, Text(MOTD)),
        ["home", "WELCOME.TXT"] := Entry(1, Text(HOME))]
  }

  lemma {:induction false} BuiltinNames()
    ensures Names("/docs", ["docs"]) && Names("/home", ["home"]) && Names("/README.TXT", ["README.TXT"])
    ensures Names("/docs/MOTD.TXT", ["docs", "MOTD.TXT"])
    ensures Names("/home/WELCOME.TXT", ["home", "WELCOME.TXT"])
  {
    hide Names, Components, Collapsed;
    TopPath("docs");
    TopPath("home");
    TopPath("README.TXT");
    InnerPath("docs", "MOTD.TXT");
    InnerPath("home", "WELCOME.TXT");
    assert "/" + "docs" == "/docs" && "/" + "home" == "/home" && "/" + "README.TXT" == "/README.TXT";
    assert "/" + "docs" + "/" + "MOTD.TXT" == "/docs/MOTD.TXT";
    assert "/" + "home" + "/" + "WELCOME.TXT" == "/home/WELCOME.TXT";
  }

  lemma {:induction false} BuiltinMapRun()
    ensures RunMap(map[], BuiltinOps()) == BuiltinMap()
  {
    hide Components, Collapsed, Text;
    BuiltinNames();
    var ops := BuiltinOps();
    var a := StepMap(map[], ops[0]).files;
    assert a == map[["docs"] := Entry(DIR, [])];
    var b := StepMap(a, ops[1]).files;
    assert b == a[["home"] := Entry(DIR, [])];
    TextFits();
    var c := StepMap(b, ops[2]).files;
    assert c == b[["README.TXT"] := Entry(TEXT, Text(README))];
    var d := StepMap(c, ops[3]).files;
    assert ["docs", "MOTD.TXT"][..1] == ["docs"];
    assert d == c[["docs", "MOTD.TXT"] := Entry(TEXT, Text(MOTD))];
    var e := StepMap(d, ops[4]).files;
    assert ["home", "WELCOME.TXT"][..1] == ["home"];
    assert e == d[["home", "WELCOME.TXT"] := Entry(TEXT, Text(HOME))];
    hide StepMap;
    assert ops[1..][1..][1..][1..] == [ops[4]] && ops[1..][1..][1..] == [ops[3], ops[4]];
    assert ops[1..][1..] == [ops[2], ops[3], ops[4]] && ops[1..] == [ops[1], ops[2], ops[3], ops[4]];
    assert [ops[4]][1..] == [];
  }

  /** A text as bytes: one for each character. */
  lemma {:induction false} TextIs(s: string)
    requires forall i :: 0 <= i < |s| ==> s[i] as int < 256
    ensures |Text(s)| == |s| && forall i :: 0 <= i < |s| ==> Text(s)[i] == s[i] as int
  {
  }

  lemma {:induction false} TextFits()
    ensures |Text(README)| <= MAX_SIZE && |Text(MOTD)| <= MAX_SIZE && |Text(HOME)| <= MAX_SIZE
  {
  }

  /** Without an image, with one that is not recognized, or with one out of which nothing can be loaded,
      boot leaves exactly two directories and three text files, each with its own text; otherwise it keeps
      what could be loaded. */
  lemma {:induction false} BuiltinHolds(image: Option<seq<byte>>)
    requires image.Some? ==> Readable(image.value)
    ensures var loaded := image.Some? && Recognized(image.value) && LoadAll(Items(image.value)).table != [];
            && Init(image).ok == loaded
            && (!loaded ==> Abs(Init(image).table) == BuiltinMap())
            && (loaded ==> Init(image).table == LoadAll(Items(image.value)).table)
  {
    hide Run, RunMap, BuiltinOps, BuiltinMap, TreeTable, LoadAll, Items, Recognized, Readable;
    EmptyIsTree();
    RunRefines([], BuiltinOps());
    BuiltinMapRun();
  }

  // ---------- Views ----------

  ghost predicate Settled(t: Table) {
    |t| <= MAX_ENTRIES && Coherent(t)
  }

  lemma {:induction false} EnsureSettles(t: Table, name: string, start: nat)
    requires start <= |name| && Settled(t)
    ensures Settled(EnsureDirs(t, name, start).table)
    decreases |name| - start
  {
    hide Find, Settled;
    var slash := NextSlash(name, start);
    if slash < |name| && slash < PATH_MAX {
      if Find(t, name[..slash]) < |t| {
        EnsureSettles(t, name, slash + 1);
      } else {
        PushSettles(t, name[..slash], DIR);
        EnsureSettles(PushNode(t, name[..slash], DIR).table, name, slash + 1);
      }
    }
  }

  lemma {:induction false} PushSettles(t: Table, name: string, kind: word)
    requires Settled(t)
    ensures Settled(PushNode(t, name, kind).table)
  {
    var t' := PushNode(t, name, kind).table;
    forall k | 0 <= k < |t'|
      ensures AgreesAt(t', k)
    {
      assert k < |t| ==> AgreesAt(t, k);
    }
  }

  lemma {:induction false} LoadSettles(t: Table, f: Item)
    requires Settled(t)
    ensures Settled(LoadFile(t, f).table)
  {
    hide Components, Join, EnsureDirs, Collapsed, Splice;
    var name := NormalName(f.path);
    EnsureSettles(t, name, 0);
    var chain := EnsureDirs(t, name, 0).table;
    var t' := LoadFile(t, f).table;
    forall k | 0 <= k < |t'|
      ensures AgreesAt(t', k)
    {
      assert k < |chain| ==> AgreesAt(chain, k);
    }
  }

  lemma {:induction false} LoadAllSettles(items: seq<Item>)
    ensures Settled(LoadAll(items).table)
  {
    hide LoadFile, Settled;
    if items == [] {
      NothingSettles();
    } else {
      LoadAllSettles(items[..|items| - 1]);
      LoadSettles(LoadAll(items[..|items| - 1]).table, items[|items| - 1]);
    }
  }

  lemma {:induction false} NothingSettles()
    ensures Settled([])
  {
  }

  /** After boot, whatever the image, every view describes its node. */
  lemma {:induction false} BootSettles(image: Option<seq<byte>>)
    requires image.Some? ==> Readable(image.value)
    ensures Settled(Init(image).table)
  {
    hide LoadAll, Items, Recognized, Readable, Run, Coherent;
    if image.Some? && Recognized(image.value) {
      LoadAllSettles(Items(image.value));
    }
    NothingSettles();
    NothingRemoved([], BuiltinOps());
    RunCoherent([], BuiltinOps());
    assert BuiltinOps()[..5] == BuiltinOps();
    BuiltinIsTree();
  }

  lemma {:induction false} SettledIsAhead(t: Table)
    requires Settled(t)
    ensures Ahead(t)
  {
    forall k | 0 <= k < |t|
      ensures k <= t[k].view.target < MAX_ENTRIES
      ensures t[k].view.size == t[k].size && t[k].view.kind == t[k].kind
    {
      assert AgreesAt(t, k);
    }
  }

  /** Views from boot on, whatever the image: their pointers never lead down; they describe their nodes
      after each operation exactly if no slot other than the last is ever removed; and they always
      would if fs_remove re-synced the slots it shifts. */
  lemma {:induction false} BootViews(image: Option<seq<byte>>, ops: seq<Op>)
    requires image.Some? ==> Readable(image.value)
    ensures var t := Init(image).table;
            && Ahead(Run(t, ops)) && Coherent(RunRepaired(t, ops))
            && (NeverShifts(t, ops) <==> forall n :: 0 <= n <= |ops| ==> Coherent(Run(t, ops[..n])))
  {
    hide Init, Run, RunRepaired, Readable, Ahead, Coherent, NeverShifts;
    var t := Init(image).table;
    BootSettles(image);
    SettledIsAhead(t);
    RunKeepsAhead(t, ops);
    RunCoherent(t, ops);
    RepairedRunAgrees(t, ops);
  }
}
