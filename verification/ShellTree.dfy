/** The `tree` command (shell_tree_walk in kernel/shell.c) over the slot table. */
module ShellTree {
  import opened Basics
  import opened LibString
  import opened Paths
  import opened PathTests
  import opened FsTable
  import opened FsRefine
  import opened FsViews
  import Fs = FileSystem

  const VIEW_MAX := 32
  const NAME_KEPT := 62

  /** shell_entry_absolute_path: a slash and what of the name fits the buffer after it. */
  function ChildPath(name: string): string {
    "/" + if |name| <= NAME_KEPT then name else name[..NAME_KEPT]
  }

  /** The child path leads back to the child exactly if the name has at most 62 characters. */
  lemma {:induction false} ChildPathIs(name: string)
    requires Normal(name) && name != "" && |name| < PATH_MAX
    ensures Fits(ChildPath(name)) && NormalName(ChildPath(name)) == name <==> |name| <= 62
    ensures |name| <= 62 ==> Components(ChildPath(name)) == Components(name)
  {
    var kept := if |name| <= NAME_KEPT then name else name[..NAME_KEPT];
    assert ChildPath(name) == "" + "/" + kept;
    ComponentsConcat("", kept);
    NormalRoundTrip(name);
    JoinNonempty(Components(name));
    if |name| > NAME_KEPT {
      NameFacts(kept);
      CollapsedLength(kept);
    }
  }

  /** The name has 63 characters, and cutting the last one off leaves a slash at the end. */
  predicate Traps(name: string) {
    |name| > 62 && name[61] == '/'
  }

  /** The child path of such a name leads to the parent. */
  lemma {:induction false} TrapLeadsUp(name: string)
    requires Normal(name) && |name| < PATH_MAX && Traps(name)
    ensures Fits(ChildPath(name))
    ensures Components(name) != [] && Components(ChildPath(name)) == Components(name)[..|Components(name)| - 1]
  {
    var up, c := name[..NAME_KEPT - 1], name[NAME_KEPT..];
    assert name == up + "/" + c;
    assert ChildPath(name) == "" + "/" + (up + "/" + "");
    CollapsedLength(ChildPath(name));
    ComponentsConcat("", up + "/" + "");
    ComponentsConcat(up, "");
    ComponentsConcat(up, c);
    NormalRoundTrip(name);
    JoinNonempty(Components(name));
    ComponentsOfComponent(c);
  }

  /** The child path of any other name of 63 characters leads to a name of 62. */
  lemma {:induction false} CutName(name: string)
    requires Normal(name) && NAME_KEPT < |name| < PATH_MAX && !Traps(name)
    ensures NormalName(ChildPath(name)) == name[..NAME_KEPT]
  {
    var kept, c := name[..NAME_KEPT], name[NAME_KEPT];
    assert name == kept + [c];
    NormalRoundTrip(name);
    JoinNonempty(Components(name));
    CollapsedSnoc(kept, c);
    assert ChildPath(name) == "" + "/" + kept;
    ComponentsConcat("", kept);
  }

  // ---------- The walk ----------

  /** One printed line: its indentation and the slot whose entry it shows. */
  datatype Line = Line(depth: nat, slot: nat)

  /** shell_basename */
  function Basename(name: string): string {
    name[LastSlash(name) + 1..]
  }

  /** shell_print_entry_line on an entry whose name pointer reads `name`. */
  function EntryText(name: string, size: nat, kind: word): string {
    if kind == DIR then Basename(name) + "/" + "  <dir>\n"
    else Basename(name) + "  " + Dec(size) + " bytes  " + (if kind == PROGRAM then "program" else "text") + "\n"
  }

  function Indent(depth: nat): string {
    if depth == 0 then "" else Indent(depth - 1) + "  "
  }

  /** The characters of one line: what its entry reads, through the view. */
  function LineText(t: Table, past: seq<Node>, line: Line): string
    requires line.slot < |t|
  {
    var view := t[line.slot].view;
    Indent(line.depth) + EntryText(ViewedName(t + past, view), view.size, view.kind)
  }

  predicate Lines(t: Table, lines: seq<Line>) {
    forall i :: 0 <= i < |lines| ==> lines[i].slot < |t|
  }

  /** The characters of all lines. */
  function Printout(t: Table, past: seq<Node>, lines: seq<Line>): string
    requires Lines(t, lines)
  {
    if lines == [] then ""
    else Printout(t, past, lines[..|lines| - 1]) + LineText(t, past, lines[|lines| - 1])
  }

  lemma {:induction false} PrintoutConcat(t: Table, past: seq<Node>, a: seq<Line>, b: seq<Line>)
    requires Lines(t, a) && Lines(t, b)
    ensures Lines(t, a + b) && Printout(t, past, a + b) == Printout(t, past, a) + Printout(t, past, b)
  {
    hide LineText;
    if b == [] {
      assert a + b == a;
    } else {
      var n := |b| - 1;
      PrintoutConcat(t, past, a, b[..n]);
      assert (a + b)[..|a| + n] == a + b[..n];
    }
  }

  lemma {:induction false} BasenameIsLast(name: string)
    requires Normal(name) && name != ""
    ensures Components(name) != [] && Basename(name) == Components(name)[|Components(name)| - 1]
  {
    var k := Components(name);
    var n := |k| - 1;
    NormalRoundTrip(name);
    if n == 0 {
      SlashFreeMeansOneComponent(name);
      ComponentHasNoSlash(name);
    } else {
      JoinSplit(k, n);
      assert k[n..] == [k[n]] && IsComponent(k[n]);
      LastSlashIs(Join(k[..n]), k[n]);
    }
  }

  lemma {:induction false} IndentIs(depth: nat)
    ensures |Indent(depth)| == 2 * depth && forall i :: 0 <= i < 2 * depth ==> Indent(depth)[i] == ' '
  {
    if depth > 0 {
      IndentIs(depth - 1);
    }
  }

  /** Two blanks, a number in decimal digits, the unit, and what kind of file it is. */
  ghost predicate FileTail(rest: string, size: nat, program: bool) {
    exists digits :: && ZeroToNine(digits) && Numeral(digits) == size && (digits[0] == '0' ==> digits == "0")
                     && rest == "  " + digits + (if program then " bytes  program\n" else " bytes  text\n")
  }

  /** A printed line: two blanks for each level of depth, the name, and of a directory "/  <dir>", of a
      file its length in bytes and whether it is a program. */
  ghost predicate LineReads(text: string, depth: nat, name: string, size: nat, kind: word) {
    var d := 2 * depth;
    && |text| >= d + |name| && (forall i :: 0 <= i < d ==> text[i] == ' ')
    && text[d..d + |name|] == name
    && if kind == 3 then text[d + |name|..] == "/  <dir>\n"
       else FileTail(text[d + |name|..], size, kind == 2)
  }

  /** A line shows what its view leads to: the last component of the name there, and the type and length
      in the view. */
  lemma {:induction false} LineShowsView(t: Table, past: seq<Node>, line: Line)
    requires line.slot < |t| && t[line.slot].view.target < |t + past|
    requires var name := (t + past)[t[line.slot].view.target].name; Normal(name) && name != ""
    ensures var view := t[line.slot].view;
            var key := KeyOf((t + past)[view.target]);
            key != [] && LineReads(LineText(t, past, line), line.depth, key[|key| - 1], view.size, view.kind)
  {
    hide Components, Join, LineReads, EntryText;
    var view := t[line.slot].view;
    var name := (t + past)[view.target].name;
    BasenameIsLast(name);
    IndentIs(line.depth);
    EntryReads(Indent(line.depth), line.depth, name, view.size, view.kind);
  }

  /** Where views agree, that is its own node: the last component of the node's path, its type, and its
      length. */
  lemma {:induction false} LineShowsNode(t: Table, past: seq<Node>, line: Line)
    requires WellFormed(t) && Coherent(t) && line.slot < |t|
    ensures var key, e := KeyOf(t[line.slot]), EntryOf(t[line.slot]);
            key != [] && LineReads(LineText(t, past, line), line.depth, key[|key| - 1], |e.bytes|, e.kind)
  {
    hide Components, Join, LineReads, LineText;
    assert NodeOk(t[line.slot]) && AgreesAt(t, line.slot);
    LineShowsView(t, past, line);
  }

  lemma {:induction false} EntryReads(indent: string, depth: nat, name: string, size: nat, kind: word)
    requires |indent| == 2 * depth && (forall i :: 0 <= i < 2 * depth ==> indent[i] == ' ')
    ensures LineReads(indent + EntryText(name, size, kind), depth, Basename(name), size, kind)
  {
    hide Basename, EntryText, FileTail;
    var base := Basename(name);
    var tail := EntryTail(name, size, kind);
    assert indent + (base + tail) == indent + base + tail;
    var text := indent + base + tail;
    assert text[..2 * depth] == indent;
    assert text[2 * depth..2 * depth + |base|] == base && text[2 * depth + |base|..] == tail;
    assert forall i :: 0 <= i < 2 * depth ==> text[i] == text[..2 * depth][i];
  }

  /** What of the text stands behind the name. */
  lemma {:induction false} EntryTail(name: string, size: nat, kind: word) returns (tail: string)
    ensures EntryText(name, size, kind) == Basename(name) + tail
    ensures kind == 3 ==> tail == "/  <dir>\n"
    ensures kind != 3 ==> FileTail(tail, size, kind == 2)
  {
    hide Basename, Dec, Numeral, ZeroToNine;
    var base, digits := Basename(name), Dec(size);
    if kind == DIR {
      tail := "/  <dir>\n";
      assert base + "/" + "  <dir>\n" == base + ("/" + "  <dir>\n");
      assert "/" + "  <dir>\n" == "/  <dir>\n";
    } else {
      NumeralOfDec(size);
      var what := if kind == PROGRAM then "program" else "text";
      var unit := if kind == PROGRAM then " bytes  program\n" else " bytes  text\n";
      tail := "  " + digits + unit;
      UnitText();
      assert " bytes  " + what + "\n" == unit;
      assert base + "  " + digits + " bytes  " + what + "\n" == base + ("  " + digits + (" bytes  " + what + "\n"));
    }
  }

  lemma {:induction false} UnitText()
    ensures " bytes  " + "program" + "\n" == " bytes  program\n"
    ensures " bytes  " + "text" + "\n" == " bytes  text\n"
  {
  }

  lemma {:induction false} ListedInUse(t: Table, path: string)
    ensures InUse(t, List(t, path, VIEW_MAX))
  {
    var es := List(t, path, VIEW_MAX);
    assert forall i :: 0 <= i < |es| ==> es[i] in es;
  }

  predicate InUse(t: Table, es: seq<nat>) {
    forall i :: 0 <= i < |es| ==> es[i] < |t|
  }

  /** What shell_tree_walk prints, on any table, if its recursion goes at most `fuel` calls deep; None
      if it goes deeper. Views are followed wherever they lead: `past` are the slots above the count,
      which views left over from fs_remove may still reach. */
  function Walk(t: Table, past: seq<Node>, path: string, depth: nat, fuel: nat): Option<seq<Line>>
    decreases fuel, 0
  {
    ListedInUse(t, path);
    if fuel == 0 then None else WalkFrom(t, past, List(t, path, VIEW_MAX), depth, fuel - 1)
  }

  function WalkFrom(t: Table, past: seq<Node>, es: seq<nat>, depth: nat, fuel: nat): Option<seq<Line>>
    requires InUse(t, es)
    decreases fuel, 1, |es|
  {
    if es == [] then Some([])
    else
      var block, others := Block(t, past, es[0], depth, fuel), WalkFrom(t, past, es[1..], depth, fuel);
      if block.Some? && others.Some? then Some(block.value + others.value) else None
  }

  /** The path under which the walk goes on below entry e. */
  function Below(t: Table, past: seq<Node>, e: nat): string
    requires e < |t|
  {
    ChildPath(ViewedName(t + past, t[e].view))
  }

  /** The lines printed for entry e and below it. */
  function Block(t: Table, past: seq<Node>, e: nat, depth: nat, fuel: nat): Option<seq<Line>>
    requires e < |t|
    decreases fuel, 1, 0
  {
    if t[e].view.kind != DIR then Some([Line(depth, e)])
    else
      var below := Walk(t, past, Below(t, past, e), depth + 1, fuel);
      if below.Some? then Some([Line(depth, e)] + below.value) else None
  }

  lemma {:induction false} WalkFromSplit(t: Table, past: seq<Node>, es: seq<nat>, i: nat, depth: nat, fuel: nat)
    requires InUse(t, es) && i <= |es| && WalkFrom(t, past, es, depth, fuel).Some?
    ensures WalkFrom(t, past, es[..i], depth, fuel).Some? && WalkFrom(t, past, es[i..], depth, fuel).Some?
    ensures WalkFrom(t, past, es, depth, fuel).value ==
            WalkFrom(t, past, es[..i], depth, fuel).value + WalkFrom(t, past, es[i..], depth, fuel).value
  {
    hide Block;
    if i == 0 {
      assert es[..0] == [] && es[0..] == es;
    } else {
      WalkFromSplit(t, past, es[1..], i - 1, depth, fuel);
      assert es[..i][1..] == es[1..][..i - 1] && es[1..][i - 1..] == es[i..];
    }
  }

  /** More fuel than the walk needs changes nothing. */
  lemma {:induction false} FuelIsEnough(t: Table, past: seq<Node>, path: string, depth: nat, fuel: nat, more: nat)
    requires Walk(t, past, path, depth, fuel).Some? && fuel <= more
    ensures Walk(t, past, path, depth, more) == Walk(t, past, path, depth, fuel)
    decreases fuel, 0
  {
    hide List;
    ListedInUse(t, path);
    FuelIsEnoughFrom(t, past, List(t, path, VIEW_MAX), depth, fuel - 1, more - 1);
  }

  lemma {:induction false} FuelIsEnoughFrom(t: Table, past: seq<Node>, es: seq<nat>, depth: nat, fuel: nat, more: nat)
    requires InUse(t, es) && WalkFrom(t, past, es, depth, fuel).Some? && fuel <= more
    ensures WalkFrom(t, past, es, depth, more) == WalkFrom(t, past, es, depth, fuel)
    decreases fuel, 1, |es|
  {
    hide Walk;
    if es != [] {
      if t[es[0]].view.kind == DIR {
        FuelIsEnough(t, past, Below(t, past, es[0]), depth + 1, fuel, more);
      }
      FuelIsEnoughFrom(t, past, es[1..], depth, fuel, more);
    }
  }

  lemma {:induction false} PrintoutNothing(t: Table, past: seq<Node>)
    ensures Lines(t, []) && Printout(t, past, []) == ""
  {
  }

  lemma {:induction false} PrintoutOne(t: Table, past: seq<Node>, line: Line)
    requires line.slot < |t|
    ensures Lines(t, [line]) && Printout(t, past, [line]) == LineText(t, past, line)
  {
    hide LineText;
    assert [line][..0] == [];
  }

  lemma {:induction false} WalkLinesInUse(t: Table, past: seq<Node>, path: string, depth: nat, fuel: nat)
    requires Walk(t, past, path, depth, fuel).Some?
    ensures Lines(t, Walk(t, past, path, depth, fuel).value)
    decreases fuel, 0
  {
    hide List;
    ListedInUse(t, path);
    WalkFromLinesInUse(t, past, List(t, path, VIEW_MAX), depth, fuel - 1);
  }

  lemma {:induction false} WalkFromLinesInUse(t: Table, past: seq<Node>, es: seq<nat>, depth: nat, fuel: nat)
    requires InUse(t, es) && WalkFrom(t, past, es, depth, fuel).Some?
    ensures Lines(t, WalkFrom(t, past, es, depth, fuel).value)
    decreases fuel, 1, |es|
  {
    hide Walk;
    if es != [] {
      if t[es[0]].view.kind == DIR {
        WalkLinesInUse(t, past, Below(t, past, es[0]), depth + 1, fuel);
      }
      WalkFromLinesInUse(t, past, es[1..], depth, fuel);
    }
  }

  /** terminal_write_dec */
  method PrintDec(value: word) returns (text: string)
    ensures text == Dec(value)
  {
    var buffer := new char[16];
    U32ToDec(value, buffer);
    text := CString(buffer[..]);
  }

  /** shell_print_entry_line */
  method PrintEntry(fs: Fs.FileSystem, e: nat) returns (text: string)
    requires fs.Valid() && e < fs.count
    ensures var view := fs.nodes[e].view;
            text == EntryText(ViewedName(fs.nodes[..], view), view.size, view.kind)
  {
    hide CString, Dec, Basename;
    var view := fs.nodes[e].view;
    var name := fs.nodes[view.target].name;
    assert ViewedName(fs.nodes[..], view) == name;
    text := Basename(name);
    if view.kind == DIR {
      return text + "/" + "  <dir>\n";
    }
    var digits := PrintDec(view.size);
    text := text + "  " + digits + " bytes  ";
    text := text + if view.kind == PROGRAM then "program" else "text";
    text := text + "\n";
  }

  method PrintIndent(depth: nat) returns (text: string)
    ensures text == Indent(depth)
  {
    text := "";
    var indent := 0;
    while indent < depth
      invariant indent <= depth && text == Indent(indent)
    {
      text := text + "  ";
      indent := indent + 1;
    }
  }

  /** shell_tree_walk itself, on any table: it returns wherever its recursion is finite, and has then
      printed the text of the lines of the walk. */
  method TreeWalk(fs: Fs.FileSystem, path: string, depth: nat, ghost fuel: nat)
    returns (text: string, ghost lines: seq<Line>)
    requires fs.Valid() && '\0' !in path
    requires Walk(fs.Table(), fs.nodes[fs.count..], path, depth, fuel).Some?
    ensures Walk(fs.Table(), fs.nodes[fs.count..], path, depth, fuel) == Some(lines)
    ensures Lines(fs.Table(), lines) && text == Printout(fs.Table(), fs.nodes[fs.count..], lines)
    decreases fuel
  {
    hide List, WalkFrom, Walk, Components, Join, EntryText, Printout, Lines;
    var entries := fs.List(path, VIEW_MAX);
    ghost var t, past := fs.Table(), fs.nodes[fs.count..];
    assert fs.nodes[..] == t + past && fuel > 0 by {
      NoFuel(t, past, path, depth);
    }
    WalkIs(t, past, path, depth, fuel);
    text, lines := "", [];
    assert Lines(t, lines) && Printout(t, past, lines) == "" by {
      PrintoutNothing(t, past);
    }
    var i := 0;
    WalkFromEmpty(t, past, entries[..0], depth, fuel - 1);
    while i < |entries|
      invariant i <= |entries|
      invariant WalkFrom(t, past, entries[..i], depth, fuel - 1) == Some(lines)
      invariant Lines(t, lines) && text == Printout(t, past, lines)
    {
      var e := entries[i];
      WalkFromNext(t, past, entries, i, depth, fuel - 1);
      var indent := PrintIndent(depth);
      var entry := PrintEntry(fs, e);
      ghost var printed := lines;
      PrintoutOne(t, past, Line(depth, e));
      PrintoutConcat(t, past, lines, [Line(depth, e)]);
      text := text + (indent + entry);
      lines := lines + [Line(depth, e)];
      if fs.nodes[e].view.kind == DIR {
        assert Below(t, past, e) == ChildPath(fs.nodes[..][fs.nodes[e].view.target].name);
        var more, below := TreeWalk(fs, ChildPath(fs.nodes[fs.nodes[e].view.target].name), depth + 1, fuel - 1);
        PrintoutConcat(t, past, lines, below);
        text := text + more;
        lines := lines + below;
      }
      assert lines == printed + Block(t, past, e, depth, fuel - 1).value;
      i := i + 1;
    }
    assert entries[..i] == entries;
  }

  lemma {:induction false} NoFuel(t: Table, past: seq<Node>, path: string, depth: nat)
    ensures Walk(t, past, path, depth, 0).None?
  {
  }

  lemma {:induction false} WalkFromEmpty(t: Table, past: seq<Node>, es: seq<nat>, depth: nat, fuel: nat)
    requires es == []
    ensures WalkFrom(t, past, es, depth, fuel) == Some([])
  {
  }

  lemma {:induction false} WalkIs(t: Table, past: seq<Node>, path: string, depth: nat, fuel: nat)
    requires fuel > 0
    ensures InUse(t, List(t, path, VIEW_MAX))
    ensures Walk(t, past, path, depth, fuel) == WalkFrom(t, past, List(t, path, VIEW_MAX), depth, fuel - 1)
  {
    ListedInUse(t, path);
  }

  /** One more entry printed. */
  lemma {:induction false} WalkFromNext(t: Table, past: seq<Node>, es: seq<nat>, i: nat, depth: nat, fuel: nat)
    requires InUse(t, es) && i < |es| && WalkFrom(t, past, es, depth, fuel).Some?
    ensures es[i] < |t| && Block(t, past, es[i], depth, fuel).Some? && WalkFrom(t, past, es[..i], depth, fuel).Some?
    ensures WalkFrom(t, past, es[..i + 1], depth, fuel) ==
            Some(WalkFrom(t, past, es[..i], depth, fuel).value + Block(t, past, es[i], depth, fuel).value)
  {
    hide Block;
    WalkFromSplit(t, past, es, i + 1, depth, fuel);
    assert es[..i + 1][..i] == es[..i] && es[..i + 1][i..] == [es[i]];
    WalkFromSplit(t, past, es[..i + 1], i, depth, fuel);
    assert [es[i]][1..] == [];
    var block := Block(t, past, es[i], depth, fuel);
    assert WalkFrom(t, past, [es[i]], depth, fuel).Some? ==> block.value + [] == block.value;
  }
}
