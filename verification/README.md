# SNSX kernel: verification model

A Dafny model of the hosted parts of the SNSX kernel: the writable RAM file system and its boot
image, the shell's path resolver, calculator, tokenizer and line reader, the keyboard ring, the text
screen and the task table. Code that changes state step by step in C is imperative here (classes,
arrays, loops); each such method is proved equal to a specification function, and the properties are
lemmas about those functions.

## How the parts fit

| file | what it holds |
|---|---|
| `Basics.dfy` | 32-bit words and numbers, bytes, optional values |
| `LibString.dfy` | character classes, NUL-terminated text, decimal numbers (`lib/string.c`) |
| `Paths.dfy`, `PathTests.dfy` | path components, the normalizer, and what the string tests of `kernel/fs.c` mean for component lists |
| `FsTable.dfy` | the slot table as a value and every file-system operation on it |
| `FileSystem.dfy` | the same operations in place: an array of 64 nodes and a count |
| `FsMap.dfy` | the reference: a map from paths to contents, without slots or strings |
| `FsRefine.dfy`, `FsMove.dfy`, `FsRuns.dfy` | the table refines the map, for each operation and over runs |
| `FsTree.dfy` | the directory tree as an inductive value; `fs_move` as cut and graft |
| `FsViews.dfy` | entry views, and a repair of `fs_remove` |
| `ShellTree.dfy`, `ShellTreeEnds.dfy` | the `tree` walk that reads through views; on any table: when it ends, and what it then prints |
| `ShellTreeShape.dfy`, `ShellTreeEndless.dfy` | the walk on directory trees with agreeing views; two runs after which it does not end |
| `FsLoad.dfy`, `Initrd.dfy`, `FsBoot.dfy` | boot: the image layout, the packer, the loader; every run after boot |
| `ShellPaths.dfy` | the path resolver |
| `Calc.dfy`, `CalcGrammar.dfy`, `CalcText.dfy`, `Words.dfy` | the calculator, its grammar, printed and tokenized texts |
| `Keyboard.dfy`, `Terminal.dfy`, `ShellReadline.dfy`, `Tasks.dfy` | interrupt-driven state |

Conventions. A C string is a Dafny string without NUL. A path is compared through its *components*,
the non-empty pieces between slashes; `Key` is a list of components. `TreeTable(t)` says that the
slot table is well formed (names normal, distinct, non-empty, at most 63 characters; directories of
size 0; every buffer zero past the contents; at most 64 slots) and that the map `Abs(t)` it stands
for is a tree: everything above a stored path is a directory. Arithmetic the C code does in
`int32_t` is modelled with explicit overflow: the calculator's outcome `Undefined` is the one after
which C promises nothing.

## Where the code does not do what it should

* Entry views. `fs_remove` shifts nodes together with their name and data pointers
  (kernel/fs.c:409-411). Views agree with their nodes over a run exactly if the run never removes a
  slot other than the last (`FsViews.RunCoherent`); otherwise a lookup can name another node
  (`FsViews.WrongName`). Re-syncing each shifted slot in that loop repairs it and changes nothing but
  views (`FsViews.RepairedRunCoherent`).
* `tree` may recurse for ever. On any table it ends exactly if no descent from its start, from a listed
  directory entry to an entry listed at the path its view leads to, meets an entry twice
  (`ShellTreeEnds.WalkEndsUnlessLooping`). Stale views can close such a loop:
  `ShellTreeEndless.EndlessWalk`. On a directory tree with agreeing views there is one other way: the
  child path built for the walk keeps 62 characters of a name while names may have 63
  (kernel/shell.c:164-167), and if the 62nd is a slash, that path is the parent's
  (`ShellTree.TrapLeadsUp`, `ShellTreeEndless.EndlessLongName`; `mkdir /p`, `mkdir /p/c`,
  `mv /p /<61 characters>` gets there, `ShellTreeEndless.NestedByMove`). There the walk ends exactly if
  it lists no such directory (`ShellTreeShape.WalkEnds`), and it leaves nodes out exactly if some
  directory has more than 32 children (`ShellTreeShape.WalkIsComplete`).
* The loader never looks whether a path is taken. A list of files leaves a directory tree exactly if no
  file clashes with those before it (`FsLoad.LoadIsTree`, `FsBoot.BootIsTree`); an image with the same
  file twice does not (`FsBoot.TwiceInImage`).
* `shell_parent_directory` and resolving `..` differ exactly for paths longer than 60 characters
  (`ShellPaths.ParentIsDotDot`).
* The calculator cannot read back the smallest 32-bit number it can print
  (`CalcText.PrintedNumberReadsBack`).

## Model

| member | source | states |
|---|---|---|
| Paths.NormalizePath | kernel/fs.c:57-93 | succeeds exactly when the collapsed text, one trailing slash counted, has at most 63 characters, and then leaves the components joined by "/" in the buffer |
| Paths.CollapsedSnoc | kernel/fs.c:67-86 | one more character read extends the collapsed text by that character, by one slash, or not at all |
| PathTests.NormalizeIdempotent | kernel/fs.c:57-93 | normalizing a normalized path changes nothing and always fits |
| PathTests.NormalFormsAgree | kernel/fs.c:57-93 | two paths have equal normal forms exactly when their component lists are equal |
| PathTests.ParentDropsLast | kernel/fs.c:95-110 | the parent path is normal and names the components without the last |
| PathTests.DirectChildIsOneMore | kernel/fs.c:112-122 | the direct-child test holds exactly for names with one component more than the directory |
| PathTests.InsideIsProperPrefix | kernel/fs.c:142-153 | the textual prefix test followed by "/" is the proper-prefix relation on components |
| PathTests.RenamedIsRekeyed | kernel/fs.c:467-475 | replacing a textual prefix of a name replaces the prefix of its components, and the result is normal |
| FsRefine.FindIs | kernel/fs.c:124-140 | scanning the slots finds a name exactly when the map has its path, with the map's contents |
| FsRefine.MkdirRefines | kernel/fs.c:326-342 | on a tree: succeeds exactly when the path is a directory already, or free with a directory parent and room in the table; adds exactly that directory |
| FsRefine.WriteRefines | kernel/fs.c:344-376 | on a tree: replaces or creates exactly one file with the given bytes and type, under exactly the stated conditions |
| FsRefine.AppendRefines | kernel/fs.c:378-396 | on a tree: a text file gets its old bytes followed by the new, a free path is created as text, all else is refused |
| FsRefine.RemoveRefines | kernel/fs.c:398-418 | on a tree: removes exactly one path, exactly when nothing lies below it |
| FsRefine.AbsRemove | kernel/fs.c:409-412 | shifting the slots down keeps the others in order, well formed, and deletes one key of the map |
| FsRefine.CopyRefines | kernel/fs.c:420-437 | on a tree: the free destination gets the source file's bytes and type |
| FsMove.CollisionNeverFires | kernel/fs.c:476-480 | on a tree no renamed path meets another name, so a slot is refused only for length |
| FsMove.MoveExactly | kernel/fs.c:439-498 | on a tree: the exact condition for success; on success every slot at or under the source gets the destination plus its old suffix, slot order and contents stay; a refusal changes nothing |
| FsMove.MoveRefines | kernel/fs.c:439-498 | on a tree: verdict and result are those of renaming the subtree in the map |
| FsMove.MoveBack | kernel/fs.c:439-498 | after a successful move the opposite move succeeds and restores every slot, views included where they agreed before |
| FsMap.MoveKeepsTree | kernel/fs.c:484-495 | renaming a subtree keeps the map a tree of the same size |
| FsMap.MovedInjective | kernel/fs.c:463-482 | no two paths end up at the same place |
| FsMap.StepKeepsTree | kernel/fs.c:326-498 | every operation turns a tree into a tree and leaves it as it is when refused |
| FsTree.MoveIsCutAndGraft | kernel/fs.c:439-498 | the moved map is depicted by the inductive tree with the source's subtree cut out and grafted in at the destination |
| FsTree.TreeUnique | kernel/fs.c:439-498 | trees that show the same at every path are equal, so the depicting tree is unique |
| FsTree.BuildShows | kernel/fs.c:439-498 | the tree built from a tree-shaped map shows exactly the map's contents |
| FsTree.MoveIsTreeSurgery | kernel/fs.c:439-498 | the tree of the table after a successful move is, as a value, the cut and grafted tree of the table before |
| FsRuns.StepRefines | kernel/fs.c:326-498 | each public operation refines its map operation and keeps the table a tree |
| FsRuns.RefusalTouchesNothing | kernel/fs.c:326-498 | an operation that reports failure leaves the slots exactly as they were |
| FsRuns.RunRefines | kernel/fs.c:326-498 | over every run the table stays a tree and follows the run of the map operations |
| FsRuns.KindsStay | kernel/fs.c:326-498 | no operation turns a file into a directory or back; only removal loses a node, and only the one it names |
| FsRuns.RunKindsStay | kernel/fs.c:326-498 | over every run a node, wherever moves take it, stays a file or a directory, and is gone exactly if a removal named it |
| FsRuns.RunFrame | kernel/fs.c:326-498 | a run leaves alone every path its operations neither name nor carry along |
| FsRuns.LookupIs | kernel/fs.c:293-300 | a lookup answers with the node the map holds, and with none exactly when it holds none |
| FsRuns.WriteThenLookup | kernel/fs.c:344-376 | bytes written are read back |
| FsRuns.AppendThenLookup | kernel/fs.c:378-396 | after an append the old bytes followed by the new are read back |
| FsRuns.CopyIsIndependent | kernel/fs.c:420-437 | a copy equals its source and still does after any run that avoids the copy |
| FileSystem.FileSystem.FindNode | kernel/fs.c:124-131 | the in-place scan returns the first slot with the name |
| FileSystem.FileSystem.Mkdir | kernel/fs.c:326-342 | the in-place operation does to the slots what the table operation does |
| FileSystem.FileSystem.WriteFile | kernel/fs.c:344-376 | the in-place operation does to the slots what the table operation does |
| FileSystem.FileSystem.AppendFile | kernel/fs.c:378-396 | the in-place operation does to the slots what the table operation does |
| FileSystem.FileSystem.ShiftDown | kernel/fs.c:409-411 | the shifting loop drops one slot and keeps the rest in order |
| FileSystem.FileSystem.Remove | kernel/fs.c:398-418 | the in-place operation does to the slots what the table operation does, and leaves the last slot's old content above the count |
| FileSystem.FileSystem.Copy | kernel/fs.c:420-437 | the in-place operation does to the slots what the table operation does |
| FileSystem.FileSystem.Validate | kernel/fs.c:463-482 | the first pass reports exactly whether some renamed slot is too long or collides |
| FileSystem.FileSystem.Rewrite | kernel/fs.c:484-495 | the second pass, one name after the other in place, renames all slots at or under the source at once |
| FileSystem.FileSystem.Move | kernel/fs.c:439-498 | both passes together are the table operation |
| FileSystem.FileSystem.List | kernel/fs.c:302-324 | a path that is too long, missing or a file lists nothing; the root or a directory its first direct children in slot order up to the limit |
| FileSystem.FileSystem.CollectChildren | kernel/fs.c:317-321 | the collecting loop picks the first direct children, in slot order |
| FileSystem.FileSystem.EnsureDirChain | kernel/fs.c:180-211 | the in-place chain does what the table chain does, also when it stops half-way |
| FileSystem.FileSystem.LoadFile | kernel/fs.c:213-232 | the in-place load does what the table load does |
| FileSystem.FileSystem.Init | kernel/fs.c:243-280 | boot leaves the loaded image's table, or the built-in one when nothing could be loaded |
| FsViews.RunKeepsAhead | kernel/fs.c:50-55 | over every run size and kind in a view are right and its pointers lead to the own slot or a later one |
| FsViews.RemoveShiftsTargets | kernel/fs.c:409-411 | removal of slot i hands the targets of later slots down by one |
| FsViews.ReadsRightIs | kernel/fs.c:50-55 | a node read through its view shows its own name and bytes exactly if the view leads to its slot or to a copy left above the count |
| FsViews.RemoveReads | kernel/fs.c:409-412 | after removal of slot i exactly the views below i and the last one still read right |
| FsViews.StepCoherent | kernel/fs.c:286-300 | one operation keeps views in agreement with their nodes exactly if it does not remove a slot other than the last |
| FsViews.RunCoherent | kernel/fs.c:286-300 | views agree after every operation of a run exactly if the run never does that |
| FsViews.RepairedRunCoherent | kernel/fs.c:398-418 | if the shifting loop, and nothing else, re-synced the slots it shifts, views would agree over every run, the run would stand for the same map, and every operation would get the same verdict |
| FsViews.StepSame | kernel/fs.c:326-498 | no operation looks at views: on tables that differ in views only, verdicts agree and the results differ in views only |
| FsViews.WrongName | kernel/fs.c:398-418 | for any names a, b, c: after mkdir a, mkdir b, rm a, mkdir c, the entry found at b is named c |
| FsLoad.EnsureRefines | kernel/fs.c:180-211 | the chain adds exactly the missing directories above a path, fails only at a file in the way or on a full table, and keeps the tree either way |
| FsLoad.LoadFileRefines | kernel/fs.c:213-232 | loading a file into a tree: the exact condition for success; the result is a tree, and which, exactly if the load failed or the path was free |
| FsLoad.LoadAllIs | kernel/fs.c:260-269 | for distinct prefix-free paths: what is loaded is a prefix of the list, all of it exactly when everything fits |
| FsLoad.LoadedInOrder | kernel/fs.c:260-269 | for any list: the files loaded stand in the table in the order of the list, with name, bytes and type |
| FsLoad.LoadAnyIs | kernel/fs.c:260-269 | for any list: the table is a tree exactly if the names of the files loaded are distinct and prefix-free, and its files then are exactly those |
| FsLoad.LoadIsTree | kernel/fs.c:260-269 | the table is a tree exactly if no item of the list names a file or directory that the loadable items before it made, with no file above it and room left |
| FsLoad.TwiceIsNoTree | kernel/fs.c:213-232 | the same top-level file twice leaves no tree |
| Initrd.Pack | tools/mkinitrd.py:39-64 | the packer raises exactly on the stated inputs and otherwise writes header, entries with running offsets, and payload |
| Initrd.PackableIs | tools/mkinitrd.py:44-57 | the packer raises exactly for a name that is not ASCII or longer than 31 characters, or a count, offset or size beyond 32 bits |
| Initrd.EntryTypeIs | tools/mkinitrd.py:26-27 | a name gets type 2 exactly if it is some stem followed by ".app", and type 1 otherwise |
| Initrd.PackedHeader | tools/mkinitrd.py:39-40 | the first twelve bytes of an image: magic, version and number of files, low byte first; and the size of the whole |
| Initrd.PackedEntry | tools/mkinitrd.py:43-57 | for every file: its 44 bytes at 12 + 44 * i with padded name, offset, size and type, low byte first, and its contents at that offset, behind those of the files before it |
| Initrd.HeaderFormat | kernel/fs.c:253-258 | the loader recognizes exactly the images with those first eight bytes and looks at as many entries as they say, at most 64 |
| Initrd.EntryFormat | kernel/fs.c:260-266 | where in the bytes the loader finds name, contents and type of entry i |
| Initrd.FieldNameIs | kernel/fs.c:261-264 | the name in a 32-byte field ends at its first zero byte, or with the field |
| Initrd.ItemRoundTrip | kernel/fs.c:260-266 | reading entry i of a packed image gives back name and bytes of file i, and as type 2 exactly for names that end in ".app", 1 for all others |
| Initrd.ImageRoundTrip | kernel/fs.c:253-266 | the loader recognizes a packed image and sees exactly its files, at most 64 |
| Initrd.PackThenLoad | kernel/fs.c:253-273 | pack then load gives exactly the files with their bytes, ".app" files as programs and all others as text, and exactly their ancestor directories, if and only if they fit |
| Initrd.PackThenLoadPrefix | kernel/fs.c:260-273 | otherwise the files loaded are a prefix of the packed list, and the table is a tree |
| FsBoot.BootIsTree | kernel/fs.c:234-280 | for any image: boot leaves a tree exactly if no entry of the image clashes with those before it |
| FsBoot.BuiltinHolds | kernel/fs.c:234-280 | without an image, or with one that is not recognized or yields nothing, the table holds exactly /docs, /home and three text files, each with its own text; otherwise it holds what was loaded |
| FsBoot.TextIs | kernel/fs.c:38-48 | a built-in text has one byte for each character |
| FsBoot.TwiceInImage | kernel/fs.c:253-273 | an image packed from the same top-level file twice boots into a table that is no tree |
| FsBoot.BootThenRun | kernel/fs.c:234-280 | that condition is also the exact one for every run after boot to keep a tree |
| FsBoot.BootViews | kernel/fs.c:234-300 | after boot from any image and any run: view pointers never lead down; views agree exactly while no slot but the last is removed; with the repair they always agree |
| ShellTree.ChildPathIs | kernel/shell.c:164-167 | the child path leads back to the child exactly for names of at most 62 characters |
| ShellTree.TrapLeadsUp | kernel/shell.c:164-167 | the child path of a 63-character name whose 62nd character is a slash names the parent |
| ShellTree.TreeWalk | kernel/shell.c:304-318 | on any table, stale views or not, the recursive walk prints the text of the specified lines wherever its recursion is finite |
| ShellTree.LineShowsView | kernel/shell.c:255-271 | a printed line is two blanks for each level, the last component of the name its view leads to, and of a directory "/  <dir>", of a file the length in its view in decimal and "program" exactly for type 2, "text" for any other |
| ShellTree.LineShowsNode | kernel/shell.c:255-271 | where views agree, that is the node's own name, type and length |
| ShellTreeEnds.WalkEndsUnlessLooping | kernel/shell.c:304-318 | on any table the walk ends exactly if no descent from its start meets the same entry twice, and then at most one call deeper than there are slots in use |
| ShellTreeEnds.WalkPrintsReached | kernel/shell.c:304-318 | on any table a walk that ends prints exactly the slots that some descent reaches |
| ShellTreeShape.ListIs | kernel/fs.c:302-324 | the listing for the walk has exactly the direct children that are among the first 32, in slot order |
| ShellTreeShape.WalkEnds | kernel/shell.c:304-318 | on a tree with agreeing views the walk ends, and no descent loops, exactly if it lists no directory with a 63-character name whose 62nd character is a slash |
| ShellTreeShape.WalkShape | kernel/shell.c:304-318 | where it ends, the lines show every node it reaches exactly once, in preorder, siblings in slot order, indented by depth |
| ShellTreeShape.WalkIsComplete | kernel/shell.c:304-318 | where it ends, it reaches every descendant exactly if no directory at or below the start has more than 32 children |
| ShellTreeShape.NothingToWalk | kernel/shell.c:304-318 | from a path that names no directory nothing is printed |
| ShellTreeEndless.EndlessWalk | kernel/shell.c:304-318 | after mkdir /z, mkdir /b, mkdir /a, mv /b /a/b, rm /z the walk of /a outlasts any fuel |
| ShellTreeEndless.EndlessLongName | kernel/shell.c:164-167 | after mkdir /a, mkdir /a/b with 61 and 1 characters, views agree and the walk of /a outlasts any fuel |
| ShellTreeEndless.NestedByMove | kernel/fs.c:439-498 | a move of the parent leads to the same table |
| ShellPaths.ResolvePathFrom | kernel/shell.c:169-244 | the buffers and loops compute the specified resolution, cuts included |
| ShellPaths.ResolveIsCanonical | kernel/shell.c:169-244 | from a canonical directory every input resolves to a canonical path |
| ShellPaths.ResolveIdempotent | kernel/shell.c:169-244 | resolving a canonical path gives it back |
| ShellPaths.ResolveComposes | kernel/shell.c:169-244 | resolving a and then b is resolving a/b, where the texts fit |
| ShellPaths.ResolveNames | kernel/shell.c:169-244 | from anywhere, names other than "." and ".." whose text fits resolve to the first 16 of them |
| ShellPaths.ResolveName | kernel/shell.c:169-244 | a name goes down by one unless 16 components are there; the empty input stays |
| ShellPaths.ResolveDot | kernel/shell.c:169-244 | "." stays |
| ShellPaths.ResolveAbsolute | kernel/shell.c:169-185 | an absolute input does not depend on the directory, and is cut at 63 characters |
| ShellPaths.ResolveCut | kernel/shell.c:169-190 | a relative input is resolved as the first 63 characters of the directory, a slash and the input |
| ShellPaths.NormalizeAcceptsCanonical | kernel/fs.c:57-93 | the file system accepts every canonical path and drops its leading slash |
| ShellPaths.ParentIsDotDot | kernel/shell.c:144-157 | on canonical paths the parent directory drops the last component, and is what ".." resolves to exactly up to 60 characters |
| Calc.CalcState.ParseFactor | kernel/shell.c:350-385 | cursor, flags and 32-bit value follow the factor specification; the cursor stays within the text |
| Calc.CalcState.ParseAtom | kernel/shell.c:363-384 | the same for what follows the signs |
| Calc.CalcState.ParseTerm | kernel/shell.c:387-415 | the same for terms, with division toward zero and its zero check |
| Calc.CalcState.ParseExpression | kernel/shell.c:417-439 | the same for expressions |
| Calc.CalcEvaluate | kernel/shell.c:441-453 | verdict and value are those of the specification when no intermediate overflows |
| CalcGrammar.EvaluateComplete | kernel/shell.c:342-453 | every text derived by the grammar is given its value, or its division by zero or overflow |
| CalcGrammar.EvaluateSound | kernel/shell.c:342-453 | every accepted text derives an expression with the value returned |
| CalcGrammar.EvaluateIffDerives | kernel/shell.c:342-453 | a text is accepted with v exactly if it derives an expression of value v |
| CalcGrammar.RejectedIffUnderivable | kernel/shell.c:342-453 | without overflow, a text is rejected exactly if it derives nothing or divides by zero |
| Calc.TruncDivLaw | kernel/shell.c:402-411 | the quotient leaves a remainder smaller than the divisor and with the sign of the dividend |
| Calc.QuotientUnique | kernel/shell.c:402-411 | only one number does |
| CalcGrammar.ExprValIsMath | kernel/shell.c:350-439 | the 32-bit value of a derivation is its value in plain arithmetic, with division by that law, exactly where every intermediate value fits |
| CalcGrammar.EvaluateExactly | kernel/shell.c:342-453 | a text is accepted with v exactly if it derives an expression of plain value v with every intermediate value in 32 bits |
| CalcGrammar.AcceptedIsSpelled | kernel/shell.c:342-453 | an accepted text has nothing but digits, the four operators, parentheses and the four space characters |
| CalcText.PrintThenEvaluate | kernel/shell.c:342-453 | an expression tree, printed with parentheses only where precedence needs them, evaluates to v exactly if v is its plain value and every intermediate value fits |
| CalcText.PrintedNumberReadsBack | kernel/shell.c:27-35 | every printed 32-bit number is read back, except the smallest |
| CalcText.PrintedNumberIsPlain | kernel/shell.c:27-35 | a printed number is a minus sign if negative and at most ten digits, and `atoi` reads every one back |
| CalcText.EvaluateAlike | kernel/shell.c:342-385 | only the words of a text matter to the calculator |
| CalcText.CalcLine | kernel/shell.c:455-463 | for lines of at most 16 words, also with spaces in front, evaluating the tokenized and joined argument is evaluating the typed text |
| CalcText.LongLine | kernel/shell.c:91-133 | of a longer line the words up to the 16th make the argument |
| CalcText.CalcCommand | kernel/shell.c:455-463 | tokenizing in place, joining and evaluating together give that argument's verdict |
| Words.Tokenize | kernel/shell.c:91-113 | the words of the line, at most as many as asked for, stand NUL-terminated at the returned positions |
| Words.WordsSplit | kernel/shell.c:91-113 | the words of a text split at every blank, tabulator, newline and carriage return |
| Words.OneWord | kernel/shell.c:91-113 | a text with none of these is one word |
| Words.WordsOfJoined | kernel/shell.c:91-133 | tokenizing a joined list of words gives back the list |
| Words.JoinedSnoc | kernel/shell.c:115-133 | one blank stands between two words |
| Words.JoinArgs | kernel/shell.c:115-133 | the buffer holds the words joined by single spaces, cut to the limit |
| LibString.U32ToDec | lib/string.c:167-183 | the buffer holds the decimal notation; at most ten digits and the NUL are written |
| LibString.DecimalOfDec | lib/string.c:167-183 | reading decimal notation gives back the number |
| LibString.NumeralOfDec | lib/string.c:167-183 | decimal notation has the digits 0 to 9, each counting ten times its right neighbour, and no idle zero in front |
| LibString.DecimalIsNumeral | lib/string.c:159-162 | reading from the left gives that number |
| LibString.Atoi | lib/string.c:150-165 | spaces, one sign and the leading digits are read, without overflow |
| LibString.AtoiOfDec | lib/string.c:150-183 | behind any of the four space characters, and before any text that does not begin with a digit, `atoi` reads the decimal notation of a number as that number and with a minus sign as its negative |
| LibString.AtoiOfOther | lib/string.c:150-165 | other text reads as zero |
| Keyboard.Driver.BufferPush | drivers/keyboard.c:36-43 | appends to the waiting characters unless 127 wait |
| Keyboard.Driver.GetChar | drivers/keyboard.c:76-83 | takes the oldest waiting character, or reports none |
| Keyboard.KeyStep | drivers/keyboard.c:36-43 | a key arriving between any two accesses of the reader is appended, and only it is dropped when 127 wait |
| Keyboard.ReaderAccess | drivers/keyboard.c:76-83 | reader accesses leave the queue alone, except the last, which delivers its front |
| Keyboard.EveryInterleaving | drivers/keyboard.c:36-83 | over every interleaving the characters delivered are the first of those accepted, in order, and the rest still wait |
| Keyboard.FromPowerOn | drivers/keyboard.c:36-83 | from power-on, over every interleaving: what was accepted is what was delivered followed by at most 127 characters that wait |
| Keyboard.EmptyWhenLooked | drivers/keyboard.c:76-79 | empty is reported exactly if the buffer was empty when the head was read |
| Terminal.Console.Scroll | drivers/vga.c:31-44 | the nested copying loops move all lines up by one and blank the last |
| Terminal.Console.Put | drivers/vga.c:68-96 | cells and cursor after a character, with wrapping and scrolling |
| Terminal.Console.Erase | drivers/vga.c:98-110 | cells and cursor after a backspace |
| Terminal.GlyphEffect | drivers/vga.c:85-95 | a printed character fills the cursor's cell in the current color and touches no other; after the last cell everything moves up and the last line is blank |
| Terminal.LineEffect | drivers/vga.c:69-79 | newline and carriage return move the cursor only, but for the screen moving up |
| Terminal.TabEffect | drivers/vga.c:80-85 | a tabulator prints four blanks |
| Terminal.BackspaceEffect | drivers/vga.c:98-110 | backspace goes back by one, blanks that cell and touches no other; at the origin it does nothing |
| Terminal.BackspaceUndoes | drivers/vga.c:68-110 | backspace undoes a character typed on a blank cell |
| ShellReadline.PutKeepsEcho | kernel/shell.c:82-86 | a typed character extends the echo, also when the screen scrolls |
| ShellReadline.BackspaceKeepsEcho | kernel/shell.c:75-80 | on a non-empty line backspace is never swallowed and shortens the echo by one cell |
| ShellReadline.EchoAgrees | kernel/shell.c:60-89 | through any keys, from any cursor position, the cells before the cursor spell the line |
| ShellReadline.LineIsEdited | kernel/shell.c:60-89 | the line is what the keys alone edit, whatever the screen shows |
| ShellReadline.KeyEdits | kernel/shell.c:68-86 | a key from blank to tilde is appended while there is room, backspace takes the last one away, any other key leaves the line |
| ShellReadline.TypedIsLine | kernel/shell.c:60-89 | what is typed without control keys is the line, as far as there is room |
| ShellReadline.BackspaceUndoesKey | kernel/shell.c:75-86 | a character and a backspace leave the line as it was |
| ShellReadline.NothingIsLeft | kernel/shell.c:60-89 | a screen that is blank from the cursor on stays so through any keys and scrolling: nothing erased is left |
| ShellReadline.ScreenIsPrinted | kernel/shell.c:60-89 | where the line cannot reach the end of the screen, the screen is as if the final line alone had been printed |
| ShellReadline.BackspaceLeavesBlank | kernel/shell.c:75-80 | after a backspace on a non-empty line the cell at the cursor is blank |
| ShellReadline.ReadLine | kernel/shell.c:60-89 | reads up to the newline; buffer and screen are the edited line and its echo; what was typed without control keys is what the buffer holds |
| Tasks.Scheduler.Tick | drivers/timer.c:10-14 | the interrupt charges the current task with the tick it adds to the clock |
| Tasks.Scheduler.Launch | kernel/task.c:48-60 | while the program runs it alone is running and its parent is ready |
| Tasks.Scheduler.RunProgram | kernel/task.c:48-70 | with timer interrupts between any two statements: no tick is lost, the program is charged for its own time, its parent for the rest, and afterwards the parent alone runs |

## Left out

- NULL arguments, and callers' buffers that overlap the table: paths and data are passed as values.
- The bytes of a node's name buffer behind its NUL: names are strings. Slots at and above the count matter only to stale views and are a parameter there.
- FileSystem.FileSystem.AppendFile: calls in which the node's size and the data's wrap 32 bits are excluded; there the length test passes and C promises nothing of the copy.
- FileSystem.FileSystem.Init: the multiboot structures that lead to the module are not modelled; the image is a byte sequence that covers what the loader reads.
- Initrd.Pack: `gather_files` walks a directory of the host; the list of paths and contents is a parameter, and errors are told apart from success but not from one another.
- ShellTreeShape.WalkEnds: the reading on directory trees with agreeing views of ShellTreeEnds.WalkEndsUnlessLooping, which holds on every table. The machine's finite stack is left out.
- ShellTreeShape.WalkShape: preorder and indentation are stated for directory trees with agreeing views; with stale views a walk may show a slot under another path, and ShellTreeEnds.WalkPrintsReached says which slots it shows.
- ShellTree.TreeWalk: the characters go to a text, not to the screen; colours are left out.
- ShellPaths.ResolveComposes: stated where the combined text fits the 64-byte buffer, as longer texts are cut.
- Keyboard.EveryInterleaving: accesses happen in program order; the scan code tables and the shift key are left out.
- Tasks.Scheduler.RunProgram: the program is a number of timer interrupts; task names and the copy to the load address are left out.
- ShellReadline.ReadLine: waiting for a key is left out, the keys are a parameter; hardware cursor updates are left out.
- Interactive loops, prompts, colours, the editor and the file manager of kernel/shell.c: user interface.
- Device setup (ATA, PIC, GDT, IDT, paging), assembly, and the host-side tools other than the packer: hardware registers and process plumbing.
