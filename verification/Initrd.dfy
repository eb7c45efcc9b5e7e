/** The boot image: written by tools/mkinitrd.py, read by fs_init (kernel/fs.c). */
module Initrd {
  import opened Basics
  import opened Paths
  import opened FsTable
  import opened FsMap
  import opened FsRefine
  import opened FsRuns
  import opened FsLoad

  const MAGIC: word := 0x4D594653
  const VERSION: word := 1
  const NAME_MAX := 32
  const HEADER_SIZE := 12
  const ENTRY_SIZE := 44

  // ---------- Words ----------

  /** Four bytes, low byte first. */
  function Le32(x: word): (b: seq<byte>)
    ensures |b| == 4
  {
    [x % 0x100, x / 0x100 % 0x100, x / 0x1_0000 % 0x100, x / 0x100_0000]
  }

  function Word(image: seq<byte>, at: nat): word
    requires at + 4 <= |image|
  {
    var b0: int, b1: int, b2: int, b3: int := image[at], image[at + 1], image[at + 2], image[at + 3];
    b0 + b1 * 0x100 + b2 * 0x1_0000 + b3 * 0x100_0000
  }

  lemma {:induction false} BytesOfWord(x: int)
    requires 0 <= x < WORD_LIMIT
    ensures x == x % 0x100 + x / 0x100 % 0x100 * 0x100 + x / 0x1_0000 % 0x100 * 0x1_0000 + x / 0x100_0000 * 0x100_0000
  {
    var a := x / 0x100;
    var b := a / 0x100;
    assert x / 0x1_0000 == b;
    assert x / 0x100_0000 == b / 0x100;
    assert x == x % 0x100 + a * 0x100 && a == a % 0x100 + b * 0x100 && b == b % 0x100 + b / 0x100 * 0x100;
  }

  lemma {:induction false} WordOfLe32(image: seq<byte>, at: nat, x: word)
    requires at + 4 <= |image| && image[at..at + 4] == Le32(x)
    ensures Word(image, at) == x
  {
    BytesOfWord(x);
    var b := image[at..at + 4];
    assert b[0] == image[at] && b[1] == image[at + 1] && b[2] == image[at + 2] && b[3] == image[at + 3];
  }

  // ---------- The packer ----------

  datatype SourceFile = SourceFile(path: string, content: seq<byte>)

  predicate Ascii(s: string) {
    forall i :: 0 <= i < |s| ==> s[i] as int < 0x80
  }

  /** str.encode("ascii") */
  function Encode(s: string): (b: seq<byte>)
    requires Ascii(s)
    ensures |b| == |s| && forall i :: 0 <= i < |s| ==> b[i] == s[i] as int
  {
    seq(|s|, i requires 0 <= i < |s| => s[i] as int)
  }

  function ZeroBytes(n: nat): seq<byte> {
    seq(n, _ => 0)
  }

  function EntryType(path: string): word {
    if |path| >= 4 && path[|path| - 4..] == ".app" then PROGRAM else TEXT
  }

  /** The name field. */
  function Padded(path: string): (b: seq<byte>)
    requires Ascii(path) && |path| < NAME_MAX
    ensures |b| == NAME_MAX
  {
    Encode(path) + ZeroBytes(NAME_MAX - |path|)
  }

  /** One 44-byte table entry. */
  function EntryBytes(path: string, offset: word, size: word): (b: seq<byte>)
    requires Ascii(path) && |path| < NAME_MAX
    ensures |b| == ENTRY_SIZE
  {
    Padded(path) + Le32(offset) + Le32(size) + Le32(EntryType(path))
  }

  /** The contents of the first k files, one after the other. */
  function Payload(files: seq<SourceFile>, k: nat): seq<byte>
    requires k <= |files|
  {
    if k == 0 then [] else Payload(files, k - 1) + files[k - 1].content
  }

  /** Where the contents of file k begin in the image. */
  function OffsetOf(files: seq<SourceFile>, k: nat): nat
    requires k <= |files|
  {
    HEADER_SIZE + ENTRY_SIZE * |files| + |Payload(files, k)|
  }

  /** What the packer accepts of one file: ASCII name under 32 characters, words that fit. */
  predicate PackableAt(files: seq<SourceFile>, k: nat)
    requires k < |files|
  {
    && Ascii(files[k].path) && |files[k].path| < NAME_MAX
    && OffsetOf(files, k) < WORD_LIMIT && |files[k].content| < WORD_LIMIT
  }

  predicate Packable(files: seq<SourceFile>) {
    |files| < WORD_LIMIT && forall k :: 0 <= k < |files| ==> PackableAt(files, k)
  }

  function Entries(files: seq<SourceFile>, k: nat): (b: seq<byte>)
    requires k <= |files| && forall i :: 0 <= i < k ==> PackableAt(files, i)
    ensures |b| == ENTRY_SIZE * k
  {
    if k == 0 then []
    else
      assert PackableAt(files, k - 1);
      Entries(files, k - 1) + EntryBytes(files[k - 1].path, OffsetOf(files, k - 1), |files[k - 1].content|)
  }

  function Header(count: word): seq<byte> {
    Le32(MAGIC) + Le32(VERSION) + Le32(count)
  }

  function ImageOf(files: seq<SourceFile>): seq<byte>
    requires Packable(files)
  {
    Header(|files|) + Entries(files, |files|) + Payload(files, |files|)
  }

  /** main of mkinitrd.py, from the gathered files to the bytes written; None where it raises. */
  method Pack(files: seq<SourceFile>) returns (image: Option<seq<byte>>)
    ensures image.Some? <==> Packable(files)
    ensures image.Some? ==> image.value == ImageOf(files)
  {
    if |files| >= WORD_LIMIT {
      return None;
    }
    var header := Header(|files|);
    var offset := HEADER_SIZE + ENTRY_SIZE * |files|;
    var entries: seq<byte> := [];
    var payload: seq<byte> := [];
    var i := 0;
    while i < |files|
      invariant i <= |files|
      invariant forall k :: 0 <= k < i ==> PackableAt(files, k)
      invariant entries == Entries(files, i)
      invariant payload == Payload(files, i)
      invariant offset == OffsetOf(files, i)
    {
      var path, content := files[i].path, files[i].content;
      if !Ascii(path) || |path| >= NAME_MAX || offset >= WORD_LIMIT || |content| >= WORD_LIMIT {
        assert !PackableAt(files, i);
        return None;
      }
      entries := entries + EntryBytes(path, offset, |content|);
      payload := payload + content;
      offset := offset + |content|;
      i := i + 1;
    }
    image := Some(header + entries + payload);
  }

  /** File k of n is not refused: an ASCII name of at most 31 characters, and an offset and a size that fit
      32 bits. */
  ghost predicate Acceptable(file: SourceFile, before: int, n: int) {
    && |file.path| <= 31 && (forall c <- file.path :: c as int < 128)
    && 12 + 44 * n + before < 4294967296 && |file.content| < 4294967296
  }

  /** The inputs for which the packer does not raise. */
  lemma {:induction false} PackableIs(files: seq<SourceFile>)
    ensures Packable(files) <==>
            && |files| < 4294967296
            && forall k :: 0 <= k < |files| ==> Acceptable(files[k], SizeOfFirst(files, k), |files|)
  {
    forall k | 0 <= k < |files|
      ensures PackableAt(files, k) <==> Acceptable(files[k], SizeOfFirst(files, k), |files|)
    {
      PayloadSize(files, k);
      assert forall i :: 0 <= i < |files[k].path| ==> files[k].path[i] in files[k].path;
    }
    hide PackableAt, Acceptable;
  }

  // ---------- The reader ----------

  /** The text of a name field: up to the first NUL, or all of it. */
  function FieldName(field: seq<byte>): string {
    if field == [] || field[0] == 0 then "" else [field[0] as char] + FieldName(field[1..])
  }

  function EntryStart(i: nat): nat {
    HEADER_SIZE + ENTRY_SIZE * i
  }

  /** What fs_init takes from table entry i. Where the size exceeds what a node holds the data are
      never touched. */
  function ItemAt(image: seq<byte>, i: nat): Item
    requires EntryStart(i) + ENTRY_SIZE <= |image|
  {
    var at := EntryStart(i);
    var offset, size := Word(image, at + NAME_MAX), Word(image, at + NAME_MAX + 4);
    Item(FieldName(image[at..at + NAME_MAX]),
         if offset + size <= |image| then image[offset..offset + size] else seq(size, _ => 0),
         Word(image, at + NAME_MAX + 8))
  }

  predicate Recognized(image: seq<byte>) {
    |image| >= HEADER_SIZE && Word(image, 0) == MAGIC && Word(image, 4) == VERSION
  }

  /** The number of table entries fs_init looks at. */
  function CountedEntries(image: seq<byte>): nat
    requires |image| >= HEADER_SIZE
  {
    if Word(image, 8) > MAX_ENTRIES then MAX_ENTRIES else Word(image, 8)
  }

  /** The module covers what the loader reads: the header; of a recognized image the entries it
      looks at and the contents it copies. */
  ghost predicate Readable(image: seq<byte>) {
    && |image| >= HEADER_SIZE
    && (Recognized(image) ==>
          && EntryStart(CountedEntries(image)) <= |image|
          && forall i :: 0 <= i < CountedEntries(image) ==> ContentsInside(image, i))
  }

  predicate ContentsInside(image: seq<byte>, i: nat)
    requires EntryStart(i) + ENTRY_SIZE <= |image|
  {
    var at := EntryStart(i);
    Word(image, at + NAME_MAX + 4) <= MAX_SIZE ==>
      Word(image, at + NAME_MAX) + Word(image, at + NAME_MAX + 4) <= |image|
  }

  function Items(image: seq<byte>): (items: seq<Item>)
    requires Readable(image) && Recognized(image)
    ensures |items| == CountedEntries(image)
    ensures forall i :: 0 <= i < |items| ==> items[i] == ItemAt(image, i)
  {
    seq(CountedEntries(image), i requires 0 <= i < CountedEntries(image) => ItemAt(image, i))
  }

  // ---------- Built-in contents ----------

  function Text(s: string): seq<byte> {
    seq(|s|, i requires 0 <= i < |s| => s[i] as int % 0x100)
  }

  const README :=
    "SNSX fallback filesystem\n" +
    "This path is used when the custom boot image starts without an initrd.\n" +
    "The live ISO includes the richer rootfs module.\n"
  const HOME :=
    "Welcome to SNSX.\nUse help, apps, files, calc, and edit to explore the live system.\n"
  const MOTD :=
    "SNSX live system: writable RAM filesystem, file manager, calculator, and editor.\n"

  /** The calls of fs_use_builtin. */
  function BuiltinOps(): seq<Op> {
    [MkdirOp("/docs"), MkdirOp("/home"),
     WriteOp("/README.TXT", Text(README), TEXT),
     WriteOp("/docs/MOTD.TXT", Text(MOTD), TEXT),
     WriteOp("/home/WELCOME.TXT", Text(HOME), TEXT)]
  }

  /** fs_init on the boot module, if there is one. */
  function Init(image: Option<seq<byte>>): Outcome
    requires image.Some? ==> Readable(image.value)
  {
    if image.Some? && Recognized(image.value) && LoadAll(Items(image.value)).table != []
    then Outcome(true, LoadAll(Items(image.value)).table)
    else Outcome(false, Run([], BuiltinOps()))
  }

  // ---------- Round trip ----------

  /** The list the loader should see. */
  function ItemsOf(files: seq<SourceFile>): (items: seq<Item>)
    ensures |items| == |files|
    ensures forall i :: 0 <= i < |files| ==>
                          items[i] == Item(files[i].path, files[i].content, EntryType(files[i].path))
  {
    seq(|files|, i requires 0 <= i < |files| => Item(files[i].path, files[i].content, EntryType(files[i].path)))
  }

  lemma {:induction false} FieldOfPadded(path: string, field: seq<byte>)
    requires Ascii(path) && '\0' !in path && |path| < |field|
    requires forall i :: 0 <= i < |path| ==> field[i] == path[i] as int
    requires field[|path|] == 0
    ensures FieldName(field) == path
  {
    if path != "" {
      assert path[0] != '\0';
      FieldOfPadded(path[1..], field[1..]);
      assert path == [path[0]] + path[1..];
      assert (path[0] as int) as char == path[0];
    }
  }

  lemma {:induction false} SliceOfFirst(a: seq<byte>, b: seq<byte>, from: nat, to: nat)
    requires from <= to <= |a|
    ensures (a + b)[from..to] == a[from..to]
  {
  }

  lemma {:induction false} SliceOfSecond(a: seq<byte>, b: seq<byte>, all: seq<byte>)
    requires a + b <= all
    ensures all[|a|..|a| + |b|] == b
  {
  }

  lemma {:induction false} EntriesSnoc(files: seq<SourceFile>, k: nat)
    requires 0 < k <= |files| && forall j :: 0 <= j < k ==> PackableAt(files, j)
    ensures PackableAt(files, k - 1)
    ensures Entries(files, k) == Entries(files, k - 1)
                                 + EntryBytes(files[k - 1].path, OffsetOf(files, k - 1), |files[k - 1].content|)
  {
    assert PackableAt(files, k - 1);
  }

  lemma {:induction false} EntriesGrow(files: seq<SourceFile>, k: nat, i: nat)
    requires i <= k <= |files| && forall j :: 0 <= j < k ==> PackableAt(files, j)
    ensures Entries(files, i) <= Entries(files, k)
  {
    hide PackableAt, EntryBytes, OffsetOf;
    if i < k {
      EntriesGrow(files, k - 1, i);
      EntriesSnoc(files, k);
    }
  }

  /** Table entry i of the packed table. */
  lemma {:induction false} EntryInTable(files: seq<SourceFile>, k: nat, i: nat)
    requires i < k <= |files| && forall j :: 0 <= j < k ==> PackableAt(files, j)
    ensures PackableAt(files, i)
    ensures Entries(files, k)[ENTRY_SIZE * i..ENTRY_SIZE * i + ENTRY_SIZE] ==
            EntryBytes(files[i].path, OffsetOf(files, i), |files[i].content|)
  {
    hide Payload, Le32, Padded, Ascii;
    EntriesSnoc(files, i + 1);
    EntriesGrow(files, k, i + 1);
    var a, last := Entries(files, i), EntryBytes(files[i].path, OffsetOf(files, i), |files[i].content|);
    var all := Entries(files, k);
    hide Entries, EntryBytes, OffsetOf, PackableAt;
    SliceOfSecond(a, last, all);
  }

  /** The contents of file i in the packed payload. */
  lemma {:induction false} ContentInPayload(files: seq<SourceFile>, k: nat, i: nat)
    requires i < k <= |files|
    ensures |Payload(files, i)| + |files[i].content| <= |Payload(files, k)|
    ensures Payload(files, k)[|Payload(files, i)|..|Payload(files, i)| + |files[i].content|] == files[i].content
  {
    if i < k - 1 {
      ContentInPayload(files, k - 1, i);
      var a := Payload(files, k - 1);
      assert Payload(files, k) == a + files[k - 1].content;
      hide Payload;
      SliceOfFirst(a, files[k - 1].content, |Payload(files, i)|, |Payload(files, i)| + |files[i].content|);
    }
  }

  /** The fields of one entry. */
  lemma {:induction false} EntryFields(path: string, offset: word, size: word)
    requires Ascii(path) && '\0' !in path && |path| < NAME_MAX
    ensures var e := EntryBytes(path, offset, size);
            && FieldName(e[..NAME_MAX]) == path
            && Word(e, NAME_MAX) == offset && Word(e, NAME_MAX + 4) == size && Word(e, NAME_MAX + 8) == EntryType(path)
  {
    var e := EntryBytes(path, offset, size);
    var a, b, c := Le32(offset), Le32(size), Le32(EntryType(path));
    assert e[..NAME_MAX] == Padded(path);
    FieldOfPadded(path, Padded(path));
    assert e[NAME_MAX..NAME_MAX + 4] == a;
    assert e[NAME_MAX + 4..NAME_MAX + 8] == b;
    assert |e| == NAME_MAX + 12 && e[NAME_MAX + 8..] == c;
    assert e[NAME_MAX + 8..NAME_MAX + 12] == e[NAME_MAX + 8..];
    hide Le32;
    WordOfLe32(e, NAME_MAX, offset);
    WordOfLe32(e, NAME_MAX + 4, size);
    WordOfLe32(e, NAME_MAX + 8, EntryType(path));
  }

  /** The three parts of the image. */
  lemma {:induction false} ImageParts(files: seq<SourceFile>, i: nat)
    requires Packable(files) && i < |files|
    ensures PackableAt(files, i)
    ensures var image := ImageOf(files);
            && EntryStart(i) + ENTRY_SIZE <= |image|
            && image[EntryStart(i)..EntryStart(i) + ENTRY_SIZE] ==
               EntryBytes(files[i].path, OffsetOf(files, i), |files[i].content|)
            && OffsetOf(files, i) + |files[i].content| <= |image|
            && image[OffsetOf(files, i)..OffsetOf(files, i) + |files[i].content|] == files[i].content
  {
    var n := |files|;
    var h, t, p := Header(n), Entries(files, n), Payload(files, n);
    EntryInTable(files, n, i);
    ContentInPayload(files, n, i);
    assert |h| == HEADER_SIZE && |t| == ENTRY_SIZE * n && ImageOf(files) == h + t + p;
    var at: nat, offset: nat, size := ENTRY_SIZE * i, |Payload(files, i)|, |files[i].content|;
    assert at + ENTRY_SIZE <= |t|;
    hide EntryBytes, Entries, Payload, Header, PackableAt, Packable, ImageOf;
    SliceInMiddle(h, t, p, at, at + ENTRY_SIZE);
    SliceInLast(h, t, p, offset, offset + size);
  }

  lemma {:induction false} SliceInMiddle(h: seq<byte>, t: seq<byte>, p: seq<byte>, from: nat, to: nat)
    requires from <= to <= |t|
    ensures (h + t + p)[|h| + from..|h| + to] == t[from..to]
  {
  }

  lemma {:induction false} SliceInLast(h: seq<byte>, t: seq<byte>, p: seq<byte>, from: nat, to: nat)
    requires from <= to <= |p|
    ensures (h + t + p)[|h| + |t| + from..|h| + |t| + to] == p[from..to]
  {
  }

  /** Reading back table entry i gives back file i. */
  lemma {:induction false} ItemRoundTrip(files: seq<SourceFile>, i: nat)
    requires Packable(files) && i < |files| && '\0' !in files[i].path
    ensures EntryStart(i) + ENTRY_SIZE <= |ImageOf(files)|
    ensures ItemAt(ImageOf(files), i) == ItemsOf(files)[i]
    ensures ItemAt(ImageOf(files), i).kind == if IsProgram(files[i].path) then 2 else 1
    ensures ContentsInside(ImageOf(files), i)
  {
    assert PackableAt(files, i);
    ImageParts(files, i);
    EntryTypeIs(files[i].path);
    hide ImageOf, Packable, EntryType, IsProgram;
    ItemFromEntry(ImageOf(files), i, files[i].path, OffsetOf(files, i), |files[i].content|);
  }

  lemma {:induction false} ItemFromEntry(image: seq<byte>, i: nat, path: string, offset: word, size: word)
    requires EntryStart(i) + ENTRY_SIZE <= |image| && Ascii(path) && '\0' !in path && |path| < NAME_MAX
    requires image[EntryStart(i)..EntryStart(i) + ENTRY_SIZE] == EntryBytes(path, offset, size)
    requires offset + size <= |image|
    ensures ItemAt(image, i) == Item(path, image[offset..offset + size], EntryType(path))
    ensures ContentsInside(image, i)
  {
    hide *;
    EntryFields(path, offset, size);
    EntryShift(image, EntryStart(i));
    ItemAtIs(image, i, offset, size);
  }

  lemma {:induction false} ItemAtIs(image: seq<byte>, i: nat, offset: word, size: word)
    requires EntryStart(i) + ENTRY_SIZE <= |image| && offset + size <= |image|
    requires Word(image, EntryStart(i) + NAME_MAX) == offset && Word(image, EntryStart(i) + NAME_MAX + 4) == size
    ensures ItemAt(image, i) == Item(FieldName(image[EntryStart(i)..EntryStart(i) + NAME_MAX]),
                                     image[offset..offset + size], Word(image, EntryStart(i) + NAME_MAX + 8))
    ensures ContentsInside(image, i)
  {
  }

  /** Reading the fields of an entry in place. */
  lemma {:induction false} EntryShift(image: seq<byte>, at: nat)
    requires at + ENTRY_SIZE <= |image|
    ensures var e := image[at..at + ENTRY_SIZE];
            && e[..NAME_MAX] == image[at..at + NAME_MAX]
            && Word(e, NAME_MAX) == Word(image, at + NAME_MAX)
            && Word(e, NAME_MAX + 4) == Word(image, at + NAME_MAX + 4)
            && Word(e, NAME_MAX + 8) == Word(image, at + NAME_MAX + 8)
  {
  }

  lemma {:induction false} HeaderRoundTrip(files: seq<SourceFile>)
    requires Packable(files)
    ensures var image := ImageOf(files);
            && |image| >= HEADER_SIZE + ENTRY_SIZE * |files|
            && Recognized(image) && Word(image, 8) == |files|
  {
    var n := |files|;
    var h, t, p := Header(n), Entries(files, n), Payload(files, n);
    var a, b, c := Le32(MAGIC), Le32(VERSION), Le32(n);
    hide Entries, Payload, Le32, PackableAt;
    var image := h + t + p;
    assert image[0..4] == a && image[4..8] == b && image[8..12] == c;
    WordOfLe32(image, 0, MAGIC);
    WordOfLe32(image, 4, VERSION);
    WordOfLe32(image, 8, n);
  }

  function Counted(files: seq<SourceFile>): nat {
    if |files| > MAX_ENTRIES then MAX_ENTRIES else |files|
  }

  /** What the loader reads back out of a packed image: the files, at most 64 of them. */
  lemma {:induction false} ImageRoundTrip(files: seq<SourceFile>)
    requires Packable(files) && forall i :: 0 <= i < |files| ==> '\0' !in files[i].path
    ensures Readable(ImageOf(files)) && Recognized(ImageOf(files))
    ensures Items(ImageOf(files)) == ItemsOf(files)[..Counted(files)]
  {
    hide ImageOf, Packable, ItemAt, ContentsInside, Recognized, Word;
    HeaderRoundTrip(files);
    var image := ImageOf(files);
    forall i | 0 <= i < CountedEntries(image)
      ensures EntryStart(i) + ENTRY_SIZE <= |image|
      ensures ItemAt(image, i) == ItemsOf(files)[i] && ContentsInside(image, i)
    {
      ItemRoundTrip(files, i);
    }
  }

  // ---------- The bytes of an image ----------

  /** The number that bytes stand for, the first one counting least. */
  function LittleEndian(b: seq<byte>): nat {
    if b == [] then 0 else b[0] + 256 * LittleEndian(b[1..])
  }

  lemma {:induction false} WordIsLittleEndian(image: seq<byte>, at: nat)
    requires at + 4 <= |image|
    ensures Word(image, at) == LittleEndian(image[at..at + 4])
  {
    var b := image[at..at + 4];
    var b1, b2, b3: int := b[1], b[2], b[3];
    assert b[1..][1..][1..][1..] == [];
    assert LittleEndian(b[1..][1..][1..]) == b3;
    assert LittleEndian(b[1..][1..]) == b2 + 256 * b3;
    assert LittleEndian(b[1..]) == b1 + 256 * (b2 + 256 * b3);
  }

  /** What the loader reads: the header of an image it recognizes, and how many entries it looks at. */
  lemma {:induction false} HeaderFormat(image: seq<byte>)
    requires |image| >= 12
    ensures Recognized(image) <==> image[..8] == [0x53, 0x46, 0x59, 0x4D, 1, 0, 0, 0]
    ensures var n := LittleEndian(image[8..12]); CountedEntries(image) == if n > 64 then 64 else n
  {
    WordIsLittleEndian(image, 8);
    RecognizedBytes(image);
  }

  /** ... and where it finds the name, type and contents of entry i. */
  lemma {:induction false} EntryFormat(image: seq<byte>, i: nat)
    requires 12 + 44 * i + 44 <= |image|
    ensures EntryStart(i) == 12 + 44 * i
    ensures var at, item := 12 + 44 * i, ItemAt(image, i);
            var offset, size := LittleEndian(image[at + 32..at + 36]), LittleEndian(image[at + 36..at + 40]);
            && item.path == FieldName(image[at..at + 32])
            && item.kind == LittleEndian(image[at + 40..at + 44])
            && (offset + size <= |image| ==> item.content == image[offset..offset + size])
  {
    hide Word, LittleEndian, FieldName;
    var at := 12 + 44 * i;
    WordIsLittleEndian(image, at + 32);
    WordIsLittleEndian(image, at + 36);
    WordIsLittleEndian(image, at + 40);
  }

  lemma {:induction false} RecognizedBytes(image: seq<byte>)
    requires |image| >= 12
    ensures Recognized(image) <==> image[..8] == [0x53, 0x46, 0x59, 0x4D, 1, 0, 0, 0]
  {
    var magic, version := [0x53, 0x46, 0x59, 0x4D], [1, 0, 0, 0];
    if image[..8] == magic + version {
      assert image[0] == 0x53 && image[1] == 0x46 && image[2] == 0x59 && image[3] == 0x4D;
      assert image[4] == 1 && image[5] == 0 && image[6] == 0 && image[7] == 0;
    }
    if Recognized(image) {
      BytesUnique(image, 0, 0x53, 0x46, 0x59, 0x4D);
      BytesUnique(image, 4, 1, 0, 0, 0);
      assert image[..8] == magic + version;
    }
  }

  lemma {:induction false} LowByte(a: int, x: int, b: int, y: int)
    requires 0 <= a < 256 && 0 <= b < 256 && a + 256 * x == b + 256 * y
    ensures a == b && x == y
  {
  }

  lemma {:induction false} BytesUnique(image: seq<byte>, at: nat, a: byte, b: byte, c: byte, d: byte)
    requires at + 4 <= |image|
    requires Word(image, at) as int == a as int + 256 * (b as int + 256 * (c as int + 256 * d as int))
    ensures image[at] == a && image[at + 1] == b && image[at + 2] == c && image[at + 3] == d
  {
    var e: int, f: int, g: int, h: int := image[at], image[at + 1], image[at + 2], image[at + 3];
    assert Word(image, at) as int == e + 256 * (f + 256 * (g + 256 * h));
    hide Word;
    LowByte(e, f + 256 * (g + 256 * h), a, b as int + 256 * (c as int + 256 * d as int));
    LowByte(f, g + 256 * h, b, c as int + 256 * d as int);
    LowByte(g, h, c, d);
  }

  /** A name field: the text in it ends at the first zero byte. */
  lemma {:induction false} FieldNameIs(field: seq<byte>, n: nat)
    requires n <= |field| && (n < |field| ==> field[n] == 0) && forall i :: 0 <= i < n ==> field[i] != 0
    ensures |FieldName(field)| == n && forall i :: 0 <= i < n ==> FieldName(field)[i] as int == field[i]
  {
    if n > 0 {
      FieldNameIs(field[1..], n - 1);
      var rest := FieldName(field[1..]);
      assert FieldName(field) == [field[0] as char] + rest;
    }
  }

  /** Which type a packed file gets. */
  ghost predicate IsProgram(path: string) {
    exists stem: string :: path == stem + ".app"
  }

  lemma {:induction false} EntryTypeIs(path: string)
    ensures EntryType(path) == if IsProgram(path) then 2 else 1
  {
    if stem: string :| path == stem + ".app" {
      assert path[|path| - 4..] == ".app";
    }
    if |path| >= 4 && path[|path| - 4..] == ".app" {
      assert path == path[..|path| - 4] + ".app";
    }
  }

  /** A field of 32 bytes holds a name, with zeros behind it. */
  ghost predicate HoldsName(field: seq<byte>, path: string) {
    && |path| < 32 == |field|
    && forall j :: 0 <= j < 32 ==> field[j] == if j < |path| then path[j] as int else 0
  }

  /** A table entry of 44 bytes: the name, and as little-endian words where the contents stand, how long
      they are, and 2 for a name that ends in ".app", 1 for any other. */
  ghost predicate EntryHolds(entry: seq<byte>, path: string, offset: int, size: int) {
    && |entry| == 44 && HoldsName(entry[..32], path)
    && LittleEndian(entry[32..36]) == offset && LittleEndian(entry[36..40]) == size
    && LittleEndian(entry[40..44]) == if IsProgram(path) then 2 else 1
  }

  /** How many bytes the first k files have. */
  function SizeOfFirst(files: seq<SourceFile>, k: nat): nat
    requires k <= |files|
  {
    if k == 0 then 0 else SizeOfFirst(files, k - 1) + |files[k - 1].content|
  }

  lemma {:induction false} PayloadSize(files: seq<SourceFile>, k: nat)
    requires k <= |files|
    ensures |Payload(files, k)| == SizeOfFirst(files, k)
  {
    if k > 0 {
      PayloadSize(files, k - 1);
    }
  }

  /** What the packer writes: the loader's header, ... */
  lemma {:induction false} PackedHeader(files: seq<SourceFile>)
    requires Packable(files)
    ensures var image := ImageOf(files);
            && |image| == 12 + 44 * |files| + SizeOfFirst(files, |files|)
            && image[..8] == [0x53, 0x46, 0x59, 0x4D, 1, 0, 0, 0] && LittleEndian(image[8..12]) == |files|
  {
    HeaderRoundTrip(files);
    PayloadSize(files, |files|);
    var image := ImageOf(files);
    hide EntryBytes, LittleEndian, Word, Recognized;
    WordIsLittleEndian(image, 8);
    RecognizedBytes(image);
  }

  /** ... the entry of file i at 12 + 44 * i, and its contents where the entry says, behind the table and
      the contents of the files before it. */
  lemma {:induction false} PackedEntry(files: seq<SourceFile>, i: nat)
    requires Packable(files) && i < |files|
    ensures var image, at, size := ImageOf(files), 12 + 44 * i, |files[i].content|;
            var offset := 12 + 44 * |files| + SizeOfFirst(files, i);
            && at + 44 <= |image| && offset + size <= |image|
            && EntryHolds(image[at..at + 44], files[i].path, offset, size)
            && image[offset..offset + size] == files[i].content
  {
    assert PackableAt(files, i);
    PayloadSize(files, i);
    ImageParts(files, i);
    hide ImageOf, Packable, Payload, EntryBytes, EntryHolds;
    EntryBytesHold(files[i].path, OffsetOf(files, i), |files[i].content|);
  }

  lemma {:induction false} EntryBytesHold(path: string, offset: word, size: word)
    requires Ascii(path) && |path| < 32
    ensures EntryHolds(EntryBytes(path, offset, size), path, offset, size)
  {
    EntryBytesAre(path, offset, size);
    EntryTypeIs(path);
    var e := EntryBytes(path, offset, size);
    hide EntryBytes, EntryType, LittleEndian, Word, IsProgram;
    WordIsLittleEndian(e, 32);
    WordIsLittleEndian(e, 36);
    WordIsLittleEndian(e, 40);
  }

  lemma {:induction false} EntryBytesAre(path: string, offset: word, size: word)
    requires Ascii(path) && |path| < 32
    ensures var e := EntryBytes(path, offset, size);
            && |e| == 44 && HoldsName(e[..32], path)
            && Word(e, 32) == offset && Word(e, 36) == size && Word(e, 40) == EntryType(path)
  {
    var e := EntryBytes(path, offset, size);
    var a, b, c := Le32(offset), Le32(size), Le32(EntryType(path));
    assert e == Padded(path) + a + b + c;
    assert e[..32] == Padded(path) && e[32..36] == a && e[36..40] == b && e[40..] == c;
    assert e[40..44] == e[40..];
    hide Le32, EntryBytes, EntryType;
    WordOfLe32(e, 32, offset);
    WordOfLe32(e, 36, size);
    WordOfLe32(e, 40, EntryType(path));
  }

  // ---------- Pack, then load ----------

  lemma {:induction false} ImageCardinality(items: seq<Item>)
    requires PrefixFree(items)
    ensures |FileKeys(items)| == |items|
  {
    if items != [] {
      var init, f := items[..|items| - 1], items[|items| - 1];
      assert items == init + [f];
      PrefixFreeInit(items, |items| - 1);
      ImageCardinality(init);
      NextIsFree(init, f);
      KeysSnoc(init, f);
    }
  }

  /** Files the packer accepts, with distinct prefix-free paths. */
  ghost predicate GoodTree(files: seq<SourceFile>) {
    && Packable(files) && PrefixFree(ItemsOf(files))
    && forall i :: 0 <= i < |files| ==> '\0' !in files[i].path && Components(files[i].path) != []
  }

  /** What the loader can take: contents that fit a node, files and ancestors that fit the table. */
  ghost predicate FitsTable(files: seq<SourceFile>) {
    && (forall i :: 0 <= i < |files| ==> |files[i].content| <= MAX_SIZE)
    && |FileKeys(ItemsOf(files)) + DirKeys(ItemsOf(files))| <= MAX_ENTRIES
  }

  lemma {:induction false} FitsTableIs(files: seq<SourceFile>)
    requires GoodTree(files)
    ensures AllLoadable(ItemsOf(files)) <==> FitsTable(files)
    ensures FitsTable(files) ==> |files| <= MAX_ENTRIES
  {
    hide DirKeys, FileKeys, PrefixFree, OffsetOf, Components, Collapsed;
    ImageCardinality(ItemsOf(files));
    SubsetSize(FileKeys(ItemsOf(files)), FileKeys(ItemsOf(files)) + DirKeys(ItemsOf(files)));
    forall i | 0 <= i < |files|
      ensures Names(files[i].path, Components(files[i].path))
    {
      assert PackableAt(files, i);
      CollapsedLength(files[i].path);
    }
  }

  lemma {:induction false} SomethingLoaded(t: Table, items: seq<Item>)
    requires items != [] && IsExactly(Abs(t), items)
    ensures t != []
  {
    assert ItemKey(items[0]) in FileKeys(items);
  }

  /** The loading loop on what comes back out of the image. */
  lemma {:induction false} LoadCounted(files: seq<SourceFile>)
    requires GoodTree(files)
    ensures var items := ItemsOf(files);
            var r := LoadAll(items[..Counted(files)]);
            && TreeTable(r.table) && r.count <= |files|
            && FilesAreExactly(Abs(r.table), items[..r.count])
            && (FitsTable(files) ==> IsExactly(Abs(r.table), items))
            && (!FitsTable(files) ==> r.count < |files|)
  {
    hide Packable, LoadAll, PrefixFree, AllLoadable, FitsTable, IsExactly, FilesAreExactly, TreeTable, Abs;
    FitsTableIs(files);
    var items, c := ItemsOf(files), Counted(files);
    PrefixFreeInit(items, c);
    LoadAllIs(items[..c]);
    var n := LoadAll(items[..c]).count;
    assert items[..c][..n] == items[..n];
    assert c == |files| ==> items[..c] == items;
  }

  lemma {:induction false} InitIs(image: seq<byte>)
    requires Readable(image) && Recognized(image)
    ensures var t := LoadAll(Items(image)).table;
            Init(Some(image)) == if t != [] then Outcome(true, t) else Outcome(false, Run([], BuiltinOps()))
  {
  }

  /** The map has the file with its bytes, as a program if its name ends in ".app" and as text if not. */
  ghost predicate Reads(m: FsMap, file: SourceFile) {
    var k := Components(file.path);
    k in m && m[k] == Entry(if IsProgram(file.path) then 2 else 1, file.content)
  }

  lemma {:induction false} ExactlyReads(files: seq<SourceFile>, m: FsMap)
    requires IsExactly(m, ItemsOf(files))
    ensures forall i :: 0 <= i < |files| ==> Reads(m, files[i])
  {
    hide IsProgram, EntryType, DirKeys, Components;
    forall i | 0 <= i < |files|
      ensures Reads(m, files[i])
    {
      EntryTypeIs(files[i].path);
      ItemIsIn(ItemsOf(files), i);
    }
  }

  /** Pack then load is the identity: the table holds exactly the packed files with their bytes and
      types and exactly their ancestor directories - if, and only if, they fit. */
  lemma {:induction false} PackThenLoad(files: seq<SourceFile>)
    requires GoodTree(files) && files != []
    ensures Readable(ImageOf(files)) && Recognized(ImageOf(files))
    ensures var o := Init(Some(ImageOf(files)));
            && (FitsTable(files) ==> o.ok && TreeTable(o.table) && IsExactly(Abs(o.table), ItemsOf(files)))
            && (!FitsTable(files) ==> LoadAll(Items(ImageOf(files))).count < |files|)
    ensures FitsTable(files) ==>
              var m := Abs(Init(Some(ImageOf(files))).table);
              forall i :: 0 <= i < |files| ==> Reads(m, files[i])
  {
    hide *;
    ImageUses(files);
    InitIs(ImageOf(files));
    LoadCounted(files);
    if FitsTable(files) {
      ExactlyReads(files, Abs(LoadAll(Items(ImageOf(files))).table));
      SomethingLoaded(LoadAll(Items(ImageOf(files))).table, ItemsOf(files));
    }
  }

  /** Whatever is packed, what gets loaded is a tree whose files are a prefix of the packed list. */
  lemma {:induction false} PackThenLoadPrefix(files: seq<SourceFile>)
    requires GoodTree(files)
    ensures Readable(ImageOf(files)) && Recognized(ImageOf(files))
    ensures var o, n := Init(Some(ImageOf(files))), LoadAll(Items(ImageOf(files))).count;
            && TreeTable(o.table) && n <= |files|
            && (o.ok ==> FilesAreExactly(Abs(o.table), ItemsOf(files)[..n]))
  {
    hide *;
    ImageUses(files);
    InitIs(ImageOf(files));
    LoadCounted(files);
    BuiltinIsTree();
  }

  lemma {:induction false} ImageUses(files: seq<SourceFile>)
    requires GoodTree(files)
    ensures Packable(files) && Readable(ImageOf(files)) && Recognized(ImageOf(files))
    ensures Counted(files) <= |files| == |ItemsOf(files)|
    ensures Items(ImageOf(files)) == ItemsOf(files)[..Counted(files)]
  {
    hide ImageOf, Packable, Items, PrefixFree, Readable, Recognized;
    ImageRoundTrip(files);
  }

  lemma {:induction false} BuiltinIsTree()
    ensures TreeTable(Run([], BuiltinOps()))
  {
    EmptyIsTree();
    hide Run, TreeTable, BuiltinOps;
    RunRefines([], BuiltinOps());
  }
}
