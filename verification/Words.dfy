/** Cutting a command line into words and joining words again (kernel/shell.c). */
module Words {
  import opened LibString

  const INPUT_MAX := 256
  const ARG_MAX := 16

  predicate IsWord(w: string) {
    w != "" && forall i :: 0 <= i < |w| ==> !IsSpace(w[i])
  }

  /** The pieces of s between spaces. */
  function WordsOf(s: string): (ws: seq<string>)
    ensures forall i :: 0 <= i < |ws| ==> IsWord(ws[i])
    ensures s != "" && !IsSpace(s[0]) ==> ws != []
  {
    if s == "" then []
    else if IsSpace(s[0]) then WordsOf(s[1..])
    else if |s| == 1 || IsSpace(s[1]) then [[s[0]]] + WordsOf(s[1..])
    else
      var rest := WordsOf(s[1..]);
      [[s[0]] + rest[0]] + rest[1..]
  }

  /** Words separated by single spaces. */
  function Joined(ws: seq<string>): string {
    if ws == [] then "" else if |ws| == 1 then ws[0] else ws[0] + " " + Joined(ws[1..])
  }

  /** Text that does not begin with a word. */
  predicate Blank(s: string) {
    s == "" || IsSpace(s[0])
  }

  lemma {:induction false} WordFirst(w: string, rest: string)
    requires IsWord(w) && Blank(rest)
    ensures WordsOf(w + rest) == [w] + WordsOf(rest)
  {
    var s := w + rest;
    assert s[0] == w[0];
    if |w| == 1 {
      assert s[1..] == rest && [w[0]] == w;
    } else {
      assert s[1..] == w[1..] + rest && s[1] == w[1];
      WordFirst(w[1..], rest);
      assert [w[0]] + w[1..] == w;
    }
  }

  /** Cutting a joined list of words gives back the list. */
  lemma {:induction false} WordsOfJoined(ws: seq<string>)
    requires forall i :: 0 <= i < |ws| ==> IsWord(ws[i])
    ensures WordsOf(Joined(ws)) == ws
  {
    if ws != [] {
      var rest := if |ws| == 1 then "" else " " + Joined(ws[1..]);
      assert Joined(ws) == ws[0] + rest;
      WordFirst(ws[0], rest);
      if |ws| > 1 {
        WordsOfJoined(ws[1..]);
        assert rest[1..] == Joined(ws[1..]);
      }
      assert ws == [ws[0]] + ws[1..];
    }
  }

  lemma {:induction false} WordsUnfold(s: string)
    requires s != ""
    ensures !IsSpace(s[0]) && |s| > 1 && !IsSpace(s[1]) ==> WordsOf(s[1..]) != []
    ensures var ws := WordsOf(s[1..]);
            WordsOf(s) == if IsSpace(s[0]) then ws
                          else if |s| == 1 || IsSpace(s[1]) then [[s[0]]] + ws
                          else [[s[0]] + ws[0]] + ws[1..]
    ensures WordsOf("") == []
  {
  }

  lemma {:induction false} WordsConcat(a: string, c: char, b: string)
    requires IsSpace(c)
    ensures WordsOf(a + [c] + b) == WordsOf(a) + WordsOf(b)
  {
    hide WordsOf, IsWord;
    var s := a + [c] + b;
    WordsUnfold(s);
    if a == "" {
      assert s[1..] == b;
      WordsUnfold([c]);
    } else {
      assert s[1..] == a[1..] + [c] + b && s[0] == a[0];
      WordsUnfold(a);
      WordsConcat(a[1..], c, b);
      assert |a| > 1 ==> s[1] == a[1];
      assert |a| == 1 ==> s[1] == c && a[1..] == "";
    }
  }

  /** Cutting, without naming what a space is: a text splits into words at each of the four space
      characters, and a text without them is one word. */
  lemma {:induction false} WordsSplit(a: string, c: char, b: string)
    requires c == ' ' || c == '\t' || c == '\n' || c == '\r'
    ensures WordsOf(a + [c] + b) == WordsOf(a) + WordsOf(b)
  {
    WordsConcat(a, c, b);
  }

  lemma {:induction false} OneWord(w: string)
    requires w != "" && ' ' !in w && '\t' !in w && '\n' !in w && '\r' !in w
    ensures WordsOf(w) == [w]
  {
    assert IsWord(w) by {
      assert forall i :: 0 <= i < |w| ==> w[i] in w;
    }
    assert w + "" == w;
    WordFirst(w, "");
  }

  /** Joining never makes a text longer. */
  lemma {:induction false} JoinedLength(s: string)
    ensures |Joined(WordsOf(s))| <= |s|
    ensures s != "" && IsSpace(s[0]) && WordsOf(s) != [] ==> |Joined(WordsOf(s))| < |s|
  {
    if s != "" {
      JoinedLength(s[1..]);
      var rest := WordsOf(s[1..]);
      if !IsSpace(s[0]) {
        if |s| == 1 || IsSpace(s[1]) {
          assert WordsOf(s)[1..] == rest;
        } else {
          assert WordsOf(s)[1..] == rest[1..];
        }
      }
    }
  }

  /** The first word and what follows it. */
  function FirstWord(s: string): string {
    if Blank(s) then "" else [s[0]] + FirstWord(s[1..])
  }

  function AfterWord(s: string): (r: string)
    ensures |r| <= |s| && Blank(r)
    ensures !Blank(s) ==> |r| < |s|
  {
    if Blank(s) then s else AfterWord(s[1..])
  }

  lemma {:induction false} FirstWordIs(s: string)
    requires !Blank(s)
    ensures IsWord(FirstWord(s)) && s == FirstWord(s) + AfterWord(s)
    ensures WordsOf(s) == [FirstWord(s)] + WordsOf(AfterWord(s))
  {
    WordSplit(s);
    WordFirst(FirstWord(s), AfterWord(s));
  }

  lemma {:induction false} WordSplit(s: string)
    ensures s == FirstWord(s) + AfterWord(s)
    ensures forall i :: 0 <= i < |FirstWord(s)| ==> !IsSpace(FirstWord(s)[i])
    ensures !Blank(s) ==> FirstWord(s) != ""
  {
    if !Blank(s) {
      WordSplit(s[1..]);
      assert s == [s[0]] + s[1..];
    }
  }

  lemma {:induction false} WordsAfterSpaces(s: string)
    ensures WordsOf(SkipSpaces(s)) == WordsOf(s)
  {
    if s != "" && IsSpace(s[0]) {
      WordsAfterSpaces(s[1..]);
    }
  }

  // ---------- Lines that differ in spaces only ----------

  /** The same words, and both at, or both not at, the beginning of one. */
  predicate Alike(s: string, s': string) {
    WordsOf(s) == WordsOf(s') && Blank(s) == Blank(s')
  }

  lemma {:induction false} SkipAlike(s: string, s': string)
    requires WordsOf(s) == WordsOf(s')
    ensures Alike(SkipSpaces(s), SkipSpaces(s'))
  {
    WordsAfterSpaces(s);
    WordsAfterSpaces(s');
  }

  /** One step within a word, side by side. */
  lemma {:induction false} StepAlike(s: string, s': string)
    requires Alike(s, s') && !Blank(s)
    ensures s[0] == s'[0] && Alike(s[1..], s'[1..])
  {
    var w, w' := WordsOf(s)[0], WordsOf(s')[0];
    WordHead(s);
    WordHead(s');
  }

  lemma {:induction false} WordHead(s: string)
    requires !Blank(s)
    ensures WordsOf(s) != [] && WordsOf(s)[0][0] == s[0]
    ensures Blank(s[1..]) <==> |WordsOf(s)[0]| == 1
    ensures Blank(s[1..]) ==> WordsOf(s[1..]) == WordsOf(s)[1..]
    ensures !Blank(s[1..]) ==> WordsOf(s[1..]) == [WordsOf(s)[0][1..]] + WordsOf(s)[1..]
  {
  }

  /** What a buffer with room for `limit` characters keeps of s. */
  function Truncated(s: string, limit: nat): string {
    if |s| <= limit then s else s[..limit]
  }

  /** The buffer holds the first part of what is to be written. */
  ghost predicate Wrote(output: seq<char>, out: nat, full: string, limit: nat)
    requires limit <= |output|
  {
    0 < limit && out < limit && output[..out] == Truncated(full, limit - 1)
  }

  /** Writes one character unless the buffer is full. */
  method Put(output: array<char>, out: nat, ch: char, limit: nat, ghost full: string) returns (next: nat)
    requires 0 < limit <= output.Length && Wrote(output[..], out, full, limit)
    modifies output
    ensures Wrote(output[..], next, full + [ch], limit)
  {
    next := out;
    if out + 1 < limit {
      output[out] := ch;
      next := out + 1;
      assert output[..next] == full + [ch];
    } else {
      assert (full + [ch])[..limit - 1] == full[..limit - 1];
    }
  }

  /** The words from `start` on, each with a space in front, after the first one. */
  function Tail(ws: seq<string>, from: nat, to: nat): string
    requires from <= to <= |ws|
  {
    if from == to then "" else if to == from + 1 then ws[from] else Tail(ws, from, to - 1) + " " + ws[to - 1]
  }

  lemma {:induction false} TailIsJoined(ws: seq<string>, from: nat, to: nat)
    requires from <= to <= |ws|
    ensures Tail(ws, from, to) == Joined(ws[from..to])
  {
    var part := ws[from..to];
    if to > from + 1 {
      TailIsJoined(ws, from, to - 1);
      assert part[..|part| - 1] == ws[from..to - 1];
      JoinedSnoc(ws[from..to - 1], ws[to - 1]);
      assert part == ws[from..to - 1] + [ws[to - 1]];
    }
  }

  /** Joining puts one blank between two words. */
  lemma {:induction false} JoinedSnoc(ws: seq<string>, w: string)
    requires ws != []
    ensures Joined(ws + [w]) == Joined(ws) + " " + w
  {
    var all := ws + [w];
    assert all[1..] == ws[1..] + [w];
    if |ws| > 1 {
      JoinedSnoc(ws[1..], w);
      assert ws[0] + " " + (Joined(ws[1..]) + " " + w) == (ws[0] + " " + Joined(ws[1..])) + " " + w;
    }
  }

  /** The inner loop of shell_join_args. */
  method PutWord(output: array<char>, out: nat, w: string, limit: nat, ghost full: string) returns (next: nat)
    requires 0 < limit <= output.Length && Wrote(output[..], out, full, limit)
    modifies output
    ensures Wrote(output[..], next, full + w, limit)
  {
    next := out;
    var j := 0;
    assert full + w[..0] == full;
    while j < |w|
      invariant j <= |w| && Wrote(output[..], next, full + w[..j], limit)
    {
      assert full + w[..j + 1] == full + w[..j] + [w[j]];
      next := Put(output, next, w[j], limit, full + w[..j]);
      j := j + 1;
    }
    assert w[..j] == w;
  }

  /** shell_join_args */
  method JoinArgs(start: nat, argv: seq<string>, output: array<char>, limit: nat)
    requires start <= |argv| && limit <= output.Length
    requires forall k :: 0 <= k < |argv| ==> '\0' !in argv[k]
    modifies output
    ensures limit > 0 ==> CString(output[..]) == Truncated(Joined(argv[start..]), limit - 1)
    ensures limit > 0 ==> CString(output[..]) <= Joined(argv[start..])
    ensures limit > 0 ==> CString(output[..]) == Joined(argv[start..]) || |CString(output[..])| == limit - 1
    ensures limit == 0 ==> output[..] == old(output[..])
  {
    if limit == 0 {
      return;
    }
    hide Joined;
    var out: nat := 0;
    output[0] := '\0';
    var i := start;
    while i < |argv|
      invariant start <= i <= |argv| && Wrote(output[..], out, Tail(argv, start, i), limit)
    {
      ghost var full := Tail(argv, start, i);
      if i > start {
        out := Put(output, out, ' ', limit, full);
        full := full + " ";
      }
      out := PutWord(output, out, argv[i], limit, full);
      i := i + 1;
    }
    TailIsJoined(argv, start, |argv|);
    assert argv[start..|argv|] == argv[start..];
    JoinedNoNul(argv[start..]);
    Close(output, out, Truncated(Joined(argv[start..]), limit - 1));
  }

  lemma {:induction false} JoinedNoNul(ws: seq<string>)
    requires forall k :: 0 <= k < |ws| ==> '\0' !in ws[k]
    ensures '\0' !in Joined(ws)
  {
    if |ws| > 1 {
      JoinedNoNul(ws[1..]);
    }
  }

  // ---------- The tokenizer, in place ----------

  /** The word w stands in the buffer at position at, closed by a NUL before `limit`. */
  ghost predicate Stands(b: seq<char>, at: nat, w: string, limit: nat) {
    at + |w| < limit <= |b| && b[at..at + |w|] == w && b[at + |w|] == '\0' && '\0' !in w
  }

  lemma {:induction false} StandsReads(b: seq<char>, at: nat, w: string, limit: nat)
    requires Stands(b, at, w, limit)
    ensures CString(b[at..]) == w
  {
    assert b[at..][..|w|] == w;
    assert forall i :: 0 <= i < |w| ==> b[at..][i] == w[i];
    CStringIs(b[at..], |w|);
  }

  lemma {:induction false} FirstWordEnds(s: string, n: nat)
    requires n <= |s| && forall k :: 0 <= k < n ==> !IsSpace(s[k])
    requires n < |s| ==> IsSpace(s[n])
    ensures FirstWord(s) == s[..n] && AfterWord(s) == s[n..]
  {
    if n > 0 {
      FirstWordEnds(s[1..], n - 1);
      assert s[..n] == [s[0]] + s[1..][..n - 1];
    }
  }

  /** The buffer still holds the text from this position on, closed by its NUL. */
  ghost predicate Holds(b: seq<char>, text: string, from: nat) {
    && from <= |text| < |b| && b[|text|] == '\0'
    && forall k :: from <= k < |text| ==> b[k] == text[k] != '\0'
  }

  /** From the beginning of a word to the space or NUL behind it. */
  method WordEnd(line: array<char>, from: nat, ghost text: string) returns (cursor: nat)
    requires Holds(line[..], text, from)
    ensures from <= cursor <= |text|
    ensures text[from..cursor] == FirstWord(text[from..]) && text[cursor..] == AfterWord(text[from..])
  {
    cursor := from;
    while line[cursor] != '\0' && !IsSpace(line[cursor])
      invariant from <= cursor <= |text|
      invariant forall k :: from <= k < cursor ==> !IsSpace(text[k])
      decreases |text| - cursor
    {
      cursor := cursor + 1;
    }
    FirstWordEnds(text[from..], cursor - from);
    assert text[from..][..cursor - from] == text[from..cursor] && text[from..][cursor - from..] == text[cursor..];
  }

  method SpacesEnd(line: array<char>, from: nat, ghost text: string) returns (cursor: nat)
    requires Holds(line[..], text, from)
    ensures from <= cursor <= |text| && text[cursor..] == SkipSpaces(text[from..])
  {
    cursor := from;
    while IsSpace(line[cursor])
      invariant from <= cursor <= |text| && SkipSpaces(text[cursor..]) == SkipSpaces(text[from..])
      decreases |text| - cursor
    {
      assert text[cursor..][1..] == text[cursor + 1..];
      cursor := cursor + 1;
    }
  }

  /** The words taken so far stand in the buffer below `limit`. */
  ghost predicate Cut(b: seq<char>, argv: seq<nat>, words: seq<string>, limit: nat) {
    |argv| <= |words| && forall k :: 0 <= k < |argv| ==> Stands(b, argv[k], words[k], limit)
  }

  /** Taking the next word: what lies below the old limit is untouched. */
  lemma {:induction false} CutOneMore(b: seq<char>, b': seq<char>, argv: seq<nat>, words: seq<string>,
                                      below: nat, at: nat, limit: nat)
    requires Cut(b, argv, words, below) && |argv| < |words|
    requires |b'| == |b| && below <= limit && forall k :: 0 <= k < below && k < |b| ==> b'[k] == b[k]
    requires Stands(b', at, words[|argv|], limit)
    ensures Cut(b', argv + [at], words, limit)
  {
  }

  /** The list of words splits at the next one. */
  lemma {:induction false} NextWord(text: string, start: nat, end: nat, words: seq<string>, n: nat)
    requires start < |text| && !IsSpace(text[start]) && start <= end <= |text| && n <= |words|
    requires WordsOf(text[start..]) == words[n..]
    requires text[start..end] == FirstWord(text[start..]) && text[end..] == AfterWord(text[start..])
    ensures n < |words| && words[n] == text[start..end] && words[n + 1..] == WordsOf(text[end..])
    ensures end < |text| ==> IsSpace(text[end]) && words[n + 1..] == WordsOf(text[end + 1..])
    ensures end == |text| ==> n + 1 == |words|
  {
    FirstWordIs(text[start..]);
    assert words[n..][1..] == words[n + 1..];
    if end < |text| {
      assert text[end..][1..] == text[end + 1..];
    }
  }

  /** The inner part of the loop in shell_tokenize: the word that begins at start is taken. */
  method TakeWord(line: array<char>, start: nat, argv: seq<nat>, ghost text: string, ghost words: seq<string>)
    returns (cursor: nat, last: bool)
    requires Holds(line[..], text, start) && start < |text| && !IsSpace(text[start])
    requires Cut(line[..], argv, words, start) && WordsOf(text[start..]) == words[|argv|..]
    modifies line
    ensures |argv| < |words|
    ensures !last ==> && start < cursor <= |text| && Holds(line[..], text, cursor)
                      && Cut(line[..], argv + [start], words, cursor)
                      && WordsOf(text[cursor..]) == words[|argv| + 1..]
    ensures last ==> Cut(line[..], argv + [start], words, line.Length) && |argv| + 1 == |words|
  {
    hide WordsOf, FirstWord, AfterWord;
    cursor := WordEnd(line, start, text);
    NextWord(text, start, cursor, words, |argv|);
    ghost var w := text[start..cursor];
    assert forall k :: 0 <= k < |w| ==> w[k] == text[start + k] && w[k] != '\0';
    ghost var before := line[..];
    assert before[start..cursor] == w;
    last := line[cursor] == '\0';
    if !last {
      line[cursor] := '\0';
      assert line[..][start..cursor] == w;
      cursor := cursor + 1;
    }
    CutOneMore(before, line[..], argv, words, start, start, if last then line.Length else cursor);
  }

  /** shell_tokenize: NULs are written over the line; argv holds positions in it. */
  method Tokenize(line: array<char>, maxArgs: nat, ghost text: string) returns (argv: seq<nat>)
    requires Holds(line[..], text, 0)
    modifies line
    ensures |argv| == if |WordsOf(text)| <= maxArgs then |WordsOf(text)| else maxArgs
    ensures forall k :: 0 <= k < |argv| ==> argv[k] <= line.Length && CString(line[argv[k]..]) == WordsOf(text)[k]
  {
    hide WordsOf, Stands;
    argv := [];
    var cursor := 0;
    ghost var words, limit := WordsOf(text), 0;
    assert text[0..] == text && words[0..] == words;
    NoWords();
    while line[cursor] != '\0' && |argv| < maxArgs
      invariant cursor <= |text| && Holds(line[..], text, cursor)
      invariant |argv| <= maxArgs && limit == cursor && Cut(line[..], argv, words, limit)
      invariant WordsOf(text[cursor..]) == words[|argv|..]
      decreases |text| - cursor
    {
      WordsAfterSpaces(text[cursor..]);
      cursor := SpacesEnd(line, cursor, text);
      CutLater(line[..], argv, words, limit, cursor);
      limit := cursor;
      if line[cursor] == '\0' {
        break;
      }
      var start, last := cursor, false;
      cursor, last := TakeWord(line, start, argv, text, words);
      argv := argv + [start];
      limit := if last then line.Length else cursor;
      if last {
        break;
      }
    }
    CutReads(line[..], argv, words, limit);
  }

  lemma {:induction false} NoWords()
    ensures WordsOf("") == []
  {
  }

  lemma {:induction false} CutLater(b: seq<char>, argv: seq<nat>, words: seq<string>, limit: nat, later: nat)
    requires Cut(b, argv, words, limit) && limit <= later <= |b|
    ensures Cut(b, argv, words, later)
  {
  }

  lemma {:induction false} CutReads(b: seq<char>, argv: seq<nat>, words: seq<string>, limit: nat)
    requires Cut(b, argv, words, limit)
    ensures forall k :: 0 <= k < |argv| ==> argv[k] <= |b| && CString(b[argv[k]..]) == words[k]
  {
    forall k | 0 <= k < |argv|
      ensures argv[k] <= |b| && CString(b[argv[k]..]) == words[k]
    {
      StandsReads(b, argv[k], words[k], limit);
    }
  }
}
