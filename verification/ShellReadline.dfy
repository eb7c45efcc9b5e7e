/** Reading a line with echo (shell_readline in kernel/shell.c): the buffer and the screen are
    edited side by side, and never drift apart. */
module ShellReadline {
  import opened LibString
  import opened Terminal

  /** The key code of backspace. */
  const ERASE := 8 as char

  /** The line so far, buffer[..len], and the screen. */
  datatype LineState = LineState(text: string, screen: Screen)

  /** One key other than the newline that ends the line. */
  function Type(st: LineState, key: char, limit: nat): (r: LineState)
    requires ScreenOk(st.screen)
    ensures ScreenOk(r.screen)
  {
    var n := |st.text|;
    if key == '\r' then st
    else if key == ERASE then if n > 0 then LineState(st.text[..n - 1], Backspace(st.screen)) else st
    else if !IsPrint(key) || n + 1 >= limit then st
    else LineState(st.text + [key], PutChar(st.screen, key))
  }

  function TypeAll(st: LineState, keys: string, limit: nat): (r: LineState)
    requires ScreenOk(st.screen)
    ensures ScreenOk(r.screen)
  {
    if keys == "" then st else Type(TypeAll(st, keys[..|keys| - 1], limit), keys[|keys| - 1], limit)
  }

  /** The cells just before the cursor spell the line. */
  ghost predicate Echoes(st: LineState) {
    && ScreenOk(st.screen)
    && |st.text| <= Position(st.screen)
    && forall i :: 0 <= i < |st.text| ==> st.screen.cells[Position(st.screen) - |st.text| + i].ch == st.text[i]
  }

  /** Lines that always fit above the last row. */
  const LIMIT_MAX := SIZE - WIDTH + 1

  lemma {:induction false} PutKeepsEcho(st: LineState, key: char)
    requires Echoes(st) && IsPrint(key) && |st.text| < SIZE - WIDTH
    ensures Echoes(LineState(st.text + [key], PutChar(st.screen, key)))
    ensures var p := Position(st.screen);
            Position(PutChar(st.screen, key)) == if p + 1 < SIZE then p + 1 else SIZE - WIDTH
  {
    var s, n := st.screen, |st.text|;
    var t := PutGlyph(s, key);
    var p := Position(s);
    assert PutChar(s, key) == t;
    var full := s.cells[p := Cell(key, s.color)];
    assert forall i :: 0 <= i < n ==> full[p - n + i].ch == st.text[i];
    GlyphGoes(s, key);
    hide PutGlyph, PutChar;
    if p + 1 == SIZE {
      Shifted(full, s.color);
    }
  }

  /** What a printed character does to cells and cursor. */
  lemma {:induction false} GlyphGoes(s: Screen, key: char)
    requires ScreenOk(s)
    ensures var t, full := PutGlyph(s, key), s.cells[Position(s) := Cell(key, s.color)];
            if Position(s) + 1 < SIZE then t.cells == full && Position(t) == Position(s) + 1
            else t.cells == full[WIDTH..] + BlankLine(s.color) && Position(t) == SIZE - WIDTH
    ensures ScreenOk(PutGlyph(s, key))
  {
  }

  lemma {:induction false} Shifted(full: seq<Cell>, color: nat)
    requires |full| == SIZE
    ensures forall k :: WIDTH <= k < SIZE ==> (full[WIDTH..] + BlankLine(color))[k - WIDTH] == full[k]
  {
  }

  /** A backspace on a non-empty line is never swallowed: the cursor goes back by one cell. */
  lemma {:induction false} BackspaceKeepsEcho(st: LineState)
    requires Echoes(st) && st.text != ""
    ensures Echoes(LineState(st.text[..|st.text| - 1], Backspace(st.screen)))
    ensures Position(Backspace(st.screen)) == Position(st.screen) - 1
  {
  }

  lemma {:induction false} TypeKeepsEcho(st: LineState, key: char, limit: nat)
    requires Echoes(st) && |st.text| < limit <= LIMIT_MAX
    ensures Echoes(Type(st, key, limit)) && |Type(st, key, limit).text| < limit
  {
    if key == ERASE && st.text != "" {
      BackspaceKeepsEcho(st);
    } else if IsPrint(key) && |st.text| + 1 < limit {
      PutKeepsEcho(st, key);
    }
  }

  /** Through any mix of typing, backspacing, wrapping and scrolling, from any cursor position, the
      screen spells the line. */
  lemma {:induction false} EchoAgrees(screen: Screen, keys: string, limit: nat)
    requires ScreenOk(screen) && 0 < limit <= LIMIT_MAX
    ensures var st := TypeAll(LineState("", screen), keys, limit);
            Echoes(st) && |st.text| < limit
  {
    if keys != "" {
      EchoAgrees(screen, keys[..|keys| - 1], limit);
      TypeKeepsEcho(TypeAll(LineState("", screen), keys[..|keys| - 1], limit), keys[|keys| - 1], limit);
    }
  }

  /** The line that results from the keys alone. */
  function Edited(keys: string, limit: nat): string {
    if keys == "" then ""
    else
      var line, key := Edited(keys[..|keys| - 1], limit), keys[|keys| - 1];
      if key == ERASE && line != "" then line[..|line| - 1]
      else if IsPrint(key) && |line| + 1 < limit then line + [key]
      else line
  }

  lemma {:induction false} LineIsEdited(screen: Screen, keys: string, limit: nat)
    requires ScreenOk(screen)
    ensures TypeAll(LineState("", screen), keys, limit).text == Edited(keys, limit)
    ensures '\0' !in Edited(keys, limit) && '\n' !in Edited(keys, limit)
  {
    if keys != "" {
      LineIsEdited(screen, keys[..|keys| - 1], limit);
    }
  }

  // ---------- What each key does ----------

  /** Editing, key by key: a key from ' ' to '~' is appended while there is room, backspace takes the last
      character away, and any other key leaves the line as it is. */
  lemma {:induction false} KeyEdits(keys: string, key: char, limit: nat)
    ensures var line, next := Edited(keys, limit), Edited(keys + [key], limit);
            && (' ' <= key <= '~' && |line| + 1 < limit ==> next == line + [key])
            && (' ' <= key <= '~' && |line| + 1 >= limit ==> next == line)
            && (key == 8 as char ==> next == if line == "" then "" else line[..|line| - 1])
            && (!(' ' <= key <= '~') && key != 8 as char ==> next == line)
    ensures Edited("", limit) == ""
  {
    assert (keys + [key])[..|keys|] == keys;
  }

  /** What is typed without control keys is the line, as far as there is room. */
  lemma {:induction false} TypedIsLine(keys: string, limit: nat)
    requires forall i :: 0 <= i < |keys| ==> ' ' <= keys[i] <= '~'
    ensures |keys| < limit ==> Edited(keys, limit) == keys
    ensures |keys| >= limit > 0 ==> Edited(keys, limit) == keys[..limit - 1]
  {
    hide Edited;
    KeyEdits("", ' ', limit);
    if keys != "" {
      var n := |keys| - 1;
      var init := keys[..n];
      TypedIsLine(init, limit);
      KeyEdits(init, keys[n], limit);
      assert keys == init + [keys[n]];
      assert n >= limit > 0 ==> init[..limit - 1] == keys[..limit - 1];
    }
  }

  /** A character and a backspace leave the line as it was. */
  lemma {:induction false} BackspaceUndoesKey(keys: string, key: char, limit: nat)
    requires ' ' <= key <= '~' && |Edited(keys, limit)| + 1 < limit
    ensures Edited(keys + [key] + [8 as char], limit) == Edited(keys, limit)
  {
    KeyEdits(keys, key, limit);
    KeyEdits(keys + [key], 8 as char, limit);
  }

  // ---------- What is left of the screen ----------

  /** From the cursor on the screen is blank. */
  ghost predicate BlankAhead(s: Screen) {
    ScreenOk(s) && forall k :: Position(s) <= k < 2000 ==> s.cells[k] == Cell(' ', s.color)
  }

  lemma {:induction false} GlyphKeepsBlank(s: Screen, key: char)
    requires BlankAhead(s) && ' ' <= key <= '~'
    ensures BlankAhead(PutChar(s, key))
  {
    GlyphEffect(s, key);
    hide PutChar, Position;
  }

  lemma {:induction false} BackspaceKeepsBlank(s: Screen)
    requires BlankAhead(s)
    ensures BlankAhead(Backspace(s))
  {
    BackspaceEffect(s);
    hide Backspace, Position;
  }

  /** Nothing erased stays on the screen: a screen that is blank from the cursor on is so after any keys,
      through wrapping and scrolling. */
  lemma {:induction false} NothingIsLeft(screen: Screen, keys: string, limit: nat)
    requires BlankAhead(screen)
    ensures BlankAhead(TypeAll(LineState("", screen), keys, limit).screen)
  {
    hide PutChar, Backspace, BlankAhead;
    assert ScreenOk(screen) by {
      BlankIsScreen(screen);
    }
    if keys != "" {
      var st := TypeAll(LineState("", screen), keys[..|keys| - 1], limit);
      NothingIsLeft(screen, keys[..|keys| - 1], limit);
      var key := keys[|keys| - 1];
      if key == ERASE {
        BackspaceKeepsBlank(st.screen);
      } else if IsPrint(key) {
        GlyphKeepsBlank(st.screen, key);
      }
    }
  }

  lemma {:induction false} BlankIsScreen(s: Screen)
    requires BlankAhead(s)
    ensures ScreenOk(s)
  {
  }

  /** A text printed character by character (terminal_write). */
  function PutAll(s: Screen, text: string): (t: Screen)
    requires ScreenOk(s)
    ensures ScreenOk(t)
  {
    if text == "" then s else PutChar(PutAll(s, text[..|text| - 1]), text[|text| - 1])
  }

  lemma {:induction false} PutAllGoesOn(s: Screen, text: string)
    requires BlankAhead(s) && Position(s) + |text| < 2000 && forall i :: 0 <= i < |text| ==> ' ' <= text[i] <= '~'
    ensures BlankAhead(PutAll(s, text)) && Position(PutAll(s, text)) == Position(s) + |text|
  {
    if text != "" {
      var n := |text| - 1;
      PutAllGoesOn(s, text[..n]);
      GlyphKeepsBlank(PutAll(s, text[..n]), text[n]);
      GlyphEffect(PutAll(s, text[..n]), text[n]);
      hide PutChar, Position, BlankAhead;
    }
  }

  /** Where the line cannot reach the end of the screen, all the typing and erasing leaves the screen
      exactly as if the final line alone had been printed. */
  lemma {:induction false} ScreenIsPrinted(screen: Screen, keys: string, limit: nat)
    requires BlankAhead(screen) && 0 < limit && Position(screen) + limit <= 2000
    ensures var st := TypeAll(LineState("", screen), keys, limit);
            && st.screen == PutAll(screen, st.text) && |st.text| < limit
            && forall i :: 0 <= i < |st.text| ==> ' ' <= st.text[i] <= '~'
  {
    hide PutChar, Backspace, BlankAhead, Position;
    BlankIsScreen(screen);
    if keys != "" {
      var st, key := TypeAll(LineState("", screen), keys[..|keys| - 1], limit), keys[|keys| - 1];
      ScreenIsPrinted(screen, keys[..|keys| - 1], limit);
      var n := |st.text|;
      if key == ERASE && n > 0 {
        PutAllGoesOn(screen, st.text[..n - 1]);
        var before := PutAll(screen, st.text[..n - 1]);
        CursorIsBlank(before);
        BackspaceUndoes(before, st.text[n - 1]);
      } else if IsPrint(key) && n + 1 < limit {
        assert (st.text + [key])[..n] == st.text;
      }
    }
  }

  lemma {:induction false} CursorIsBlank(s: Screen)
    requires BlankAhead(s)
    ensures Position(s) < 2000 && s.cells[Position(s)] == Cell(' ', s.color)
  {
  }

  /** After a backspace on a non-empty line the cell at the cursor is blank. */
  lemma {:induction false} BackspaceLeavesBlank(screen: Screen, keys: string, limit: nat)
    requires ScreenOk(screen) && 0 < limit <= LIMIT_MAX && Edited(keys, limit) != ""
    ensures var s := TypeAll(LineState("", screen), keys, limit).screen;
            var t := TypeAll(LineState("", screen), keys + [8 as char], limit).screen;
            Position(t) + 1 == Position(s) && t.cells[Position(t)] == Cell(' ', s.color)
  {
    EchoAgrees(screen, keys, limit);
    LineIsEdited(screen, keys, limit);
    assert (keys + [8 as char])[..|keys|] == keys;
    var st := TypeAll(LineState("", screen), keys, limit);
    assert Position(st.screen) > 0;
    BackspaceEffect(st.screen);
    hide Backspace, Position, Edited;
  }

  /** shell_readline on the keys as they come; they contain the newline that ends the line. */
  method ReadLine(console: Console, keys: string, buffer: array<char>, limit: nat) returns (used: nat)
    requires console.Valid() && 0 < limit <= buffer.Length && '\n' in keys
    modifies console`row, console`column, console.cells, buffer
    ensures console.Valid() && used < |keys| && keys[used] == '\n' && '\n' !in keys[..used]
    ensures CString(buffer[..]) == Edited(keys[..used], limit)
    ensures used < limit && (forall i :: 0 <= i < used ==> ' ' <= keys[i] <= '~') ==>
              CString(buffer[..]) == keys[..used]
    ensures console.Value() ==
            PutChar(TypeAll(LineState("", old(console.Value())), keys[..used], limit).screen, '\n')
  {
    hide PutChar, Backspace, TypeAll, Edited;
    var len := 0;
    used := 0;
    ghost var start := LineState("", console.Value());
    NoKeys(start, limit);
    assert keys[..0] == "";
    while keys[used] != '\n'
      invariant console.Valid() && used < |keys| && '\n' !in keys[..used] && '\n' in keys[used..]
      invariant len < limit
      invariant LineState(buffer[..len], console.Value()) == TypeAll(start, keys[..used], limit)
      decreases |keys| - used
    {
      var key := keys[used];
      OneKey(start, keys, used, limit);
      ghost var line := buffer[..len];
      used := used + 1;
      if key == '\r' {
        continue;
      }
      if key == ERASE {
        if len > 0 {
          len := len - 1;
          console.Erase();
          assert buffer[..len] == line[..len];
        }
        continue;
      }
      if !IsPrint(key) || len + 1 >= limit {
        continue;
      }
      buffer[len] := key;
      len := len + 1;
      console.Put(key);
      assert buffer[..len] == line + [key];
    }
    console.Put('\n');
    LineIsEdited(start.screen, keys[..used], limit);
    if forall i :: 0 <= i < used ==> ' ' <= keys[i] <= '~' {
      TypedIsLine(keys[..used], limit);
    }
    Close(buffer, len, Edited(keys[..used], limit));
  }

  lemma {:induction false} NoKeys(st: LineState, limit: nat)
    requires ScreenOk(st.screen)
    ensures TypeAll(st, "", limit) == st
  {
  }

  lemma {:induction false} OneKey(st: LineState, keys: string, used: nat, limit: nat)
    requires ScreenOk(st.screen) && used < |keys|
    ensures TypeAll(st, keys[..used + 1], limit) == Type(TypeAll(st, keys[..used], limit), keys[used], limit)
  {
    assert keys[..used + 1][..used] == keys[..used];
  }
}
