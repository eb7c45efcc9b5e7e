/** Path text: '/'-separated components, the normal form the slot table stores, and the
    string tests the file system performs on normal forms (kernel/fs.c). */
module Paths {
  import opened LibString

  const PATH_MAX := 64

  /** The text of a path as a list of component names, with empty pieces dropped. */
  type Key = seq<string>

  predicate IsComponent(c: string) {
    c != "" && '/' !in c
  }

  predicate IsKey(k: Key) {
    forall i :: 0 <= i < |k| ==> IsComponent(k[i])
  }

  /** The non-empty pieces of s between slashes. */
  function Components(s: string): (cs: Key)
    ensures IsKey(cs)
    ensures s != "" && s[0] != '/' ==> cs != []
  {
    if s == "" then []
    else if s[0] == '/' then Components(s[1..])
    else if |s| == 1 || s[1] == '/' then [[s[0]]] + Components(s[1..])
    else
      var rest := Components(s[1..]);
      [[s[0]] + rest[0]] + rest[1..]
  }

  function Join(cs: Key): string {
    if cs == [] then "" else if |cs| == 1 then cs[0] else cs[0] + "/" + Join(cs[1..])
  }

  /** Text that is already in the form the table stores. */
  predicate Normal(s: string) {
    s == Join(Components(s))
  }

  // ---------- Laws of Components and Join ----------

  lemma {:induction false} ComponentsConcat(a: string, b: string)
    ensures Components(a + "/" + b) == Components(a) + Components(b)
  {
    var s := a + "/" + b;
    if a == "" {
      assert s[1..] == b;
    } else {
      assert s[1..] == a[1..] + "/" + b;
      ComponentsConcat(a[1..], b);
      if |a| > 1 {
        assert s[..1] == a[..1] && s[1] == a[1];
      } else {
        assert a[1..] == "" && s[..1] == a[..1];
      }
    }
  }

  lemma {:induction false} ComponentsOfComponent(c: string)
    requires IsComponent(c)
    ensures Components(c) == [c]
  {
    assert c[0] in c;
    if |c| == 1 {
      assert c[1..] == "" && [c[0]] == c;
    } else {
      assert c[1] in c;
      assert IsComponent(c[1..]);
      ComponentsOfComponent(c[1..]);
      assert c == [c[0]] + c[1..];
    }
  }

  lemma {:induction false} ComponentsOfJoin(cs: Key)
    requires IsKey(cs)
    ensures Components(Join(cs)) == cs
  {
    if cs == [] {
    } else {
      ComponentsOfComponent(cs[0]);
      if |cs| > 1 {
        ComponentsOfJoin(cs[1..]);
        ComponentsConcat(cs[0], Join(cs[1..]));
        assert cs == [cs[0]] + cs[1..];
      } else {
        assert cs == [cs[0]];
      }
    }
  }

  lemma {:induction false} JoinInjective(a: Key, b: Key)
    requires IsKey(a) && IsKey(b) && Join(a) == Join(b)
    ensures a == b
  {
    ComponentsOfJoin(a);
    ComponentsOfJoin(b);
  }

  lemma {:induction false} JoinConcat(a: Key, b: Key)
    requires a != [] && b != []
    ensures Join(a + b) == Join(a) + "/" + Join(b)
  {
    if |a| == 1 {
      assert (a + b)[1..] == b;
    } else {
      JoinConcat(a[1..], b);
      assert (a + b)[1..] == a[1..] + b;
      assert (a + b)[0] == a[0];
      var x, y, z := a[0], Join(a[1..]), Join(b);
      assert x + "/" + (y + "/" + z) == (x + "/" + y) + "/" + z;
    }
  }

  lemma {:induction false} JoinNonempty(cs: Key)
    requires IsKey(cs)
    ensures cs == [] <==> Join(cs) == ""
    ensures cs != [] ==> Join(cs)[0] != '/' && Join(cs)[|Join(cs)| - 1] != '/'
  {
    if cs != [] {
      assert IsComponent(cs[0]);
      assert cs[0][0] in cs[0] && cs[0][|cs[0]| - 1] in cs[0];
      if |cs| > 1 {
        JoinNonempty(cs[1..]);
      }
    }
  }

  // ---------- Appending one character ----------

  lemma {:induction false} ComponentsSnocSlash(s: string)
    ensures Components(s + "/") == Components(s)
  {
    ComponentsConcat(s, "");
    assert s + "/" + "" == s + "/";
  }

  function Extend(cs: Key, ch: char): Key
    requires cs != []
  {
    cs[..|cs| - 1] + [cs[|cs| - 1] + [ch]]
  }

  lemma {:induction false} ComponentsSnoc(s: string, ch: char)
    requires ch != '/'
    ensures s == "" || s[|s| - 1] == '/' ==> Components(s + [ch]) == Components(s) + [[ch]]
    ensures s != "" && s[|s| - 1] != '/' ==>
              Components(s) != [] && Components(s + [ch]) == Extend(Components(s), ch)
  {
    if s == "" || s[|s| - 1] == '/' {
      ComponentsOfComponent([ch]);
      if s != "" {
        var p := s[..|s| - 1];
        assert s == p + "/" && s + [ch] == p + "/" + [ch];
        ComponentsConcat(p, [ch]);
        ComponentsSnocSlash(p);
      } else {
        assert s + [ch] == [ch];
      }
    } else {
      LastRun(s, ch);
    }
  }

  lemma {:induction false} ComponentsUnfold(s: string)
    requires |s| > 1
    ensures s[0] != '/' && s[1] != '/' ==> Components(s[1..]) != []
    ensures var c := Components(s[1..]);
            Components(s) == if s[0] == '/' then c
                             else if s[1] == '/' then [[s[0]]] + c
                             else [[s[0]] + c[0]] + c[1..]
  {
  }

  lemma {:induction false} ExtendBehind(c: Key, x: string, ch: char)
    requires c != []
    ensures Extend([x] + c, ch) == [x] + Extend(c, ch)
    ensures Extend([x + c[0]] + c[1..], ch) == [x + Extend(c, ch)[0]] + Extend(c, ch)[1..]
  {
    assert x + (c[0] + [ch]) == (x + c[0]) + [ch];
  }

  /** The last piece of text that does not end in a slash grows by the new character. */
  lemma {:induction false} LastRun(s: string, ch: char)
    requires ch != '/' && s != "" && s[|s| - 1] != '/'
    ensures Components(s) != [] && Components(s + [ch]) == Extend(Components(s), ch)
  {
    hide IsKey, IsComponent;
    var t := s + [ch];
    assert t[1..] == s[1..] + [ch];
    if |s| == 1 {
      ComponentsOfComponent(s);
      ComponentsOfComponent(t);
    } else {
      LastRun(s[1..], ch);
      ComponentsUnfold(s);
      ComponentsUnfold(t);
      hide Components, Extend;
      ExtendBehind(Components(s[1..]), [s[0]], ch);
    }
  }

  lemma {:induction false} JoinExtend(cs: Key, ch: char)
    requires cs != []
    ensures Join(Extend(cs, ch)) == Join(cs) + [ch]
  {
    if |cs| > 1 {
      assert Extend(cs, ch)[1..] == Extend(cs[1..], ch);
      JoinExtend(cs[1..], ch);
      assert (cs[0] + "/" + Join(cs[1..])) + [ch] == cs[0] + "/" + (Join(cs[1..]) + [ch]);
    }
  }

  // ---------- Collapsed text: what the normalizer has written after reading s ----------

  function Collapsed(s: string): string {
    var cs := Components(s);
    if cs != [] && s[|s| - 1] == '/' then Join(cs) + "/" else Join(cs)
  }

  /** One more character read. */
  lemma {:induction false} CollapsedSnoc(s: string, ch: char)
    ensures Collapsed(s + [ch]) ==
            if ch != '/' then Collapsed(s) + [ch]
            else if Components(s) == [] || s[|s| - 1] == '/' then Collapsed(s)
            else Collapsed(s) + "/"
  {
    var t := s + [ch];
    assert t[|t| - 1] == ch;
    if ch == '/' {
      assert t == s + "/";
      ComponentsSnocSlash(s);
    } else {
      CollapsedSnocName(s, ch);
    }
  }

  lemma {:induction false} CollapsedSnocName(s: string, ch: char)
    requires ch != '/'
    ensures Collapsed(s + [ch]) == Collapsed(s) + [ch]
  {
    ComponentsSnoc(s, ch);
    var cs := Components(s);
    assert Collapsed(s + [ch]) == Join(Components(s + [ch]));
    if s == "" || s[|s| - 1] == '/' {
      if cs != [] {
        JoinConcat(cs, [[ch]]);
      } else {
        assert cs + [[ch]] == [[ch]];
      }
    } else {
      JoinExtend(cs, ch);
    }
  }

  lemma {:induction false} CollapsedMonotone(s: string, n: nat)
    requires n <= |s|
    ensures |Collapsed(s[..n])| <= |Collapsed(s)|
  {
    if n == |s| {
      assert s[..n] == s;
    } else {
      var p := s[..|s| - 1];
      CollapsedMonotone(p, n);
      assert p[..n] == s[..n];
      CollapsedSnoc(p, s[|s| - 1]);
      assert s == p + [s[|s| - 1]];
      hide Collapsed, Components;
    }
  }

  /** Collapsing never makes a path longer. */
  lemma {:induction false} CollapsedLength(s: string)
    ensures |Collapsed(s)| <= |s|
  {
    if s != "" {
      var p := s[..|s| - 1];
      CollapsedLength(p);
      CollapsedSnoc(p, s[|s| - 1]);
      assert s == p + [s[|s| - 1]];
    }
  }

  /** What the normalizer's variables say after i characters. */
  ghost predicate Progress(input: string, i: nat, written: string, lastWasSlash: bool) {
    && i <= |input|
    && written == Collapsed(input[..i])
    && lastWasSlash == (i > 0 && input[i - 1] == '/')
  }

  lemma {:induction false} ProgressStep(input: string, i: nat, written: string, last: bool)
    requires Progress(input, i, written, last) && i < |input|
    ensures input[i] == '/' && (written == "" || last) ==> Progress(input, i + 1, written, true)
    ensures input[i] == '/' && !(written == "" || last) ==>
              Progress(input, i + 1, written + "/", true) && |Collapsed(input)| > |written|
    ensures input[i] != '/' ==>
              Progress(input, i + 1, written + [input[i]], false) && |Collapsed(input)| > |written|
  {
    var before := input[..i];
    assert input[..i + 1] == before + [input[i]];
    CollapsedSnoc(before, input[i]);
    JoinNonempty(Components(before));
    CollapsedMonotone(input, i + 1);
    assert Components(before) == [] ==> Collapsed(before) == "";
    assert Collapsed(before) == "" ==> Components(before) == [];
    assert before != "" ==> before[|before| - 1] == input[i - 1];
    hide Components, Join, Collapsed;
  }

  lemma {:induction false} CollapsedEnd(s: string)
    ensures var t, c := Join(Components(s)), Collapsed(s);
            && (c == t || c == t + "/")
            && (t != "" ==> t[|t| - 1] != '/')
            && (t == "" ==> c == "")
  {
    JoinNonempty(Components(s));
  }

  /** fs_normalize_path: copies the path into the caller's buffer, collapsing slash runs. */
  method NormalizePath(input: string, output: array<char>) returns (ok: bool)
    requires output.Length == PATH_MAX
    requires '\0' !in input
    modifies output
    ensures ok <==> |Collapsed(input)| <= 63
    ensures ok ==> CString(output[..]) == Join(Components(input))
  {
    var i, out, lastWasSlash := 0, 0, false;
    if input == "" {
      output[0] := '\0';
      CStringIs(output[..], 0);
      return true;
    }
    while i < |input|
      invariant 0 <= out < PATH_MAX
      invariant Progress(input, i, output[..out], lastWasSlash)
    {
      ghost var written := output[..out];
      ProgressStep(input, i, written, lastWasSlash);
      var ch := input[i];
      i := i + 1;
      if ch == '/' {
        if out == 0 || lastWasSlash {
          lastWasSlash := true;
          continue;
        }
        if out + 1 >= PATH_MAX {
          return false;
        }
        output[out] := '/';
        assert output[..out + 1] == written + "/";
        out := out + 1;
        lastWasSlash := true;
        continue;
      }
      if out + 1 >= PATH_MAX {
        return false;
      }
      output[out] := ch;
      assert output[..out + 1] == written + [ch];
      out := out + 1;
      lastWasSlash := false;
    }
    assert input[..i] == input;
    out := TrimSlash(input, output, out);
    NormalHasNoNul(input);
    Close(output, out, Join(Components(input)));
    ok := true;
  }

  /** The closing loop of fs_normalize_path: drops the slash left at the end. */
  method TrimSlash(ghost input: string, output: array<char>, length: nat) returns (out: nat)
    requires length < output.Length && output[..length] == Collapsed(input)
    ensures out <= length && output[..out] == Join(Components(input))
  {
    CollapsedEnd(input);
    out := length;
    while out > 0 && output[out - 1] == '/'
      invariant 0 <= out <= length
      invariant out == length || output[..out] == Join(Components(input))
    {
      assert output[..length][out - 1] == '/';
      assert output[..length] == Join(Components(input)) + "/";
      out := out - 1;
      assert output[..out] == output[..length][..out];
    }
    assert output[..length] == Join(Components(input)) + "/" ==> output[..length][length - 1] == '/';
  }

  lemma {:induction false} CollapsedChars(s: string)
    ensures forall c <- Collapsed(s) :: c == '/' || c in s
  {
    if s != "" {
      var p := s[..|s| - 1];
      assert s == p + [s[|s| - 1]];
      CollapsedChars(p);
      CollapsedSnoc(p, s[|s| - 1]);
    }
  }

  lemma {:induction false} NormalHasNoNul(s: string)
    requires '\0' !in s
    ensures '\0' !in Join(Components(s))
  {
    CollapsedChars(s);
    CollapsedEnd(s);
    var t, c := Join(Components(s)), Collapsed(s);
    assert t == c[..|t|];
  }
}
