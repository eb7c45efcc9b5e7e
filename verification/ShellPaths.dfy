/** Path resolution in the shell (kernel/shell.c): a stack of at most 16 components over a
    64-byte buffer. */
module ShellPaths {
  import opened LibString
  import opened Paths
  import opened PathTests
  import opened FsTable
  import opened Words

  const DEPTH_MAX := 16
  const TEXT_MAX := 63

  /** shell_copy_string into 64 bytes: what fits in front of the NUL. */
  function Fit(s: string): (r: string)
    ensures |r| <= TEXT_MAX && r <= s
    ensures |s| <= TEXT_MAX ==> r == s
  {
    if |s| <= TEXT_MAX then s else s[..TEXT_MAX]
  }

  /** The path to resolve, before it is cut to the buffer. */
  function Full(cwd: string, input: string): string {
    if input != "" && input[0] == '/' then input
    else if cwd == "/" then "/" + input
    else cwd + "/" + input
  }

  /** One component applied to the stack: "." nothing, ".." pops, others push if there is room. */
  function Push(stack: Key, c: string): Key {
    if c == "." then stack
    else if c == ".." then if stack == [] then [] else stack[..|stack| - 1]
    else if |stack| < DEPTH_MAX then stack + [c]
    else stack
  }

  function Walk(stack: Key, cs: Key): Key {
    if cs == [] then stack else Push(Walk(stack, cs[..|cs| - 1]), cs[|cs| - 1])
  }

  function Rooted(stack: Key): string {
    "/" + Join(stack)
  }

  /** shell_resolve_path_from */
  function Resolve(cwd: string, input: string): string {
    if input == "" then Fit(cwd) else Fit(Rooted(Walk([], Components(Fit(Full(cwd, input))))))
  }

  /** A stack the walk can produce. */
  predicate IsStack(k: Key) {
    IsKey(k) && |k| <= DEPTH_MAX && forall i :: 0 <= i < |k| ==> k[i] != "." && k[i] != ".."
  }

  /** "/" or "/" and up to 16 proper components joined by "/", in at most 63 characters. */
  predicate Canonical(p: string) {
    |p| <= TEXT_MAX && IsStack(Components(p)) && p == Rooted(Components(p))
  }

  // ---------- The walk ----------

  lemma {:induction false} WalkConcat(stack: Key, a: Key, b: Key)
    ensures Walk(stack, a + b) == Walk(Walk(stack, a), b)
  {
    if b == [] {
      assert a + b == a;
    } else {
      var n := |b| - 1;
      assert (a + b)[..|a| + n] == a + b[..n] && (a + b)[|a| + n] == b[n];
      WalkConcat(stack, a, b[..n]);
    }
  }

  lemma {:induction false} WalkIsStack(stack: Key, cs: Key)
    requires IsStack(stack) && IsKey(cs)
    ensures IsStack(Walk(stack, cs))
  {
    if cs != [] {
      WalkIsStack(stack, cs[..|cs| - 1]);
    }
  }

  /** A stack walked from the root is itself. */
  lemma {:induction false} WalkOfStack(k: Key)
    requires IsStack(k)
    ensures Walk([], k) == k
  {
    if k != [] {
      WalkOfStack(k[..|k| - 1]);
    }
  }

  /** Characters a list of components takes, each with a slash. */
  function Size(k: Key): nat {
    if k == [] then 0 else Size(k[..|k| - 1]) + |k[|k| - 1]| + 1
  }

  lemma {:induction false} SizeOfJoin(k: Key)
    ensures k != [] ==> |Join(k)| + 1 == Size(k)
  {
    if |k| > 1 {
      var n := |k| - 1;
      SizeOfJoin(k[..n]);
      assert k == k[..n] + [k[n]];
      JoinConcat(k[..n], [k[n]]);
    } else if |k| == 1 {
      assert k[..0] == [];
    }
  }

  /** Walking never takes more room than what was walked. */
  lemma {:induction false} WalkSize(stack: Key, cs: Key)
    ensures Size(Walk(stack, cs)) <= Size(stack) + Size(cs)
  {
    if cs != [] {
      var w := Walk(stack, cs[..|cs| - 1]);
      WalkSize(stack, cs[..|cs| - 1]);
      assert (w + [cs[|cs| - 1]])[..|w|] == w;
    }
  }

  lemma {:induction false} RootedComponents(k: Key)
    requires IsKey(k)
    ensures Components(Rooted(k)) == k && Components("/") == []
  {
    ComponentsOfJoin(k);
    assert Rooted(k) == "" + "/" + Join(k);
    ComponentsConcat("", Join(k));
    assert "/" == "" + "/" + "";
    ComponentsConcat("", "");
  }

  /** What an absolute path resolves to is not longer than the path. */
  lemma {:induction false} WalkFits(s: string)
    requires s != "" && s[0] == '/'
    ensures |Rooted(Walk([], Components(s)))| <= |s|
  {
    var cs := Components(s);
    CollapsedLength(s[1..]);
    assert Components(s) == Components(s[1..]);
    WalkSize([], cs);
    SizeOfJoin(cs);
    SizeOfJoin(Walk([], cs));
  }

  // ---------- Canonical paths ----------

  lemma {:induction false} RootedIsCanonical(k: Key)
    requires IsStack(k) && |Rooted(k)| <= TEXT_MAX
    ensures Canonical(Rooted(k))
  {
    RootedComponents(k);
  }

  lemma {:induction false} FullIsAbsolute(cwd: string, input: string)
    requires Canonical(cwd) && input != ""
    ensures Full(cwd, input) != "" && Full(cwd, input)[0] == '/'
    ensures |Full(cwd, input)| <= |cwd| + 1 + |input|
    ensures Components(Full(cwd, input)) ==
            (if input[0] == '/' then [] else Components(cwd)) + Components(input)
  {
    assert "/" + input == "" + "/" + input;
    ComponentsConcat("", input);
    ComponentsConcat(cwd, input);
    RootedComponents([]);
  }

  /** The stack a resolution ends with, and that rendering it loses nothing. */
  lemma {:induction false} ResolveIs(cwd: string, input: string)
    requires Canonical(cwd) && input != ""
    ensures var k := Walk([], Components(Fit(Full(cwd, input))));
            IsStack(k) && Resolve(cwd, input) == Rooted(k) && |Rooted(k)| <= TEXT_MAX
  {
    FullIsAbsolute(cwd, input);
    var raw := Fit(Full(cwd, input));
    WalkFits(raw);
    WalkIsStack([], Components(raw));
  }

  /** From a canonical directory every input resolves to a canonical path. */
  lemma {:induction false} ResolveIsCanonical(cwd: string, input: string)
    requires Canonical(cwd)
    ensures Canonical(Resolve(cwd, input))
  {
    if input != "" {
      ResolveIs(cwd, input);
      hide Canonical, Rooted, Walk, Components;
      RootedIsCanonical(Walk([], Components(Fit(Full(cwd, input)))));
    }
  }

  /** Resolving a canonical path again changes nothing. */
  lemma {:induction false} ResolveIdempotent(cwd: string, p: string)
    requires Canonical(p)
    ensures Resolve(cwd, p) == p
  {
    WalkOfStack(Components(p));
  }

  /** The file system accepts every canonical path and drops its leading slash. */
  lemma {:induction false} NormalizeAcceptsCanonical(p: string)
    requires Canonical(p)
    ensures Fits(p) && NormalName(p) == p[1..]
  {
  }

  /** Resolution where the text fits the buffer. */
  lemma {:induction false} ResolveUncut(c: string, x: string)
    requires Canonical(c) && x != "" && |c| + 1 + |x| <= TEXT_MAX
    ensures var k := Walk([], (if x[0] == '/' then [] else Components(c)) + Components(x));
            IsStack(k) && Resolve(c, x) == Rooted(k) && |Rooted(k)| <= |c| + 1 + |x|
  {
    FullIsAbsolute(c, x);
    ResolveIs(c, x);
    WalkFits(Full(c, x));
  }

  /** Composition: going to a and from there to b is going to a/b, wherever the texts fit. Depth 16
      is kept on both sides: components beyond it are dropped alike. */
  lemma {:induction false} ResolveComposes(c: string, a: string, b: string)
    requires Canonical(c) && a != "" && (b == "" || b[0] != '/')
    requires |c| + |a| + |b| + 2 <= TEXT_MAX
    ensures Resolve(Resolve(c, a), b) == Resolve(c, a + "/" + b)
  {
    hide Canonical, Walk, Components, Resolve, Rooted, IsStack;
    var ab := a + "/" + b;
    assert ab != "" && ab[0] == a[0];
    ResolveUncut(c, a);
    ResolveUncut(c, ab);
    ComponentsConcat(a, b);
    var base := if a[0] == '/' then [] else Components(c);
    assert base + (Components(a) + Components(b)) == (base + Components(a)) + Components(b);
    WalkConcat([], base + Components(a), Components(b));
    ComposeSecond(Walk([], base + Components(a)), b);
  }

  lemma {:induction false} ComposeSecond(k: Key, b: string)
    requires IsStack(k) && (b == "" || b[0] != '/') && |Rooted(k)| + 1 + |b| <= TEXT_MAX
    ensures Resolve(Rooted(k), b) == Rooted(Walk(k, Components(b)))
  {
    RootedIsCanonical(k);
    RootedComponents(k);
    if b != "" {
      ResolveIs(Rooted(k), b);
      FullIsAbsolute(Rooted(k), b);
      WalkConcat([], k, Components(b));
      WalkOfStack(k);
    }
  }

  // ---------- What single components do ----------

  /** Names that are neither "." nor "..". */
  predicate PlainNames(k: Key) {
    IsKey(k) && forall i :: 0 <= i < |k| ==> k[i] != "." && k[i] != ".."
  }

  lemma {:induction false} WalkOfNames(stack: Key, k: Key)
    requires PlainNames(k) && |stack| <= 16
    ensures Walk(stack, k) == if |stack + k| <= 16 then stack + k else (stack + k)[..16]
  {
    if k == [] {
      assert stack + k == stack;
    } else {
      var n := |k| - 1;
      WalkOfNames(stack, k[..n]);
      assert stack + k == stack + k[..n] + [k[n]];
    }
  }

  /** From anywhere, a list of plain names whose text fits resolves to its first 16. */
  lemma {:induction false} ResolveNames(cwd: string, k: Key)
    requires PlainNames(k) && |Join(k)| <= 62
    ensures Resolve(cwd, "/" + Join(k)) == "/" + Join(if |k| <= 16 then k else k[..16])
  {
    RootedComponents(k);
    WalkOfNames([], k);
    assert [] + k == k;
    WalkFits(Rooted(k));
    hide Components, Join, Walk;
  }

  /** From a canonical directory, where the text fits: a plain name goes down if fewer than 16 components
      are there, "." and the empty input stay. */
  lemma {:induction false} ResolveName(cwd: string, name: string)
    requires Canonical(cwd) && PlainNames([name]) && |cwd| + 1 + |name| <= 63
    ensures var k := Components(cwd);
            Resolve(cwd, name) == if |k| < 16 then "/" + Join(k + [name]) else cwd
    ensures Resolve(cwd, "") == cwd
  {
    var k := Components(cwd);
    assert IsComponent([name][0]) && [name][0] == name;
    assert name[0] in name;
    ComponentsOfComponent(name);
    ResolveUncut(cwd, name);
    WalkOfStack(k);
    WalkConcat([], k, [name]);
    assert [name][..0] == [] && Walk(k, [name]) == Push(k, name);
  }

  lemma {:induction false} ResolveDot(cwd: string)
    requires Canonical(cwd) && |cwd| <= 61
    ensures Resolve(cwd, ".") == cwd
  {
    var k := Components(cwd);
    ComponentsOfComponent(".");
    ResolveUncut(cwd, ".");
    WalkOfStack(k);
    WalkConcat([], k, ["."]);
    assert ["."][..0] == [] && Walk(k, ["."]) == Push(k, ".");
  }

  /** An absolute input does not depend on where one is. What does not fit the buffer of 63 characters
      and a NUL is cut before it is resolved, and the cut text is resolved like any other. */
  lemma {:induction false} ResolveAbsolute(cwd: string, dir: string, path: string)
    requires path != "" && path[0] == '/'
    ensures Resolve(cwd, path) == Resolve(dir, path)
    ensures |path| > 63 ==> Resolve(cwd, path) == Resolve(dir, path[..63])
  {
  }

  lemma {:induction false} ResolveCut(cwd: string, input: string)
    requires Canonical(cwd) && input != "" && input[0] != '/'
    ensures var full := (if cwd == "/" then cwd else cwd + "/") + input;
            Resolve(cwd, input) == Resolve(cwd, if |full| <= 63 then full else full[..63])
  {
  }

  // ---------- The parent directory ----------

  /** shell_parent_directory */
  function ParentDirectory(path: string): string {
    if path == "/" then path
    else
      var slash := LastSlash(path);
      if slash == 0 then path[..1] else if slash > 0 then path[..slash] else path
  }

  lemma {:induction false} ParentOfRooted(k: Key)
    requires IsStack(k) && k != []
    ensures ParentDirectory(Rooted(k)) == Rooted(k[..|k| - 1])
  {
    var n := |k| - 1;
    assert IsComponent(k[n]);
    if n == 0 {
      assert Rooted(k) == "" + "/" + k[0];
      LastSlashIs("", k[0]);
    } else {
      JoinSplit(k, n);
      assert k[n..] == [k[n]];
      assert Rooted(k) == Rooted(k[..n]) + "/" + k[n];
      LastSlashIs(Rooted(k[..n]), k[n]);
    }
  }

  /** On canonical paths shell_parent_directory is resolving ".." - exactly if the path is the root
      or leaves room for "/.." in the buffer. */
  lemma {:induction false} ParentIsDotDot(p: string)
    requires Canonical(p)
    ensures Canonical(ParentDirectory(p))
    ensures p == "/" ==> ParentDirectory(p) == "/"
    ensures p != "/" ==> Components(p) != [] && ParentDirectory(p) == "/" + Join(Components(p)[..|Components(p)| - 1])
    ensures Resolve(p, "..") == ParentDirectory(p) <==> p == "/" || |p| <= 60
  {
    var k := Components(p);
    RootedComponents([]);
    ComponentsOfComponent("..");
    if p == "/" {
      assert "/" + ".." == "" + "/" + "..";
      ComponentsConcat("", "..");
      assert [] + [".."] == [".."] && [".."][..0] == [];
    } else {
      assert k != [];
      ParentOfRooted(k);
      JoinPrefix(k);
      RootedIsCanonical(k[..|k| - 1]);
      DotDot(p);
    }
  }

  lemma {:induction false} JoinPrefix(k: Key)
    requires IsStack(k) && k != []
    ensures IsStack(k[..|k| - 1]) && |Rooted(k[..|k| - 1])| < |Rooted(k)|
  {
    var n := |k| - 1;
    assert IsComponent(k[n]);
    if n > 0 {
      JoinSplit(k, n);
    }
  }

  /** Resolving "..", with the buffer's edge: beyond 60 characters the dots no longer fit. */
  lemma {:induction false} DotDot(p: string)
    requires Canonical(p) && p != "/"
    ensures var k := Components(p);
            k != [] && Resolve(p, "..") == if |p| <= 60 then Rooted(k[..|k| - 1]) else Rooted(k)
  {
    var k := Components(p);
    var full := p + "/" + "..";
    ComponentsOfComponent("..");
    ComponentsOfComponent(".");
    ComponentsConcat(p, "..");
    ComponentsConcat(p, ".");
    ComponentsConcat(p, "");
    WalkOfStack(k);
    ResolveIs(p, "..");
    hide Components, Join, Canonical, Resolve;
    assert (k + [".."])[..|k|] == k && (k + ["."])[..|k|] == k;
    if |p| == 61 {
      assert Fit(full) == p + "/" + ".";
    } else if |p| == 62 {
      assert Fit(full) == p + "/" + "";
      assert k + [] == k;
    } else if |p| == 63 {
      assert Fit(full) == p;
    }
  }

  // ---------- The resolver in its own form ----------

  /** shell_copy_string to position `at` of a 64-byte buffer. */
  method CopyString(destination: array<char>, at: nat, source: string) returns (end: nat)
    requires at < destination.Length == PATH_MAX && '\0' !in source && '\0' !in destination[..at]
    modifies destination
    ensures at <= end < destination.Length && destination[end] == '\0'
    ensures destination[..end] == Fit(old(destination[..at]) + source)
    ensures '\0' !in destination[..end]
  {
    var i := 0;
    while i < |source| && at + i + 1 < destination.Length
      invariant i <= |source| && at + i < destination.Length
      invariant destination[..at + i] == old(destination[..at]) + source[..i]
    {
      destination[at + i] := source[i];
      assert destination[..at + i + 1] == destination[..at + i] + [source[i]];
      i := i + 1;
    }
    destination[at + i] := '\0';
    end := at + i;
    assert destination[..end] == old(destination[..at]) + source[..i];
    ghost var all := old(destination[..at]) + source;
    assert i < |source| ==> all[..TEXT_MAX] == old(destination[..at]) + source[..i];
    assert i == |source| ==> source[..i] == source;
  }

  /** The raw path, cut to the buffer. */
  method BuildRaw(cwd: string, input: string, raw: array<char>) returns (length: nat)
    requires raw.Length == PATH_MAX && '\0' !in cwd && '\0' !in input && input != ""
    modifies raw
    ensures length < raw.Length && raw[length] == '\0' && '\0' !in raw[..length]
    ensures raw[..length] == Fit(Full(cwd, input))
  {
    assert raw[..0] == "";
    if input[0] == '/' {
      length := CopyString(raw, 0, input);
      assert "" + input == input;
    } else if cwd == "/" {
      raw[0] := '/';
      assert raw[..1] == "/";
      length := CopyString(raw, 1, input);
    } else {
      length := CopyString(raw, 0, cwd);
      assert "" + cwd == cwd;
      if length + 1 < PATH_MAX {
        raw[length] := '/';
        assert raw[..length + 1] == cwd + "/";
        length := length + 1;
        raw[length] := '\0';
        assert raw[..length] == cwd + "/";
      } else {
        assert cwd[..TEXT_MAX] == (cwd + "/" + input)[..TEXT_MAX];
      }
      ghost var before := raw[..length];
      length := CopyString(raw, length, input);
      assert |before| == TEXT_MAX ==> (before + input)[..TEXT_MAX] == before;
    }
  }

  /** Where the run of name characters from position i ends. */
  lemma {:induction false} TokenSplits(text: string, i: nat, j: nat)
    requires i < j <= |text| && (forall k :: i <= k < j ==> text[k] != '/') && (j < |text| ==> text[j] == '/')
    ensures Components(text[i..]) == [text[i..j]] + Components(text[j..])
  {
    var token := text[i..j];
    ComponentsOfComponent(token);
    if j == |text| {
      assert text[i..] == token && text[j..] == "";
    } else {
      assert text[i..] == token + "/" + text[j + 1..];
      assert text[j..][1..] == text[j + 1..];
      ComponentsConcat(token, text[j + 1..]);
    }
  }

  lemma {:induction false} SlashSkipped(text: string, i: nat)
    requires i < |text| && text[i] == '/'
    ensures Components(text[i..]) == Components(text[i + 1..])
  {
  }

  /** The two inner loops of the resolver: past slashes, then one token. */
  method NextToken(raw: array<char>, from: nat, ghost text: string) returns (token: string, i: nat)
    requires Holds(raw[..], text, from) && |text| <= TEXT_MAX
    ensures from <= i <= |text|
    ensures token == "" ==> Components(text[from..]) == []
    ensures token != "" ==> i > from && Components(text[from..]) == [token] + Components(text[i..])
  {
    hide Components;
    i := from;
    token := "";
    while raw[i] == '/'
      invariant from <= i <= |text| && Components(text[i..]) == Components(text[from..])
      decreases |text| - i
    {
      SlashSkipped(text, i);
      i := i + 1;
    }
    if raw[i] == '\0' {
      EndOfText(raw[..], text, i);
      return;
    }
    var start := i;
    while raw[i] != '\0' && raw[i] != '/' && |token| + 1 < PATH_MAX
      invariant start <= i <= |text| && token == text[start..i]
      invariant forall k :: start <= k < i ==> text[k] != '/'
      decreases |text| - i
    {
      token := token + [raw[i]];
      i := i + 1;
    }
    TokenSplits(text, start, i);
  }

  lemma {:induction false} WalkPush(stack: Key, c: string, cs: Key)
    ensures Walk(stack, [c] + cs) == Walk(Push(stack, c), cs)
  {
    assert [c][..0] == [];
    WalkConcat(stack, [c], cs);
  }

  /** The component loop of the resolver. */
  method BuildStack(raw: array<char>, components: array<string>, ghost text: string) returns (depth: nat)
    requires Holds(raw[..], text, 0) && |text| <= TEXT_MAX && components.Length == DEPTH_MAX
    modifies components
    ensures depth <= DEPTH_MAX && components[..depth] == Walk([], Components(text))
  {
    hide Components, Walk, Holds;
    depth := 0;
    var i := 0;
    assert text[0..] == text && components[..0] == [];
    HoldsBounds(raw[..], text, 0);
    while raw[i] != '\0'
      invariant i <= |text| && depth <= DEPTH_MAX && Holds(raw[..], text, i)
      invariant |text| < raw.Length
      invariant Walk(components[..depth], Components(text[i..])) == Walk([], Components(text))
      decreases |text| - i
    {
      ghost var stack, from := components[..depth], i;
      var token;
      token, i := NextToken(raw, i, text);
      HoldsLater(raw[..], text, from, i);
      if token == "" {
        WalkNothing(stack);
        return;
      }
      WalkPush(stack, token, Components(text[i..]));
      if token == "." {
        continue;
      }
      if token == ".." {
        if depth > 0 {
          depth := depth - 1;
          assert components[..depth] == stack[..|stack| - 1];
        }
        continue;
      }
      if depth < DEPTH_MAX {
        components[depth] := token;
        depth := depth + 1;
        assert components[..depth] == stack + [token];
      }
    }
    EndOfText(raw[..], text, i);
    WalkNothing(components[..depth]);
  }

  lemma {:induction false} WalkNothing(stack: Key)
    ensures Walk(stack, []) == stack
  {
  }

  lemma {:induction false} HoldsBounds(b: seq<char>, text: string, from: nat)
    requires Holds(b, text, from)
    ensures from <= |text| < |b|
  {
  }

  lemma {:induction false} HoldsLater(b: seq<char>, text: string, from: nat, later: nat)
    requires Holds(b, text, from) && from <= later <= |text|
    ensures Holds(b, text, later)
  {
  }

  lemma {:induction false} EndOfText(b: seq<char>, text: string, i: nat)
    requires Holds(b, text, i) && b[i] == '\0'
    ensures i == |text| && Components(text[i..]) == []
  {
  }

  /** What is written when the first c components are, each but the last followed by a slash. */
  function Written(k: Key, c: nat): string
    requires c <= |k|
  {
    "/" + if c == 0 then "" else if c == |k| then Join(k) else Join(k[..c]) + "/"
  }

  lemma {:induction false} WrittenStep(k: Key, c: nat)
    requires c < |k|
    ensures Written(k, c + 1) == if c + 1 < |k| then Written(k, c) + k[c] + "/" else Written(k, c) + k[c]
  {
    assert k[..c + 1] == k[..c] + [k[c]] && k[..|k|] == k;
    if c > 0 {
      JoinConcat(k[..c], [k[c]]);
    }
  }

  /** The output loops of the resolver. */
  method Render(components: array<string>, depth: nat, output: array<char>)
    requires depth <= components.Length && output.Length == PATH_MAX
    requires forall k :: 0 <= k < depth ==> '\0' !in components[k]
    modifies output
    ensures CString(output[..]) == Fit(Rooted(components[..depth]))
  {
    ghost var k := components[..depth];
    hide Join;
    output[0] := '/';
    var out: nat := 1;
    assert output[..1] == Written(k, 0);
    var c := 0;
    while c < depth
      invariant c <= depth && components[..depth] == k && Wrote(output[..], out, Written(k, c), PATH_MAX)
    {
      WrittenStep(k, c);
      out := PutWord(output, out, components[c], PATH_MAX, Written(k, c));
      if c + 1 < depth {
        out := Put(output, out, '/', PATH_MAX, Written(k, c) + k[c]);
      }
      c := c + 1;
    }
    JoinOfNothing();
    RootedHasNoNul(k);
    Close(output, out, Fit(Rooted(k)));
  }

  lemma {:induction false} JoinOfNothing()
    ensures Join([]) == ""
  {
  }

  lemma {:induction false} RootedHasNoNul(k: Key)
    requires forall i :: 0 <= i < |k| ==> '\0' !in k[i]
    ensures '\0' !in Rooted(k)
  {
    if |k| > 1 {
      RootedHasNoNul(k[1..]);
      assert Rooted(k[1..])[1..] == Join(k[1..]);
    }
  }

  lemma {:induction false} ComponentsHaveNoNul(s: string)
    requires '\0' !in s
    ensures forall i :: 0 <= i < |Components(s)| ==> '\0' !in Components(s)[i]
  {
    if s != "" {
      ComponentsHaveNoNul(s[1..]);
    }
  }

  lemma {:induction false} WalkHasNoNul(stack: Key, cs: Key)
    requires forall i :: 0 <= i < |stack| ==> '\0' !in stack[i]
    requires forall i :: 0 <= i < |cs| ==> '\0' !in cs[i]
    ensures forall i :: 0 <= i < |Walk(stack, cs)| ==> '\0' !in Walk(stack, cs)[i]
  {
    if cs != [] {
      WalkHasNoNul(stack, cs[..|cs| - 1]);
    }
  }

  /** shell_resolve_path_from */
  method ResolvePathFrom(cwd: string, input: string, output: array<char>)
    requires output.Length == PATH_MAX && '\0' !in cwd && '\0' !in input
    modifies output
    ensures CString(output[..]) == Resolve(cwd, input)
  {
    hide Components, Walk, CString, Join;
    if input == "" {
      var end := CopyString(output, 0, cwd);
      assert "" + cwd == cwd && output[..0] == "";
      CStringIs(output[..], end);
      assert output[..][..end] == output[..end];
      return;
    }
    var raw := new char[PATH_MAX];
    var length := BuildRaw(cwd, input, raw);
    ghost var text := raw[..length];
    var components := new string[DEPTH_MAX];
    var depth := BuildStack(raw, components, text);
    ComponentsHaveNoNul(text);
    WalkHasNoNul([], Components(text));
    forall k | 0 <= k < depth
      ensures '\0' !in components[k]
    {
      assert components[..depth][k] == components[k];
    }
    Render(components, depth, output);
  }
}
