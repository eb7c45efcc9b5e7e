/** The string tests and string surgery of kernel/fs.c on normal names, and what each one
    means for lists of components: prefixes, parents, children and renaming. */
module PathTests {
  import opened Paths

  /** strrchr(p, '/'), as an index; -1 when there is none. */
  function LastSlash(p: string): (k: int)
    ensures -1 <= k < |p|
    ensures k >= 0 ==> p[k] == '/'
    ensures forall j :: k < j < |p| ==> p[j] != '/'
  {
    if p == "" then -1
    else if p[|p| - 1] == '/' then |p| - 1
    else LastSlash(p[..|p| - 1])
  }

  /** fs_parent_path */
  function ParentPath(p: string): string {
    if LastSlash(p) < 0 then "" else p[..LastSlash(p)]
  }

  /** strncmp(p, s, strlen(s)) == 0 && p[strlen(s)] == '/' */
  predicate Inside(p: string, s: string) {
    |p| > |s| && p[..|s|] == s && p[|s|] == '/'
  }

  /** The test with which fs_move selects the names it rewrites. */
  predicate AtOrInside(p: string, s: string) {
    p == s || Inside(p, s)
  }

  /** fs_is_direct_child */
  predicate IsDirectChild(directory: string, candidate: string) {
    if directory == "" then '/' !in candidate
    else Inside(candidate, directory) && '/' !in candidate[|directory| + 1..]
  }

  // ---------- Meaning on components ----------

  lemma {:induction false} NormalRoundTrip(p: string)
    requires Normal(p)
    ensures Join(Components(p)) == p
    ensures p == "" <==> Components(p) == []
  {
  }

  lemma {:induction false} NormalOfKey(k: Key)
    requires IsKey(k)
    ensures Normal(Join(k)) && Components(Join(k)) == k
  {
    ComponentsOfJoin(k);
  }

  /** Joined prefixes are textual prefixes ending at a slash. */
  lemma {:induction false} JoinSplit(k: Key, n: nat)
    requires IsKey(k) && 0 < n < |k|
    ensures Join(k) == Join(k[..n]) + "/" + Join(k[n..])
  {
    assert k == k[..n] + k[n..];
    JoinConcat(k[..n], k[n..]);
  }

  lemma {:induction false} InsideHasPrefix(p: string, s: string)
    requires Normal(p) && Normal(s) && Inside(p, s)
    ensures Components(s) < Components(p)
  {
    var rest := p[|s| + 1..];
    assert p == s + "/" + rest;
    ComponentsConcat(s, rest);
    assert Components(rest) == [] ==> Components(p) == Components(s);
  }

  lemma {:induction false} PrefixIsInside(p: string, s: string)
    requires Normal(p) && Normal(s) && s != "" && Components(s) < Components(p)
    ensures Inside(p, s)
    ensures p[|s| + 1..] == Join(Components(p)[|Components(s)|..])
  {
    NormalRoundTrip(s);
    var kp, ks := Components(p), Components(s);
    JoinSplit(kp, |ks|);
    assert kp[..|ks|] == ks;
    assert p == s + "/" + Join(kp[|ks|..]);
  }

  /** "is inside the directory s" is "has the components of s as a proper prefix". */
  lemma {:induction false} InsideIsProperPrefix(p: string, s: string)
    requires Normal(p) && Normal(s) && s != ""
    ensures Inside(p, s) <==> Components(s) < Components(p)
  {
    if Inside(p, s) {
      InsideHasPrefix(p, s);
    }
    if Components(s) < Components(p) {
      PrefixIsInside(p, s);
    }
  }

  lemma {:induction false} AtOrInsideIsPrefix(p: string, s: string)
    requires Normal(p) && Normal(s) && s != ""
    ensures AtOrInside(p, s) <==> Components(s) <= Components(p)
  {
    InsideIsProperPrefix(p, s);
    if Components(s) <= Components(p) && !(Components(s) < Components(p)) {
      assert Components(s) == Components(p);
    }
  }

  lemma {:induction false} ComponentHasNoSlash(c: string)
    requires '/' !in c
    ensures LastSlash(c) == -1
  {
  }

  lemma {:induction false} LastSlashIs(a: string, c: string)
    requires '/' !in c
    ensures LastSlash(a + "/" + c) == |a|
  {
    var p := a + "/" + c;
    if c == "" {
      assert p[|p| - 1] == '/';
    } else {
      assert p[|p| - 1] == c[|c| - 1];
      assert p[..|p| - 1] == a + "/" + c[..|c| - 1];
      LastSlashIs(a, c[..|c| - 1]);
    }
  }

  lemma {:induction false} SlashFreeMeansOneComponent(p: string)
    requires Normal(p) && p != ""
    ensures '/' !in p <==> |Components(p)| == 1
  {
  }

  /** fs_parent_path drops the last component. */
  lemma {:induction false} ParentDropsLast(p: string)
    requires Normal(p) && p != ""
    ensures Normal(ParentPath(p))
    ensures Components(p) != [] && Components(ParentPath(p)) == Components(p)[..|Components(p)| - 1]
  {
    NormalRoundTrip(p);
    var k := Components(p);
    var n := |k| - 1;
    if n == 0 {
      SlashFreeMeansOneComponent(p);
      assert LastSlash(p) == -1;
    } else {
      JoinSplit(k, n);
      assert k[n..] == [k[n]] && IsComponent(k[n]);
      LastSlashIs(Join(k[..n]), k[n]);
      assert ParentPath(p) == Join(k[..n]);
      NormalOfKey(k[..n]);
    }
  }

  /** fs_is_direct_child is "one component more than the directory". */
  lemma {:induction false} DirectChildIsOneMore(d: string, c: string)
    requires Normal(d) && Normal(c) && c != ""
    ensures IsDirectChild(d, c) <==>
            Components(c) != [] && Components(d) == Components(c)[..|Components(c)| - 1]
  {
    NormalRoundTrip(c);
    NormalRoundTrip(d);
    var kd, kc := Components(d), Components(c);
    if d == "" {
      SlashFreeMeansOneComponent(c);
    } else {
      InsideIsProperPrefix(c, d);
      if kd < kc {
        var r := kc[|kd|..];
        PrefixIsInside(c, d);
        assert c[|d| + 1..] == Join(r);
        NormalOfKey(r);
        JoinNonempty(r);
        SlashFreeMeansOneComponent(Join(r));
      }
    }
  }

  /** The text surgery of fs_move: replace the prefix s of p by d. */
  function Renamed(p: string, s: string, d: string): string
    requires |s| <= |p|
  {
    d + p[|s|..]
  }

  function Rekey(k: Key, s: Key, d: Key): Key
    requires s <= k
  {
    d + k[|s|..]
  }

  lemma {:induction false} RenamedIsRekeyed(p: string, s: string, d: string)
    requires Normal(p) && Normal(s) && Normal(d) && s != "" && d != ""
    requires AtOrInside(p, s)
    ensures Components(s) <= Components(p)
    ensures Renamed(p, s, d) == Join(Rekey(Components(p), Components(s), Components(d)))
    ensures Normal(Renamed(p, s, d))
    ensures Components(Renamed(p, s, d)) == Rekey(Components(p), Components(s), Components(d))
    ensures Renamed(p, s, d) != ""
  {
    AtOrInsideIsPrefix(p, s);
    RenamedIsJoin(p, s, d);
    NormalOfKey(Rekey(Components(p), Components(s), Components(d)));
    NormalRoundTrip(d);
    JoinNonempty(Rekey(Components(p), Components(s), Components(d)));
  }

  lemma {:induction false} RenamedIsJoin(p: string, s: string, d: string)
    requires Normal(p) && Normal(s) && Normal(d) && s != "" && d != ""
    requires Components(s) <= Components(p) && AtOrInside(p, s)
    ensures Renamed(p, s, d) == Join(Rekey(Components(p), Components(s), Components(d)))
  {
    hide Join, Components, AtOrInside;
    NormalRoundTrip(s);
    NormalRoundTrip(d);
    var kp, ks, kd := Components(p), Components(s), Components(d);
    var r := kp[|ks|..];
    if r == [] {
      assert kp == ks && kd + r == kd;
      NormalRoundTrip(p);
      assert d + p[|s|..] == d;
    } else {
      PrefixIsInside(p, s);
      JoinConcat(kd, r);
      assert p[|s|..] == "/" + Join(r);
      assert d + ("/" + Join(r)) == d + "/" + Join(r);
    }
  }

  // ---------- Laws of the normal form ----------

  /** Normalizing again changes nothing. */
  lemma {:induction false} NormalizeIdempotent(s: string)
    ensures var t := Join(Components(s));
            Components(t) == Components(s) && Collapsed(t) == t && |t| <= |Collapsed(s)|
  {
    NormalOfKey(Components(s));
    JoinNonempty(Components(s));
  }

  /** Two paths normalize alike exactly when they name the same components. */
  lemma {:induction false} NormalFormsAgree(a: string, b: string)
    ensures Join(Components(a)) == Join(Components(b)) <==> Components(a) == Components(b)
  {
    if Join(Components(a)) == Join(Components(b)) {
      JoinInjective(Components(a), Components(b));
    }
  }
}
