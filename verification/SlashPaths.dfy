/**
 What a slash-separated path means: its non-empty components and whether it
 is absolute.  Runs of slashes count as one and a trailing slash adds no
 component (POSIX.1-2017 Base Definitions, sections 3.271 and 4.13; like the
 program, this does not treat exactly two leading slashes specially).
 */
module SlashPaths {

  predicate Absolute(s: string) {
    s != "" && s[0] == '/'
  }

  /** The maximal slash-free stretches of `s`, in order. */
  function Components(s: string): seq<string> {
    if s == "" then []
    else
      var rest := Components(s[1..]);
      if s[0] == '/' then rest
      else if |s| > 1 && s[1] != '/' && rest != [] then [[s[0]] + rest[0]] + rest[1..]
      else [[s[0]]] + rest
  }

  function Join(cs: seq<string>): string {
    if cs == [] then ""
    else if |cs| == 1 then cs[0]
    else cs[0] + "/" + Join(cs[1..])
  }

  /** The canonical spelling. */
  function Normal(s: string): string {
    (if Absolute(s) then "/" else "") + Join(Components(s))
  }

  predicate Reduced(s: string) {
    s != "" && Normal(s) == s
  }

  predicate ProperComponents(cs: seq<string>) {
    forall i :: 0 <= i < |cs| ==> cs[i] != "" && '/' !in cs[i]
  }

  // ---------- Components ----------

  lemma {:induction false} ComponentsAreProper(s: string)
    ensures ProperComponents(Components(s))
    ensures s != "" && s[0] != '/' ==> Components(s) != [] && Components(s)[0][0] == s[0]
  {
    if s != "" {
      ComponentsAreProper(s[1..]);
    }
  }

  /** A component is continued by what follows it. */
  lemma ComponentContinues(c: char, t: string)
    requires c != '/' && t != ""
    ensures var cs := Components(t);
      Components([c] + t) == if t[0] != '/' && cs != [] then [[c] + cs[0]] + cs[1..] else [[c]] + cs
  {
    assert ([c] + t)[1..] == t;
  }

  lemma HeadGrows(c: char, a: seq<string>, b: seq<string>)
    requires a != []
    ensures [[c] + (a + b)[0]] + (a + b)[1..] == [[c] + a[0]] + a[1..] + b
  {
    assert (a + b)[1..] == a[1..] + b;
  }

  /** A slash separates: nothing runs across it. */
  lemma {:induction false} ComponentsSplitAtSlash(a: string, b: string)
    ensures Components(a + "/" + b) == Components(a) + Components(b)
  {
    if a == "" {
      assert a + "/" + b == "/" + b && ("/" + b)[1..] == b;
      assert Components(a) + Components(b) == Components(b);
    } else {
      var c, t := a[0], a[1..];
      var s := t + "/" + b;
      assert a + "/" + b == [c] + s && ([c] + s)[1..] == s;
      ComponentsSplitAtSlash(t, b);
      if c != '/' {
        SplitBehind(c, a, t, s, Components(b));
      }
    }
  }

  lemma SplitBehind(c: char, a: string, t: string, s: string, bs: seq<string>)
    requires c != '/' && a == [c] + t && s != "" && (t == "" ==> s[0] == '/') && (t != "" ==> s[0] == t[0])
    requires Components(s) == Components(t) + bs
    ensures Components([c] + s) == Components(a) + bs
  {
    ComponentContinues(c, s);
    if t == "" {
      assert a == [c] && a[1..] == "";
      assert Components(a) == [[c]];
      assert Components(t) + bs == bs;
    } else {
      ComponentContinues(c, t);
      ComponentsAreProper(t);
      if t[0] != '/' { HeadGrows(c, Components(t), bs); }
      assert [[c]] + (Components(t) + bs) == [[c]] + Components(t) + bs;
    }
  }

  /** Without a slash between them the two neighbours fuse into one component. */
  lemma {:induction false} ComponentsFuse(a: string, b: string)
    requires a != "" && a[|a| - 1] != '/' && b != "" && b[0] != '/'
    ensures var n := |Components(a)| - 1;
      && n >= 0 && Components(b) != []
      && |Components(a + b)| == n + |Components(b)|
      && Components(a + b)[n] == Components(a)[n] + Components(b)[0]
  {
    ComponentsAreProper(b);
    if |a| == 1 {
      assert a == [a[0]] && a[1..] == "";
      ComponentContinues(a[0], b);
    } else {
      var t := a[1..];
      assert a == [a[0]] + t && (a + b)[1..] == t + b && a + b == [a[0]] + (t + b);
      ComponentsFuse(t, b);
      if a[0] != '/' {
        ComponentContinues(a[0], t);
        ComponentContinues(a[0], t + b);
        FusedHead(a[0], Components(t), Components(t + b), Components(b)[0]);
      }
    }
  }

  lemma FusedHead(c: char, a: seq<string>, ab: seq<string>, b: string)
    requires a != [] && |ab| >= |a| && ab[|a| - 1] == a[|a| - 1] + b
    ensures var a', ab' := [[c] + a[0]] + a[1..], [[c] + ab[0]] + ab[1..];
      ab'[|a| - 1] == a'[|a| - 1] + b
  {
    assert [c] + (a[0] + b) == [c] + a[0] + b;
  }

  lemma {:induction false} JoinThenSplit(cs: seq<string>)
    requires ProperComponents(cs)
    ensures Components(Join(cs)) == cs
    ensures cs != [] ==> Join(cs) != "" && Join(cs)[0] == cs[0][0] != '/'
  {
    if cs != [] {
      assert cs[0][0] in cs[0];
    }
    if |cs| == 1 {
      OneComponent(cs[0]);
      assert cs == [cs[0]];
    } else if |cs| > 1 {
      JoinThenSplit(cs[1..]);
      OneComponent(cs[0]);
      ComponentsSplitAtSlash(cs[0], Join(cs[1..]));
      assert [cs[0]] + cs[1..] == cs;
    }
  }

  lemma {:induction false} OneComponent(c: string)
    requires c != "" && '/' !in c
    ensures Components(c) == [c]
  {
    assert c[0] in c;
    if |c| > 1 {
      assert c[1] in c;
      OneComponent(c[1..]);
      assert Components(c) == [[c[0]] + c[1..]] + [c[1..]][1..];
      assert [c[0]] + c[1..] == c;
    } else {
      assert c == [c[0]] && c[1..] == "";
      assert Components(c) == [[c[0]]] + Components("");
    }
  }

  // ---------- The canonical spelling ----------

  lemma NormalKeepsMeaning(s: string)
    requires s != ""
    ensures Normal(s) != ""
    ensures Components(Normal(s)) == Components(s)
    ensures Absolute(Normal(s)) <==> Absolute(s)
    ensures s[0] == Normal(s)[0]
  {
    ComponentsAreProper(s);
    JoinThenSplit(Components(s));
    var j := Join(Components(s));
    if Absolute(s) {
      assert Normal(s) == "/" + j && ("/" + j)[1..] == j;
      assert Components("/" + j) == Components(j);
    } else {
      assert Normal(s) == j;
    }
  }

  /** Two paths reduce to the same string exactly when they mean the same. */
  lemma NormalIsCanonical(a: string, b: string)
    requires a != "" && b != ""
    ensures Normal(a) == Normal(b) <==> Components(a) == Components(b) && Absolute(a) == Absolute(b)
  {
    NormalKeepsMeaning(a);
    NormalKeepsMeaning(b);
  }

  lemma NormalIsReduced(s: string)
    requires s != ""
    ensures Reduced(Normal(s))
  {
    NormalKeepsMeaning(s);
    NormalIsCanonical(Normal(s), s);
  }

  // ---------- What one round of the program does ----------

  predicate NoDoubleSlash(s: string) {
    forall i :: 0 <= i < |s| - 1 ==> !(s[i] == '/' && s[i + 1] == '/')
  }

  /** Every run of slashes shrunk to its last slash. */
  function Collapse(s: string): string {
    if |s| < 2 then s
    else if s[0] == '/' && s[1] == '/' then Collapse(s[1..])
    else [s[0]] + Collapse(s[1..])
  }

  /** Without the trailing slash, unless that is all there is. */
  function Strip(s: string): string {
    if s != "/" && s != "" && s[|s| - 1] == '/' then s[..|s| - 1] else s
  }

  lemma {:induction false} CollapseLeavesSingles(s: string)
    ensures NoDoubleSlash(Collapse(s)) && |Collapse(s)| <= |s|
    ensures s != "" ==> Collapse(s) != "" && Collapse(s)[0] == s[0]
  {
    if |s| >= 2 {
      CollapseLeavesSingles(s[1..]);
    }
  }

  lemma CollapseBehind(c: char, t: string)
    requires t != ""
    ensures Collapse([c] + t) == if c == '/' && t[0] == '/' then Collapse(t) else [c] + Collapse(t)
    ensures Collapse(t) != "" && Collapse(t)[0] == t[0]
  {
    assert ([c] + t)[1..] == t;
    CollapseLeavesSingles(t);
  }

  lemma ComponentsBehind(c: char, t: string)
    requires t != ""
    ensures var cs := Components(t);
      && (t[0] != '/' ==> cs != [])
      && Components([c] + t) ==
           if c == '/' then cs else if t[0] != '/' then [[c] + cs[0]] + cs[1..] else [[c]] + cs
  {
    assert ([c] + t)[1..] == t;
    ComponentsAreProper(t);
  }

  lemma NormalBehindSlash(t: string)
    requires t != ""
    ensures Normal("/" + t) == if t[0] == '/' then Normal(t) else "/" + Normal(t)
  {
    ComponentsBehind('/', t);
  }

  lemma RelativeNormal(s: string)
    requires !Absolute(s)
    ensures Normal(s) == Join(Components(s))
  {
    assert "" + Join(Components(s)) == Join(Components(s));
  }

  lemma NormalBehindName(c: char, t: string)
    requires t != "" && c != '/' && t[0] == '/'
    ensures Normal([c] + t) == if Components(t) == [] then [c] else [c] + Normal(t)
  {
    RelativeNormal([c] + t);
    ComponentsBehind(c, t);
    JoinBehindName([c], Components(t));
  }

  lemma JoinBehindName(c: string, cs: seq<string>)
    ensures Join([c] + cs) == if cs == [] then c else c + ("/" + Join(cs))
  {
    JoinFrom(c, cs);
    assert c + ("/" + Join(cs)) == c + "/" + Join(cs);
  }

  lemma NormalBehindChar(c: char, t: string)
    requires t != "" && c != '/' && t[0] != '/'
    ensures Normal([c] + t) == [c] + Normal(t)
  {
    RelativeNormal([c] + t);
    RelativeNormal(t);
    ComponentsBehind(c, t);
    JoinGrows(c, Components(t));
  }

  /** One more character in front of what one round normalizes. */
  lemma RoundBehind(c: char, t: string)
    requires t != "" && Strip(Collapse(t)) == Normal(t)
    ensures Strip(Collapse([c] + t)) == Normal([c] + t)
  {
    CollapseBehind(c, t);
    if c == '/' {
      NormalBehindSlash(t);
      if t[0] != '/' { StripTail(c, Collapse(t)); }
    } else {
      StripTail(c, Collapse(t));
      if t[0] == '/' {
        NormalBehindName(c, t);
        SlashOnly(t);
      } else {
        NormalBehindChar(c, t);
      }
    }
  }

  /** One round already yields the canonical spelling. */
  lemma {:induction false} OneRoundNormalizes(s: string)
    requires s != ""
    ensures Strip(Collapse(s)) == Normal(s)
  {
    assert s == [s[0]] + s[1..];
    if |s| == 1 {
      assert Components(s) == if s[0] == '/' then [] else [[s[0]]];
    } else {
      OneRoundNormalizes(s[1..]);
      RoundBehind(s[0], s[1..]);
    }
  }

  lemma StripTail(c: char, s: string)
    requires s != "" && (c == '/' ==> s[0] != '/')
    ensures Strip([c] + s) == if s == "/" then [c] else [c] + Strip(s)
  {
  }

  lemma JoinFrom(c: string, cs: seq<string>)
    ensures Join([c] + cs) == if cs == [] then c else c + "/" + Join(cs)
  {
    assert ([c] + cs)[1..] == cs;
  }

  lemma JoinGrows(c: char, cs: seq<string>)
    requires cs != []
    ensures Join([[c] + cs[0]] + cs[1..]) == [c] + Join(cs)
  {
    JoinFrom([c] + cs[0], cs[1..]);
    JoinFrom(cs[0], cs[1..]);
    assert [cs[0]] + cs[1..] == cs;
  }

  lemma SlashOnly(t: string)
    requires t != "" && t[0] == '/' && Strip(Collapse(t)) == Normal(t)
    ensures Collapse(t) == "/" <==> Components(t) == []
  {
    CollapseLeavesSingles(t);
    ComponentsAreProper(t);
    JoinThenSplit(Components(t));
  }

  // ---------- The directory part ----------

  function WithoutSlashes(s: string): string {
    if s != "" && s[|s| - 1] == '/' then WithoutSlashes(s[..|s| - 1]) else s
  }

  function WithoutName(s: string): string {
    if s != "" && s[|s| - 1] != '/' then WithoutName(s[..|s| - 1]) else s
  }

  /** What dirname answers for an absolute path: trailing slashes, the last
      component and the slashes before it go, and the root is kept.  (Where two
      leading slashes are left, the answer is up to the implementation.) */
  function DirName(path: string): string {
    var d := WithoutSlashes(WithoutName(WithoutSlashes(path)));
    if d == "" then "/" else d
  }

  lemma {:induction false} WithoutSlashesKeeps(s: string)
    ensures var t := WithoutSlashes(s);
      && Components(t) == Components(s)
      && t <= s && (t != "" ==> t[|t| - 1] != '/')
  {
    if s != "" && s[|s| - 1] == '/' {
      var init := s[..|s| - 1];
      WithoutSlashesKeeps(init);
      ComponentsSplitAtSlash(init, "");
      assert init + "/" + "" == s;
      assert Components(init) + Components("") == Components(init);
    }
  }

  /** A name that fills the end of `s` is what is taken off it. */
  lemma {:induction false} WithoutNameDrops(s: string, more: string)
    requires '/' !in more && Absolute(s)
    ensures var t := WithoutName(s);
      && t <= s && Absolute(t) && t[|t| - 1] == '/'
      && '/' !in s[|t|..] + more
  {
    if s[|s| - 1] != '/' {
      var init := s[..|s| - 1];
      assert s[|s| - 1..] + more == [s[|s| - 1]] + more;
      WithoutNameDrops(init, [s[|s| - 1]] + more);
      var t := WithoutName(s);
      assert init[|t|..] + ([s[|s| - 1]] + more) == s[|t|..] + more;
    } else {
      assert s[|s|..] + more == more;
    }
  }

  /** The directory part is absolute and has all components but the last.  It is
      the root or a part of the path that does not end in a slash. */
  lemma DirNameDropsLast(path: string)
    requires Absolute(path)
    ensures var d, cs := DirName(path), Components(path);
      && Absolute(d) && Components(d) == (if cs == [] then [] else cs[..|cs| - 1])
      && d <= path && (d == "/" || d[|d| - 1] != '/')
  {
    var s := WithoutSlashes(path);
    WithoutSlashesKeeps(path);
    RootHasNone();
    if s == "" {
      assert WithoutName(s) == "" && DirName(path) == "/";
    } else {
      assert s[0] == path[0];
      DirectoryOf(s);
    }
  }

  lemma DirectoryOf(s: string)
    requires Absolute(s) && s[|s| - 1] != '/'
    ensures var d, cs := WithoutSlashes(WithoutName(s)), Components(s);
      && d <= s && (d == "" || (d[0] == '/' && d[|d| - 1] != '/'))
      && cs != [] && Components(d) == cs[..|cs| - 1]
  {
    var t := WithoutName(s);
    WithoutNameDrops(s, "");
    var name := s[|t|..];
    assert name + "" == name && s == t + name;
    LastComponent(s, t, name);
    WithoutSlashesKeeps(t);
  }

  lemma RootHasNone()
    ensures Components("/") == []
  {
    assert "/"[1..] == "";
  }

  lemma LastComponent(s: string, t: string, name: string)
    requires s == t + name && t != "" && t[|t| - 1] == '/' && name != "" && '/' !in name
    ensures Components(s) == Components(t) + [name]
  {
    var h := t[..|t| - 1];
    assert t == h + "/" && t + "" == t;
    ComponentsSplitAtSlash(h, name);
    ComponentsSplitAtSlash(h, "");
    OneComponent(name);
    assert Components(h) + Components("") == Components(h);
  }
}
