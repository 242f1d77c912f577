/**
 Displaying a path and resolving what is displayed: when the two are inverse.
 */
module ShellDisplays {
  import opened Options
  import opened SlashPaths
  import opened ShellPaths

  /** The home prefix of `p` ends where a component of `p` ends. */
  predicate AtBoundary(home: string, p: string)
    requires home != "" && home <= p
  {
    home[|home| - 1] == '/' || |p| == |home| || p[|home|] == '/'
  }

  lemma ReducedIsItsOwnForm(p: string, home: Option<string>)
    requires Reduced(p) && p[0] != '~'
    ensures AbsoluteForm(p, home) == Some(p)
    ensures home != Some("") ==> DisplayFits(p, home)
  {
  }

  lemma TildeComponents(rest: string)
    ensures Components("~/" + rest) == ["~"] + Components(rest)
  {
    assert "~" + "/" + rest == "~/" + rest;
    ComponentsSplitAtSlash("~", rest);
    OneComponent("~");
  }

  lemma DisplayedTilde(rest: string)
    ensures Normal("~/" + rest) != "" && Normal("~/" + rest)[0] == '~'
    ensures Components(Normal("~/" + rest)[1..]) == Components(rest)
  {
    var cs, shown := Components(rest), Normal("~/" + rest);
    TildeComponents(rest);
    assert shown == Join(["~"] + cs);
    TildeJoined(cs);
    ComponentsAreProper(rest);
    TailOfTilde(cs);
  }

  lemma TildeJoined(cs: seq<string>)
    ensures var j := Join(["~"] + cs); j != "" && j[0] == '~' && j[1..] == if cs == [] then "" else "/" + Join(cs)
  {
    JoinFrom("~", cs);
  }

  lemma TailOfTilde(cs: seq<string>)
    requires ProperComponents(cs)
    ensures Components(if cs == [] then "" else "/" + Join(cs)) == cs
  {
    JoinThenSplit(cs);
    assert "" + "/" + Join(cs) == "/" + Join(cs);
    ComponentsSplitAtSlash("", Join(cs));
  }

  /** Resolving the contracted form joins home and rest by a slash. */
  lemma ResolvedTilde(rest: string, home: string)
    requires Absolute(home)
    ensures AbsoluteForm(Normal("~/" + rest), Some(home)) == Some(Normal(home + "/" + rest))
  {
    DisplayedTilde(rest);
    var tail := Normal("~/" + rest)[1..];
    ComponentsSplitAtSlash(home, tail);
    ComponentsSplitAtSlash(home, rest);
    NormalIsCanonical(home + "/" + tail, home + "/" + rest);
  }

  lemma HomeEndsInSlash(home: string, rest: string)
    requires home != "" && home[|home| - 1] == '/'
    ensures Components(home + rest) == Components(home) + Components(rest)
  {
    var h := home[..|home| - 1];
    assert home == h + "/";
    ComponentsSplitAtSlash(h, rest);
    ComponentsSplitAtSlash(h, "");
    assert home + "" == home;
    assert Components(h) + Components("") == Components(h);
  }

  lemma RestStartsWithSlash(home: string, rest: string)
    requires rest != "" && rest[0] == '/'
    ensures Components(home + rest) == Components(home) + Components(rest)
  {
    ComponentsSplitAtSlash(home, rest[1..]);
    assert home + "/" + rest[1..] == home + rest;
  }

  /** Up to the end of a component, the home directory's components come first. */
  lemma PartsAtBoundary(home: string, p: string)
    requires home != "" && home <= p && AtBoundary(home, p)
    ensures Components(p) == Components(home) + Components(p[|home|..])
  {
    var rest := p[|home|..];
    assert p == home + rest;
    if home[|home| - 1] == '/' {
      HomeEndsInSlash(home, rest);
    } else if rest == "" {
      assert p == home && Components(home) + Components("") == Components(home);
    } else {
      RestStartsWithSlash(home, rest);
    }
  }

  /** Inside a component, they do not. */
  lemma PartsInsideComponent(home: string, p: string, more: seq<string>)
    requires home != "" && home <= p && !AtBoundary(home, p)
    ensures Components(p) != Components(home) + more
  {
    var rest, n := p[|home|..], |Components(home)| - 1;
    assert p == home + rest;
    ComponentsFuse(home, rest);
    DifferAt(Components(p), Components(home), more, n);
  }

  lemma DifferAt(a: seq<string>, b: seq<string>, more: seq<string>, n: nat)
    requires n < |a| && n < |b| && |a[n]| > |b[n]|
    ensures a != b + more
  {
    assert (b + more)[n] == b[n];
  }

  /** What is displayed for `p` resolves to what `p` itself does. */
  ghost predicate ResolvesBack(p: string, home: string)
    requires p != ""
  {
    && DisplayFits(p, Some(home))
    && var shown := DisplayForm(p, Some(home));
       shown.Some? && shown.value != "" && AbsoluteForm(shown.value, Some(home)) == AbsoluteForm(p, Some(home))
  }

  lemma ResolvesIffTailDoes(p: string, home: string)
    requires p != "" && Absolute(home) && home <= p
    ensures ResolvesBack(p, home) <==>
      && ContractFits(|home|, |Normal(p)|)
      && Components(home) + Components(Tail(Normal(p), |home|)) == Components(p)
  {
    assert p[0] == '/';
    if ContractFits(|home|, |Normal(p)|) {
      var tail := Tail(Normal(p), |home|);
      DisplayedTilde(tail);
      ResolvedTilde(tail, home);
      ComponentsSplitAtSlash(home, tail);
      NormalIsCanonical(home + "/" + tail, p);
    }
  }

  /** A string shorter than the joined components does not have them. */
  lemma ShortDiffers(s: string, cs: seq<string>)
    requires |s| < |Join(cs)|
    ensures Components(s) != cs
  {
    if s != "" {
      OneRoundNormalizes(s);
      CollapseLeavesSingles(s);
    }
  }

  function LetterOff(c: string): seq<string> {
    if |c| <= 1 then [] else [c[1..]]
  }

  lemma LetterOffOne(c: string, t: string)
    requires c != "" && '/' !in c && t == c[1..]
    ensures Components(t) == LetterOff(c)
  {
    if |c| > 1 {
      OneComponent(t);
    } else {
      NothingLeft(t, []);
    }
  }

  lemma NothingLeft(t: string, rs: seq<string>)
    requires t == "" && rs == []
    ensures Components(t) == rs
  {
  }

  /** What is left of joined components without their first letter. */
  lemma WithoutFirstLetter(cs: seq<string>, t: string)
    requires ProperComponents(cs) && cs != [] && t == Join(cs)[1..]
    ensures Components(t) == LetterOff(cs[0]) + cs[1..]
  {
    var c, more := cs[0], cs[1..];
    assert cs == [c] + more;
    JoinFrom(c, more);
    LetterOffOne(c, c[1..]);
    if more == [] {
      assert t == c[1..];
      assert LetterOff(c) + more == LetterOff(c);
    } else {
      assert t == c[1..] + "/" + Join(more);
      JoinThenSplit(more);
      ComponentsSplitAtSlash(c[1..], Join(more));
    }
  }

  /** A home directory one longer than the reduced path takes nothing off but the
      slash and the first letter. */
  lemma NothingMoved(hs: seq<string>, rs: seq<string>, t: string)
    requires ProperComponents(hs + rs) && hs + rs != [] && t == Join(hs + rs)[1..]
    ensures Components(t) == rs <==> |Join(hs)| == 1
  {
    var cs := hs + rs;
    WithoutFirstLetter(cs, t);
    if hs == [] {
      assert cs == rs;
      assert |rs[0]| > 1 ==> (LetterOff(rs[0]) + rs[1..])[0] != rs[0];
    } else {
      assert cs[0] == hs[0] && cs[1..] == hs[1..] + rs;
      OneLetter(hs);
      if |hs| == 1 {
        assert hs[1..] + rs == rs;
      }
    }
  }

  lemma OneLetter(hs: seq<string>)
    requires hs != [] && hs[0] != ""
    ensures |Join(hs)| == 1 <==> |hs| == 1 && |hs[0]| == 1
  {
    assert hs == [hs[0]] + hs[1..];
    JoinFrom(hs[0], hs[1..]);
  }

  lemma ProperParts(hs: seq<string>, rs: seq<string>)
    requires ProperComponents(hs + rs)
    ensures ProperComponents(hs) && ProperComponents(rs)
  {
    assert forall i :: 0 <= i < |rs| ==> rs[i] == (hs + rs)[|hs| + i];
    assert forall i :: 0 <= i < |hs| ==> hs[i] == (hs + rs)[i];
  }

  /** What `k` letters too many leave of joined components. */
  lemma CutComponents(rs: seq<string>, k: nat)
    requires ProperComponents(rs) && rs != [] && k <= |Join(rs)|
    ensures Components(Join(rs)[k..]) == rs <==> k == 0
  {
    JoinThenSplit(rs);
    if k == 0 {
      assert Join(rs)[0..] == Join(rs);
    } else {
      ShortDiffers(Join(rs)[k..], rs);
    }
  }

  /** What `k` letters too many leave of them behind a slash. */
  lemma CutBehindSlash(rs: seq<string>, k: nat)
    requires ProperComponents(rs) && rs != [] && k <= 1 + |Join(rs)|
    ensures Components(("/" + Join(rs))[k..]) == rs <==> k <= 1
  {
    if k == 0 {
      TailOfTilde(rs);
      assert ("/" + Join(rs))[0..] == "/" + Join(rs);
    } else {
      assert ("/" + Join(rs))[k..] == Join(rs)[k - 1..];
      CutComponents(rs, k - 1);
    }
  }

  /** What the cut leaves if the reduced path is no shorter than the home directory,
      in which `k` slashes are superfluous. */
  lemma CutLeavesRest(hs: seq<string>, rs: seq<string>, k: nat, t: string)
    requires ProperComponents(hs + rs) && |Join(hs)| + k <= |Join(hs + rs)|
    requires t == Join(hs + rs)[|Join(hs)| + k..]
    ensures Components(t) == rs <==> k == 0 || (k == 1 && hs != [] && rs != [])
  {
    var h := Join(hs);
    ProperParts(hs, rs);
    JoinAppend(hs, rs);
    if rs == [] {
      assert hs + rs == hs;
      assert k == 0;
      NothingLeft(t, rs);
    } else if hs == [] {
      assert t == Join(rs)[0 + k..];
      CutRoot(rs, k);
    } else {
      assert t == (h + "/" + Join(rs))[|h| + k..];
      CutInside(h, rs, k);
    }
  }

  lemma CutRoot(rs: seq<string>, k: nat)
    requires ProperComponents(rs) && rs != [] && k <= |Join(rs)|
    ensures Components(Join(rs)[0 + k..]) == rs <==> k == 0
  {
    CutComponents(rs, k);
  }

  lemma CutInside(h: string, rs: seq<string>, k: nat)
    requires ProperComponents(rs) && rs != [] && |h| + k <= |h + "/" + Join(rs)|
    ensures Components((h + "/" + Join(rs))[|h| + k..]) == rs <==> k <= 1
  {
    assert (h + "/" + Join(rs))[|h| + k..] == ("/" + Join(rs))[k..];
    CutBehindSlash(rs, k);
  }

  lemma {:induction false} JoinAppend(a: seq<string>, b: seq<string>)
    ensures Join(a + b) == if a == [] then Join(b) else if b == [] then Join(a) else Join(a) + "/" + Join(b)
  {
    if a == [] {
      assert a + b == b;
    } else if b == [] {
      assert a + b == a;
    } else {
      assert a == [a[0]] + a[1..] && a + b == [a[0]] + (a[1..] + b);
      JoinFrom(a[0], a[1..] + b);
      JoinFrom(a[0], a[1..]);
      JoinAppend(a[1..], b);
      var c, r, j := a[0], Join(a[1..]), Join(b);
      assert c + "/" + (r + "/" + j) == c + "/" + r + "/" + j;
    }
  }

  /** The home prefix ends at a component, and its length fits what is cut off the
      reduced path: it is reduced, or has one slash too many before something, or
      it is one letter and so long that nothing is moved. */
  predicate CutsRightly(home: string, p: string)
    requires Absolute(home) && home <= p
  {
    var h, full := Normal(home), Normal(p);
    && AtBoundary(home, p)
    && (|| |home| == |h|
        || (|home| == |h| + 1 && |h| >= 2 && full != h)
        || (|home| == |full| + 1 && |h| == 2))
  }

  lemma PrefixCancels(a: seq<string>, b: seq<string>, c: seq<string>)
    ensures a + b == a + c <==> b == c
  {
    assert (a + b)[|a|..] == b && (a + c)[|a|..] == c;
  }

  /** Whether the tail that is kept has the components `rs`, by lengths alone. */
  lemma TailHasRest(hs: seq<string>, rs: seq<string>, homeLen: nat, joined: string, t: string)
    requires ProperComponents(hs + rs) && joined == Join(hs + rs)
    requires homeLen >= 1 + |Join(hs)| && ContractFits(homeLen, 1 + |joined|) && t == Tail("/" + joined, homeLen)
    ensures var h := 1 + |Join(hs)|;
      Components(t) == rs
      <==> homeLen == h || (homeLen == h + 1 && h >= 2 && 1 + |joined| > h) || (homeLen == 2 + |joined| && h == 2)
  {
    HomeOfParts(hs, rs);
    if homeLen <= 1 + |joined| {
      assert t == joined[homeLen - 1..];
      CutLeavesRest(hs, rs, homeLen - 1 - |Join(hs)|, t);
    } else {
      assert t == joined[1..];
      NothingMoved(hs, rs, t);
    }
  }

  lemma CutsRightlyAtBoundary(p: string, home: string)
    requires Absolute(home) && home <= p && AtBoundary(home, p)
    ensures ResolvesBack(p, home) <==> CutsRightly(home, p)
  {
    var hs, rs := Components(home), Components(p[|home|..]);
    PartsAtBoundary(home, p);
    ComponentsAreProper(p);
    assert p[0] == '/';
    ResolvesIffTailDoes(p, home);
    OneRoundNormalizes(home);
    CollapseLeavesSingles(home);
    HomeOfParts(hs, rs);
    var full, h, joined := Normal(p), Normal(home), Join(hs + rs);
    assert |h| == 1 + |Join(hs)| && full == "/" + joined;
    assert full != h <==> |full| > |h|;
    if ContractFits(|home|, |full|) {
      var t := Tail(full, |home|);
      TailHasRest(hs, rs, |home|, joined, t);
      PrefixCancels(hs, Components(t), rs);
    }
  }

  lemma HomeOfParts(hs: seq<string>, rs: seq<string>)
    requires ProperComponents(hs + rs)
    ensures |Join(hs + rs)| >= |Join(hs)|
    ensures rs == [] <==> Join(hs + rs) == Join(hs)
    ensures rs != [] && hs != [] ==> |Join(hs + rs)| > |Join(hs)| + 1
    ensures Join(hs) == "" <==> hs == []
    ensures Join(hs + rs) == "" <==> hs + rs == []
  {
    ProperParts(hs, rs);
    JoinAppend(hs, rs);
    JoinThenSplit(hs);
    JoinThenSplit(rs);
    JoinThenSplit(hs + rs);
    assert rs == [] ==> hs + rs == hs;
  }

  /** For every path and every absolute home directory, reduced or not: resolving
      what is displayed gives what the path itself resolves to if and only if the
      home directory is not a byte prefix of the path or cuts it rightly. */
  lemma DisplayResolvesBackIff(p: string, home: string)
    requires p != "" && Absolute(home)
    ensures ResolvesBack(p, home) <==> (home <= p ==> CutsRightly(home, p))
  {
    if home <= p {
      if AtBoundary(home, p) {
        CutsRightlyAtBoundary(p, home);
      } else {
        ResolvesIffTailDoes(p, home);
        if ContractFits(|home|, |Normal(p)|) {
          PartsInsideComponent(home, p, Components(Tail(Normal(p), |home|)));
        }
      }
    } else {
      NotInHome(p, home);
    }
  }

  lemma NotInHome(p: string, home: string)
    requires p != "" && Absolute(home) && !(home <= p)
    ensures ResolvesBack(p, home)
  {
    var given := if p[0] == '~' then home + "/" + p[1..] else p;
    var full := Normal(given);
    assert given[0] != '~';
    NormalKeepsMeaning(given);
    NormalIsReduced(given);
    assert AbsoluteForm(p, Some(home)) == Some(full);
    assert full[0] != '~' && AbsoluteForm(full, Some(home)) == Some(Normal(full));
  }

  /** With a reduced home directory only a prefix that ends inside a component
      misleads, whether or not the path is reduced. */
  lemma ReducedHomeResolvesBack(p: string, home: string)
    requires p != "" && Absolute(home) && Reduced(home)
    ensures ResolvesBack(p, home) <==> (home <= p ==> AtBoundary(home, p))
  {
    DisplayResolvesBackIff(p, home);
  }

  /** Under a reduced home directory a tilde is shown, and behind it the components
      of the path that come after the home directory's: for every path of which
      the home directory is a prefix up to the end of a component, and, rightly or
      not, for every reduced path of which it is a byte prefix. */
  lemma DisplayedUnderHome(p: string, home: string)
    requires p != "" && Absolute(home) && Reduced(home) && home <= p
    requires AtBoundary(home, p) || Reduced(p)
    ensures DisplayFits(p, Some(home))
    ensures var rs := Components(p[|home|..]);
      DisplayForm(p, Some(home)) == Some(if rs == [] then "~" else "~/" + Join(rs))
  {
    var rs := Components(p[|home|..]);
    assert p[0] == '/';
    if AtBoundary(home, p) {
      PartsAtBoundary(home, p);
      ReducedHomeResolvesBack(p, home);
      ResolvesIffTailDoes(p, home);
      PrefixCancels(Components(home), Components(Tail(Normal(p), |home|)), rs);
    }
    var tail := Tail(Normal(p), |home|);
    assert Components(tail) == rs;
    TildeSpelled(tail);
  }

  lemma TildeSpelled(tail: string)
    ensures var rs := Components(tail); Normal("~/" + tail) == if rs == [] then "~" else "~/" + Join(rs)
  {
    TildeComponents(tail);
    JoinFrom("~", Components(tail));
  }

  /** A path of which the home directory is no byte prefix is shown in its absolute
      form, and so is every path without a home directory. */
  lemma DisplayedOutsideHome(p: string, home: Option<string>)
    requires p != "" && (home.Some? ==> !(home.value <= p))
    ensures DisplayFits(p, home) && DisplayForm(p, home) == AbsoluteForm(p, home)
  {
  }

  /** And so it is for a reduced path, as every working directory is. */
  lemma DisplayResolvesBack(p: string, home: string)
    requires Reduced(p) && p[0] != '~' && Absolute(home)
    ensures DisplayFits(p, Some(home))
    ensures DisplayForm(p, Some(home)).Some? && DisplayForm(p, Some(home)).value != ""
    ensures AbsoluteForm(DisplayForm(p, Some(home)).value, Some(home)) == Some(p)
            <==> (home <= p ==> AtBoundary(home, p))
  {
    if home <= p {
      var rest := p[|home|..];
      DisplayedTilde(rest);
      ResolvesIffTailDoes(p, home);
      if AtBoundary(home, p) {
        PartsAtBoundary(home, p);
      } else {
        PartsInsideComponent(home, p, Components(rest));
      }
    }
  }

  /** A byte prefix that is no directory prefix: the displayed path is wrong.  With
      the home directory /a, the directory /ab is shown as ~/b, which is /a/b. */
  lemma DisplayCanMislead(a: string, b: string)
    requires a != "" && '/' !in a && b != "" && '/' !in b
    ensures DisplayFits("/" + a + b, Some("/" + a)) && DisplayForm("/" + a + b, Some("/" + a)) == Some("~/" + b)
    ensures AbsoluteForm("~/" + b, Some("/" + a)) == Some("/" + a + "/" + b)
    ensures "/" + a + "/" + b != "/" + a + b
  {
    var home, p := "/" + a, "/" + a + b;
    NormalOfOne(a + b);
    assert p == "/" + (a + b) && p[|home|..] == b;
    NormalOfTwo("~", b);
    assert "~/" + b == "~" + "/" + b;
    assert ("~/" + b)[1..] == "/" + b;
    NormalOfHome(a, b);
  }

  /** Nor is an unreduced path safe.  With HOME=/abc/, the path /abc/ is shown as
      ~/bc, for its reduced form is one shorter than the prefix taken off. */
  lemma HomeWithSlashCanMislead(a: string)
    requires |a| >= 2 && '/' !in a
    ensures var home := "/" + a + "/";
      DisplayFits(home, Some(home)) && DisplayForm(home, Some(home)) == Some("~/" + a[1..])
  {
    var home, full := "/" + a + "/", "/" + a;
    ComponentsSplitAtSlash(full, "");
    assert full + "/" + "" == home && Components(full) + Components("") == Components(full);
    NormalOfOne(a);
    NormalIsCanonical(home, full);
    assert full[2..] == a[1..];
    NormalOfTwo("~", a[1..]);
    assert "~/" + a[1..] == "~" + "/" + a[1..];
  }

  lemma ComponentsOfOne(c: string)
    requires c != "" && '/' !in c
    ensures Components("/" + c) == [c]
  {
    ComponentsSplitAtSlash("", c);
    assert "" + "/" + c == "/" + c;
    OneComponent(c);
    assert [] + [c] == [c];
  }

  lemma NormalOfOne(c: string)
    requires c != "" && '/' !in c
    ensures Normal("/" + c) == "/" + c
  {
    ComponentsOfOne(c);
  }

  lemma NormalOfTwo(c: string, d: string)
    requires c != "" && '/' !in c && d != "" && '/' !in d
    ensures Normal(c + "/" + d) == c + "/" + d
  {
    assert c[0] in c;
    ComponentsSplitAtSlash(c, d);
    OneComponent(c);
    OneComponent(d);
    JoinFrom(c, [d]);
  }

  lemma NormalOfHome(a: string, b: string)
    requires a != "" && '/' !in a && b != "" && '/' !in b
    ensures Normal("/" + a + "/" + ("/" + b)) == "/" + a + "/" + b
  {
    var home, tail := "/" + a, "/" + b;
    ComponentsOfOne(a);
    ComponentsOfOne(b);
    ComponentsSplitAtSlash(home, tail);
    NormalOfParts(home + "/" + tail, a, b);
  }

  lemma NormalOfParts(path: string, a: string, b: string)
    requires Absolute(path) && Components(path) == [a] + [b]
    ensures Normal(path) == "/" + a + "/" + b
  {
    JoinFrom(a, [b]);
    assert "/" + (a + "/" + b) == "/" + a + "/" + b;
  }
}
