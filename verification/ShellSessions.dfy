/** The working directory over a session of `cd` commands, and its prompt. */
module ShellSessions {
  import opened Options
  import opened CStrings
  import opened SlashPaths
  import opened ShellPaths
  import opened ShellDisplays

  /** One `cd` as the shell meets it: its argument if there is one, the value of
      HOME at that moment, and whether memory and chdir cooperate. */
  datatype Cd = Cd(arg: Option<string>, home: Option<string>, gotMemory: bool, changed: bool)

  predicate Wanted(c: Cd) {
    && c.arg != Some("") && NoNul(c.arg) && NoNul(c.home)
    && (c.home.Some? ==> Absolute(c.home.value))
  }

  function NextCwd(cwd: string, c: Cd): string
    requires Wanted(c)
  {
    if c.arg.None? || !c.gotMemory || !c.changed then cwd
    else match AbsoluteForm(c.arg.value, c.home)
      case None => cwd
      case Some(full) => full
  }

  function CwdAfter(cwd: string, cds: seq<Cd>): string
    requires forall i :: 0 <= i < |cds| ==> Wanted(cds[i])
  {
    if cds == [] then cwd else NextCwd(CwdAfter(cwd, cds[..|cds| - 1]), cds[|cds| - 1])
  }

  /** A directory the prompt can show: reduced, and not itself in tilde form. */
  predicate Showable(cwd: string) {
    Reduced(cwd) && cwd[0] != '~' && NUL !in cwd
  }

  lemma NextCwdIsShowable(cwd: string, c: Cd)
    requires Showable(cwd) && Wanted(c)
    ensures Showable(NextCwd(cwd, c))
  {
    if c.arg.Some? && AbsoluteForm(c.arg.value, c.home).Some? {
      var arg := c.arg.value;
      var full := if arg[0] == '~' then c.home.value + "/" + arg[1..] else arg;
      NormalKeepsMeaning(full);
      NormalIsReduced(full);
      NormalAddsNoChars(full, NUL);
    }
  }

  lemma NormalAddsNoChars(s: string, c: char)
    requires c != '/' && c !in s
    ensures c !in Normal(s)
  {
    if s != "" {
      OneRoundNormalizes(s);
      CollapseAddsNoChars(s, c);
    }
  }

  lemma {:induction false} CollapseAddsNoChars(s: string, c: char)
    requires c !in s
    ensures c !in Collapse(s)
  {
    if |s| >= 2 {
      CollapseAddsNoChars(s[1..], c);
    }
  }

  /** Whatever is typed, the working directory stays reduced and out of tilde
      form, so that the prompt tests the home prefix on the very string it then
      shortens, the shortening cannot underflow, and resolving the prompt leads
      back unless the prefix ends inside a component. */
  lemma {:induction false} SessionsStayShowable(cwd: string, cds: seq<Cd>, home: Option<string>)
    requires Showable(cwd) && forall i :: 0 <= i < |cds| ==> Wanted(cds[i])
    requires home.Some? ==> Absolute(home.value)
    ensures var now := CwdAfter(cwd, cds);
      && Showable(now)
      && AbsoluteForm(now, home) == Some(now)
      && DisplayFits(now, home)
      && (home.Some? && home.value <= now ==> |home.value| <= |now|)
    ensures var now := CwdAfter(cwd, cds);
      AbsoluteForm(DisplayForm(now, home).value, home) == Some(now)
      <==> (home.Some? && home.value <= now ==> AtBoundary(home.value, now))
  {
    if cds == [] {
      ReducedIsItsOwnForm(cwd, home);
      if home.Some? { DisplayResolvesBack(cwd, home.value); }
    } else {
      var init := cds[..|cds| - 1];
      SessionsStayShowable(cwd, init, home);
      NextCwdIsShowable(CwdAfter(cwd, init), cds[|cds| - 1]);
      var now := CwdAfter(cwd, cds);
      ReducedIsItsOwnForm(now, home);
      if home.Some? { DisplayResolvesBack(now, home.value); }
    }
  }

  class Shell {
    var cwd: string

    constructor (dir: string)
      requires Showable(dir)
      ensures cwd == dir
    {
      cwd := dir;
    }

    method ShellCd(c: Cd)
      requires Wanted(c) && Showable(cwd)
      modifies this
      ensures cwd == NextCwd(old(cwd), c) && Showable(cwd)
      ensures var goes := c.arg.Some? && (c.arg.value[0] == '~' ==> c.home.Some?) && c.gotMemory && c.changed;
        if !goes then cwd == old(cwd)
        else if c.arg.value[0] == '~' then
          Absolute(cwd) && Components(cwd) == Components(c.home.value) + Components(c.arg.value[1..])
        else Absolute(cwd) == Absolute(c.arg.value) && Components(cwd) == Components(c.arg.value)
    {
      NextCwdIsShowable(cwd, c);
      if c.arg.Some? { AbsoluteFormMeans(c.arg.value, c.home); }
      var path := ShellPathAbsolute(c.arg, c.home, c.gotMemory);
      if path == null {
        return;
      }
      if !c.changed {
        return;
      }
      var n := StrLen(path);
      cwd := path[..n];
    }

    /** The text before " $ ". */
    method Prompt(home: Option<string>, gotMemory: bool, grown: bool, junk: char) returns (shown: Option<string>)
      requires Showable(cwd) && NoNul(home) && (home.Some? ==> Absolute(home.value))
      ensures shown.Some? <==> gotMemory && (home.Some? && home.value <= cwd ==> grown)
      ensures shown.Some? ==> DisplayFits(cwd, home) && shown == DisplayForm(cwd, home)
      ensures shown.Some? && (home.Some? ==> !(home.value <= cwd)) ==> shown.value == cwd
      ensures shown.Some? && home.Some? && home.value <= cwd && Reduced(home.value) ==>
        var rs := Components(cwd[|home.value|..]); shown.value == if rs == [] then "~" else "~/" + Join(rs)
    {
      ReducedIsItsOwnForm(cwd, home);
      if home.Some? && home.value <= cwd && Reduced(home.value) {
        DisplayedUnderHome(cwd, home.value);
      }
      var str, _ := ShellPathDisplay(Some(cwd), home, gotMemory, grown, junk);
      if str == null {
        return None;
      }
      var n := StrLen(str);
      shown := Some(str[..n]);
    }
  }
}
