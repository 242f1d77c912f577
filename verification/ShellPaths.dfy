/**
 The shell's path handling: reducing a path in its buffer, expanding a leading
 tilde, and contracting the home directory for display.
 */
module ShellPaths {
  import opened Options
  import opened CStrings
  import opened SlashPaths

  // ---------- Reducing in place ----------

  /** The buffer holds a terminated string of length `n`. */
  ghost predicate Holds(path: array<char>, n: nat)
    reads path
  {
    n < path.Length && path[n] == NUL && forall i :: 0 <= i < n ==> path[i] != NUL
  }

  /** Copy the string from `t` on down to `s`, terminator included. */
  method ShiftDown(path: array<char>, s: nat, t: nat, ghost n: nat)
    requires Holds(path, n) && s <= t <= n
    modifies path
    ensures Holds(path, n - (t - s))
    ensures path[..s] == old(path[..s]) && path[s..n - (t - s)] == old(path[t..n])
    ensures forall i :: n < i < path.Length ==> path[i] == old(path[i])
  {
    var u, v := s, t;
    while path[v] != NUL
      invariant t <= v <= n && u == v - (t - s)
      invariant forall i :: 0 <= i < s || v <= i < path.Length ==> path[i] == old(path[i])
      invariant forall i :: s <= i < u ==> path[i] == old(path[i + (t - s)])
      decreases n - v
    {
      path[u] := path[v];
      u, v := u + 1, v + 1;
    }
    path[u] := NUL;
    Shifted(path[..], old(path[..]), s, t, n);
  }

  lemma Shifted(now: seq<char>, was: seq<char>, s: nat, t: nat, n: nat)
    requires s <= t <= n <= |now| == |was|
    requires forall i :: s <= i < n - (t - s) ==> now[i] == was[i + (t - s)]
    ensures now[s..n - (t - s)] == was[t..n]
  {
    forall i | 0 <= i < n - t ensures now[s..n - (t - s)][i] == was[t..n][i] {
      assert now[s + i] == was[s + i + (t - s)];
    }
  }

  /** The end of the run of slashes that starts at `s`. */
  method SkipSlashes(path: array<char>, s: nat, ghost n: nat) returns (t: nat)
    requires Holds(path, n) && s <= n
    ensures s <= t <= n && path[t] != '/'
    ensures forall i :: s <= i < t ==> path[i] == '/'
  {
    t := s;
    while path[t] == '/'
      invariant s <= t <= n
      invariant forall i :: s <= i < t ==> path[i] == '/'
      decreases n - t
    {
      t := t + 1;
    }
  }

  /** `s` with the run of `k` slashes at its front shrunk to the last of them. */
  function Shrunk(s: string, k: nat): string
    requires k <= |s|
  {
    if k == 0 then s else s[k - 1..]
  }

  /** One step of the collapsing loop: shrink the run of slashes at `s`, if
      there is one, to its last slash. */
  method ShrinkRunAt(path: array<char>, s: nat, ghost n: nat) returns (ghost m: nat, ghost k: nat)
    requires Holds(path, n) && s < n
    modifies path
    ensures s < m <= n && Holds(path, m) && k <= n - s
    ensures IsRun(old(path[s..n]), k)
    ensures path[..s] == old(path[..s]) && path[s..m] == Shrunk(old(path[s..n]), k)
    ensures forall i :: n < i < path.Length ==> path[i] == old(path[i])
  {
    var t := SkipSlashes(path, s, n);
    m, k := n, t - s;
    assert k > 0 ==> path[s..n][k - 1..] == path[t - 1..n];
    if t - 1 < s {
      return;
    }
    ShiftDown(path, s, t - 1, n);
    m := n - (t - 1 - s);
  }

  /** Replace every run of slashes by a single one. */
  method CollapseSlashes(path: array<char>, ghost n: nat) returns (ghost m: nat)
    requires Holds(path, n)
    modifies path
    ensures m <= n && Holds(path, m) && path[..m] == Collapse(old(path[..n]))
    ensures forall i :: n < i < path.Length ==> path[i] == old(path[i])
  {
    m := n;
    ghost var goal := Collapse(path[..n]);
    var s := 0;
    assert path[..s] + Collapse(path[s..m]) == goal by {
      assert path[s..m] == path[..n];
    }
    while path[s] != NUL
      invariant s <= m <= n && Holds(path, m)
      invariant path[..s] + Collapse(path[s..m]) == goal
      invariant forall i :: n < i < path.Length ==> path[i] == old(path[i])
      decreases m - s
    {
      ghost var head, todo, k := path[..s], path[s..m], 0;
      m, k := ShrinkRunAt(path, s, m);
      CollapseRun(todo, k);
      assert path[s..m][1..] == path[s + 1..m];
      MoveAcross(head, path[s], Collapse(path[s + 1..m]));
      assert path[..s + 1] == head + [path[s]];
      s := s + 1;
    }
    assert s == m && path[s..m] == "";
  }

  lemma MoveAcross(head: string, c: char, rest: string)
    ensures head + [c] + rest == head + ([c] + rest)
  {
  }

  /** `s` starts with exactly `k` slashes. */
  predicate IsRun(s: string, k: nat) {
    k <= |s| && (forall i :: 0 <= i < k ==> s[i] == '/') && (k < |s| ==> s[k] != '/')
  }

  lemma {:induction false} CollapseRun(s: string, k: nat)
    requires s != "" && IsRun(s, k)
    ensures var kept := Shrunk(s, k);
      Collapse(s) == Collapse(kept) == [kept[0]] + Collapse(kept[1..])
  {
    if k > 1 {
      CollapseRun(s[1..], k - 1);
      assert s[1..][k - 2..] == s[k - 1..];
    }
  }

  lemma SecondRoundChangesNothing(s: string)
    requires s != ""
    ensures Strip(Collapse(s)) == Normal(s) && 0 < |Normal(s)| <= |s|
    ensures Strip(Collapse(Normal(s))) == Normal(s)
  {
    OneRoundNormalizes(s);
    CollapseLeavesSingles(s);
    NormalIsReduced(s);
    OneRoundNormalizes(Normal(s));
  }

  /** Reduce the path in its buffer, round by round until its length is stable. */
  method ShellPathReduce(path: array<char>) returns (ghost rounds: nat)
    requires Terminated(path[..]) && Text(path[..]) != ""
    modifies path
    ensures Terminated(path[..]) && Text(path[..]) == Normal(old(Text(path[..])))
    ensures forall i :: old(Length(path[..])) < i < path.Length ==> path[i] == old(path[i])
    ensures rounds <= 2
  {
    ghost var was := Text(path[..]);
    SecondRoundChangesNothing(was);
    var len := StrLen(path);
    rounds := 0;
    while true
      invariant 0 < len <= |was| < path.Length && Holds(path, len)
      invariant path[..len] == if rounds == 0 then was else Normal(was)
      invariant forall i :: |was| < i < path.Length ==> path[i] == old(path[i])
      invariant rounds <= 1
      decreases 2 - rounds
    {
      var oldLen := len;
      len := ReduceRound(path, len);
      rounds := rounds + 1;
      if len == oldLen {
        break;
      }
    }
    TextIs(path[..], len);
  }

  /** One round: collapse, then drop a trailing slash unless the path is "/". */
  method ReduceRound(path: array<char>, ghost n: nat) returns (len: nat)
    requires Holds(path, n) && n > 0
    modifies path
    ensures 0 < len <= n && Holds(path, len) && path[..len] == Strip(Collapse(old(path[..n])))
    ensures forall i :: n < i < path.Length ==> path[i] == old(path[i])
  {
    CollapseLeavesSingles(path[..n]);
    ghost var m := CollapseSlashes(path, n);
    TextIs(path[..], m);
    len := StrLen(path);
    len := DropTrailingSlash(path, len);
  }

  method DropTrailingSlash(path: array<char>, len: nat) returns (len': nat)
    requires Holds(path, len) && len > 0
    modifies path
    ensures 0 < len' <= len && Holds(path, len') && path[..len'] == Strip(old(path[..len]))
    ensures forall i :: len < i < path.Length ==> path[i] == old(path[i])
  {
    len' := len;
    if path[..len] != "/" && path[len - 1] == '/' {
      path[len - 1] := NUL;
      len' := len - 1;
    }
  }

  // ---------- Tilde and home ----------

  /** The absolute form of a non-empty path, or none if it needs a home directory
      that is not set. */
  function AbsoluteForm(path: string, home: Option<string>): (r: Option<string>)
    requires path != ""
  {
    if path[0] != '~' then Some(Normal(path))
    else if home.None? then None
    else Some(Normal(home.value + "/" + path[1..]))
  }

  /** What is shown for a path: inside the home directory, by the byte-prefix
      test on the path as given, the prefix becomes a tilde. */
  function DisplayForm(path: string, home: Option<string>): Option<string>
    requires path != "" && DisplayFits(path, home)
  {
    match AbsoluteForm(path, home)
    case None => None
    case Some(full) =>
      if home.Some? && home.value <= path then Some(Normal(Contracted(full, |home.value|))) else Some(full)
  }

  /** The string left once "~/" stands in front of what was moved.  If the home
      directory is one longer than the string nothing is moved, and only the
      first two characters change. */
  function Contracted(full: string, homeLen: nat): string
    requires ContractFits(homeLen, |full|)
  {
    "~/" + Tail(full, homeLen)
  }

  function Tail(full: string, homeLen: nat): string
    requires ContractFits(homeLen, |full|)
  {
    if homeLen <= |full| then full[homeLen..] else full[2..]
  }

  /** Contracting moves nothing out of the buffer and leaves a terminated string. */
  predicate ContractFits(homeLen: nat, strLen: nat) {
    1 <= homeLen <= strLen + 1 && (homeLen == strLen + 1 ==> strLen >= 2)
  }

  predicate DisplayFits(path: string, home: Option<string>)
    requires path != ""
  {
    var full := AbsoluteForm(path, home);
    full.Some? && home.Some? && home.value <= path ==> ContractFits(|home.value|, |full.value|)
  }

  const SIZE_MODULUS: nat := 0x1_0000_0000_0000_0000

  /** The characters that memmove is asked to move, in size_t arithmetic, lie in a
      buffer of `strLen + 2` at their old place and at their new one. */
  predicate MoveStaysInside(homeLen: nat, strLen: nat) {
    var count := (strLen - homeLen + 1) % SIZE_MODULUS;
    homeLen + count <= strLen + 2 && 2 + count <= strLen + 2
  }

  /** The move leaves the buffer if and only if HOME is empty or longer than the
      reduced path by two or more. */
  lemma MoveStaysInsideIff(homeLen: nat, strLen: nat)
    requires strLen + 2 < SIZE_MODULUS && homeLen < SIZE_MODULUS
    ensures MoveStaysInside(homeLen, strLen) <==> 1 <= homeLen <= strLen + 1
  {
    if homeLen <= strLen + 1 {
      assert (strLen - homeLen + 1) % SIZE_MODULUS == strLen - homeLen + 1;
    } else {
      assert (strLen - homeLen + 1) % SIZE_MODULUS == SIZE_MODULUS + strLen - homeLen + 1;
    }
  }

  /** The absolute form is the canonical spelling of the path, with the components
      of the home directory in the place of a leading tilde. */
  lemma AbsoluteFormMeans(path: string, home: Option<string>)
    requires path != ""
    ensures AbsoluteForm(path, home).None? <==> path[0] == '~' && home.None?
    ensures AbsoluteForm(path, home).Some? ==>
      var full := AbsoluteForm(path, home).value;
      && Reduced(full)
      && (path[0] != '~' ==> Components(full) == Components(path) && Absolute(full) == Absolute(path))
      && (path[0] == '~' ==>
            && Components(full) == Components(home.value) + Components(path[1..])
            && (Absolute(full) <==> home.value == "" || Absolute(home.value)))
  {
    if AbsoluteForm(path, home).Some? {
      var given := if path[0] == '~' then home.value + "/" + path[1..] else path;
      NormalKeepsMeaning(given);
      NormalIsReduced(given);
      if path[0] == '~' { ComponentsSplitAtSlash(home.value, path[1..]); }
    }
  }

  predicate NoNul(s: Option<string>) {
    s.Some? ==> NUL !in s.value
  }

  method ShellPathAbsolute(path: Option<string>, home: Option<string>, gotMemory: bool) returns (str: array?<char>)
    requires NoNul(path) && NoNul(home) && path != Some("")
    ensures str == null <==> path.None? || AbsoluteForm(path.value, home).None? || !gotMemory
    ensures str != null ==>
      fresh(str) && Terminated(str[..]) && Text(str[..]) == AbsoluteForm(path.value, home).value
  {
    if path.None? {
      return null;
    }
    var prefix, rest := "", path.value;
    if rest[0] == '~' {
      if home.None? {
        return null;
      }
      prefix, rest := home.value + "/", rest[1..];
    }
    if !gotMemory {
      return null;
    }
    str := NewCString(prefix + rest);
    assert prefix + rest == if path.value[0] == '~' then home.value + "/" + path.value[1..] else path.value;
    var _ := ShellPathReduce(str);
  }

  /** A buffer with room for exactly this string. */
  method NewCString(s: string) returns (buf: array<char>)
    requires NUL !in s
    ensures fresh(buf) && buf.Length == |s| + 1 && Terminated(buf[..]) && Text(buf[..]) == s
  {
    buf := new char[|s| + 1](i requires 0 <= i => if i < |s| then s[i] else NUL);
    assert forall i :: 0 <= i < |s| ==> buf[i] == s[i] && s[i] in s;
    TextIs(buf[..], |s|);
    assert buf[..][..|s|] == s;
  }

  /** The buffer of `text` and its terminator, with the character `junk` behind it
      after realloc, once memmove has moved what follows the home directory
      and "~/" is put in front. */
  function Moved(text: string, homeLen: nat, junk: char): (b: seq<char>)
    requires 1 <= homeLen <= |text| + 1
    ensures |b| == |text| + 2
  {
    var was := text + [NUL, junk];
    seq(|was|, i requires 0 <= i < |was| =>
      if i == 0 then '~'
      else if i == 1 then '/'
      else if i < |text| - homeLen + 3 then was[homeLen - 2 + i]
      else was[i])
  }

  lemma MovedHoldsTheTail(text: string, homeLen: nat, junk: char)
    requires NUL !in text && ContractFits(homeLen, |text|)
    ensures var b := Moved(text, homeLen, junk); Terminated(b) && Text(b) == Contracted(text, homeLen)
  {
    TildeAndTail(Moved(text, homeLen, junk), Tail(text, homeLen));
  }

  /** Where the move stays in the buffer, contracting leaves a terminated string,
      whatever realloc adds, if and only if the home directory is not longer than
      the string or the string has two characters. */
  lemma TerminatedIffFits(text: string, homeLen: nat)
    requires NUL !in text && 1 <= homeLen <= |text| + 1
    ensures (forall junk :: Terminated(Moved(text, homeLen, junk))) <==> ContractFits(homeLen, |text|)
  {
    if ContractFits(homeLen, |text|) {
      forall junk ensures Terminated(Moved(text, homeLen, junk)) {
        MovedHoldsTheTail(text, homeLen, junk);
      }
    } else {
      var b := Moved(text, homeLen, 'x');
      assert |text| <= 1 && forall i :: 0 <= i < |b| ==> b[i] != NUL;
    }
  }

  /** `misfit` says that contracting would leave the buffer, or would leave in it
      no terminated string; what the program does then is not defined.  `junk` is
      what stands behind the terminator after realloc, which does not set it. */
  method ShellPathDisplay(path: Option<string>, home: Option<string>, gotMemory: bool, grown: bool, junk: char)
    returns (str: array?<char>, misfit: bool)
    requires NoNul(path) && NoNul(home) && path != Some("")
    ensures misfit <==>
      path.Some? && AbsoluteForm(path.value, home).Some? && gotMemory && grown && !DisplayFits(path.value, home)
    ensures str == null <==>
      || path.None? || AbsoluteForm(path.value, home).None? || !gotMemory
      || (home.Some? && home.value <= path.value && !grown) || misfit
    ensures str != null ==>
      fresh(str) && Terminated(str[..]) && Some(Text(str[..])) == DisplayForm(path.value, home)
  {
    misfit := false;
    str := ShellPathAbsolute(path, home, gotMemory);
    if str == null || home.None? {
      return;
    }
    var homeLen := |home.value|;
    if home.value <= path.value {
      var strLen := StrLen(str);
      if !grown {
        return null, false;
      }
      if !ContractFits(homeLen, strLen) {
        return null, true;
      }
      str := Contract(str, homeLen, strLen, junk);
    }
    NormalIsReduced(if path.value[0] == '~' then home.value + "/" + path.value[1..] else path.value);
    var _ := ShellPathReduce(str);
  }

  /** The reallocated buffer of `strLen + 2` characters, with what follows the
      home directory moved behind "~/". */
  method Contract(str: array<char>, homeLen: nat, strLen: nat, junk: char) returns (temp: array<char>)
    requires Holds(str, strLen) && 1 <= homeLen <= strLen + 1
    ensures fresh(temp) && temp[..] == Moved(str[..strLen], homeLen, junk)
    ensures ContractFits(homeLen, strLen) ==>
      Terminated(temp[..]) && Text(temp[..]) == Contracted(str[..strLen], homeLen)
  {
    temp := Realloc(str, strLen, junk);
    MoveBehindTilde(temp, homeLen, str[..strLen], junk);
    if ContractFits(homeLen, strLen) {
      MovedHoldsTheTail(str[..strLen], homeLen, junk);
    }
  }

  /** The string in a buffer of `strLen + 2`, with one character behind it. */
  method Realloc(str: array<char>, strLen: nat, junk: char) returns (temp: array<char>)
    requires Holds(str, strLen)
    ensures fresh(temp) && temp[..] == str[..strLen] + [NUL, junk]
  {
    temp := new char[strLen + 2](i requires 0 <= i < strLen + 2 reads str => if i <= strLen then str[i] else junk);
  }

  method MoveBehindTilde(buf: array<char>, homeLen: nat, ghost text: string, ghost junk: char)
    requires 1 <= homeLen <= |text| + 1 && buf[..] == text + [NUL, junk]
    modifies buf
    ensures buf[..] == Moved(text, homeLen, junk)
  {
    var strLen := buf.Length - 2;
    forall k | 2 <= k < strLen - homeLen + 3 {
      buf[k] := buf[homeLen - 2 + k];
    }
    buf[0] := '~';
    buf[1] := '/';
  }

  lemma TildeAndTail(b: seq<char>, tail: string)
    requires |tail| + 2 < |b| && NUL !in tail
    requires b[0] == '~' && b[1] == '/' && b[|tail| + 2] == NUL
    requires forall k :: 2 <= k < |tail| + 2 ==> b[k] == tail[k - 2]
    ensures Terminated(b) && Text(b) == "~/" + tail
  {
    var n := |tail| + 2;
    forall i | 0 <= i < n ensures b[i] != NUL {
      assert i >= 2 ==> tail[i - 2] in tail;
    }
    TextIs(b, n);
    assert b[..n] == "~/" + tail;
  }
}
