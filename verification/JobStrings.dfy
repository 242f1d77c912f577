/** Reading a job string as a program name and its arguments. */
module JobStrings {
  import opened Options
  import opened Texts
  import opened Tokens
  import opened TokenGrammar
  import opened Commands

  /** A blank ends the field in progress; any other character extends it. */
  function Took(st: State, c: char): State {
    if IsBlank(c) then State(false, "", Flushed(st)) else st.(buffer := st.buffer + [c])
  }

  /** Reading on from a state whose buffer is the field in progress. */
  function Collect(st: State, s: string): State
    decreases |s|
  {
    if s == "" then st
    else Collect(Took(st, s[0]), s[1..])
  }

  /** The maximal stretches without a space or newline. */
  function Fields(s: string): seq<string> {
    Flushed(Collect(START, s))
  }

  lemma {:induction false} CollectAppend(st: State, a: string, b: string)
    ensures Collect(st, a + b) == Collect(Collect(st, a), b)
    decreases |a|
  {
    if a == "" {
      assert a + b == b;
    } else {
      assert (a + b)[1..] == a[1..] + b;
      CollectAppend(Took(st, a[0]), a[1..], b);
    }
  }

  lemma {:induction false} CollectFrom(st: State, done: seq<string>, s: string)
    ensures var r := Collect(st, s);
      Collect(st.(tokens := done + st.tokens), s) == r.(tokens := done + r.tokens)
    decreases |s|
  {
    if s != "" {
      assert Flushed(st.(tokens := done + st.tokens)) == done + Flushed(st);
      var next := Took(st, s[0]);
      assert Took(st.(tokens := done + st.tokens), s[0]) == next.(tokens := done + next.tokens);
      CollectFrom(next, done, s[1..]);
    }
  }

  /** A blank separates what is before it from what is after it. */
  lemma FieldsSplitAtBlank(a: string, c: char, b: string)
    requires IsBlank(c)
    ensures Fields(a + [c] + b) == Fields(a) + Fields(b)
  {
    var st, f := Collect(START, a), Fields(a);
    CollectAppend(START, a + [c], b);
    CollectAppend(START, a, [c]);
    assert [c][1..] == "";
    assert Collect(st, [c]) == Took(st, c) == State(false, "", f);
    CollectFrom(START, f, b);
    assert f + START.tokens == f;
    var r := Collect(START, b);
    assert Flushed(r.(tokens := f + r.tokens)) == f + Flushed(r);
  }

  lemma {:induction false} CollectWord(st: State, w: string)
    requires forall i :: 0 <= i < |w| ==> !IsBlank(w[i])
    ensures Collect(st, w) == st.(buffer := st.buffer + w)
    decreases |w|
  {
    if w == "" {
      assert st.buffer + w == st.buffer;
    } else {
      CollectWord(st.(buffer := st.buffer + [w[0]]), w[1..]);
      assert st.buffer + [w[0]] + w[1..] == st.buffer + w;
    }
  }

  lemma OneField(w: string)
    requires w != "" && forall i :: 0 <= i < |w| ==> !IsBlank(w[i])
    ensures Fields(w) == [w]
  {
    CollectWord(START, w);
    assert START.buffer + w == w;
  }

  /** Spaces and newlines end fields and are dropped; all else fills them. */
  lemma FieldsByCharacters(w: string, rest: string)
    requires ' ' !in w && '\n' !in w
    ensures Fields(w) == Tok(w)
    ensures Fields(w + " " + rest) == Tok(w) + Fields(rest)
    ensures Fields(w + "\n" + rest) == Tok(w) + Fields(rest)
  {
    assert forall i :: 0 <= i < |w| ==> w[i] in w;
    if w != "" { OneField(w); }
    FieldsSplitAtBlank(w, ' ', rest);
    FieldsSplitAtBlank(w, '\n', rest);
  }

  method SkipBlanks(s: string, pos: nat) returns (start: nat)
    requires pos <= |s|
    ensures pos <= start <= |s| && (start < |s| ==> !IsBlank(s[start]))
    ensures Fields(s[pos..]) == Fields(s[start..])
  {
    start := pos;
    while start < |s| && IsBlank(s[start])
      invariant pos <= start <= |s|
      invariant Fields(s[pos..]) == Fields(s[start..])
    {
      FieldsSplitAtBlank("", s[start], s[start + 1..]);
      assert "" + [s[start]] + s[start + 1..] == s[start..];
      assert Fields("") == [];
      start := start + 1;
    }
  }

  /** C's strtok with blanks as separators, on the rest of the string from `pos`. */
  method Strtok(s: string, pos: nat) returns (token: Option<string>, next: nat)
    requires pos <= |s|
    ensures pos <= next <= |s|
    ensures token.None? <==> Fields(s[pos..]) == []
    ensures token.Some? ==> Fields(s[pos..]) == [token.value] + Fields(s[next..])
  {
    var start := SkipBlanks(s, pos);
    if start == |s| {
      assert s[start..] == "";
      return None, start;
    }
    next := start;
    while next < |s| && !IsBlank(s[next])
      invariant start <= next <= |s|
      invariant forall i :: start <= i < next ==> !IsBlank(s[i])
    {
      next := next + 1;
    }
    var field := s[start..next];
    token := Some(field);
    OneField(field);
    if next < |s| {
      FieldsSplitAtBlank(field, s[next], s[next + 1..]);
      assert field + [s[next]] + s[next + 1..] == s[start..];
      next := next + 1;
    } else {
      assert field == s[start..] && s[next..] == "";
      assert Fields("") == [] && [field] + [] == [field];
    }
  }

  class Job {
    var jobName: string
    var args: seq<string>

    constructor (name: string)
      ensures jobName == name && args == []
    {
      jobName, args := name, [];
    }

    method AddArg(arg: string)
      modifies this`args
      ensures args == old(args) + [arg]
    {
      args := args + [arg];
    }

    /** The command handed to popen: the name alone, whatever the arguments. */
    method StartProcess() returns (command: string)
      ensures command == jobName
    {
      command := jobName;
    }

    /** The first field names the program, the others are its arguments.  A string
        without any field has no job: the program then constructs one from NULL,
        whose length it takes. */
    static method JobFromString(str: string) returns (job: Job?)
      ensures job == null <==> Fields(str) == []
      ensures job != null ==> fresh(job) && [job.jobName] + job.args == Fields(str)
    {
      assert str[0..] == str;
      var exeName, pos := Strtok(str, 0);
      if exeName.None? {
        return null;
      }
      var made := new Job(exeName.value);
      var arg: Option<string>;
      ghost var left := Fields(str[pos..]);
      arg, pos := Strtok(str, pos);
      while arg.Some?
        invariant pos <= |str| && fresh(made)
        invariant [made.jobName] + made.args + left == Fields(str)
        invariant if arg.None? then left == [] else left == [arg.value] + Fields(str[pos..])
        decreases |left|
      {
        made.AddArg(arg.value);
        left := Fields(str[pos..]);
        arg, pos := Strtok(str, pos);
      }
      NothingLeft([made.jobName] + made.args);
      job := made;
    }
  }

  lemma NothingLeft(s: seq<string>)
    ensures s + [] == s
  {
  }

  // ---------- Jobs that mean the tokens they were printed from ----------

  lemma FieldsBeforeSpace(a: string)
    ensures Fields(a + " ") == Fields(a)
  {
    FieldsSplitAtBlank(a, ' ', "");
    assert a + [' '] + "" == a + " ";
    assert Fields("") == [];
    assert Fields(a) + [] == Fields(a);
  }

  lemma FieldsBehindPrint(init: seq<string>, t: string)
    ensures Fields(Print(init) + t + " ") == Fields(Print(init)) + Fields(t)
  {
    FieldsBeforeSpace(Print(init) + t);
    if init == [] {
      assert Print(init) + t == t;
      assert [] + Fields(t) == Fields(t);
    } else {
      var p := Print(init[..|init| - 1]) + init[|init| - 1];
      FieldsSplitAtBlank(p, ' ', t);
      FieldsBeforeSpace(p);
      assert Print(init) == p + " ";
    }
  }

  lemma {:induction false} FieldsOfPrint(segment: seq<string>)
    ensures Fields(Print(segment)) == FlatMap(segment, s => Fields(s))
  {
    if segment != [] {
      var n := |segment| - 1;
      var init, t := segment[..n], segment[n];
      FieldsBehindPrint(init, t);
      FieldsOfPrint(init);
      FlatMapAppend(init, [t], s => Fields(s));
      FlatMapOne(t, s => Fields(s));
      assert segment == init + [t];
    }
  }

  /** Fields keep every character but the blanks. */
  lemma {:induction false} CollectKeeps(st: State, s: string)
    requires "" !in st.tokens
    ensures var r := Collect(st, s);
      && "" !in r.tokens
      && |Flat(r.tokens)| + |r.buffer| + Blanks(s) == |Flat(st.tokens)| + |st.buffer| + |s|
    decreases |s|
  {
    if s != "" {
      FlatFlushed(st);
      CollectKeeps(Took(st, s[0]), s[1..]);
    }
  }

  function Blanks(s: string): nat {
    if s == "" then 0 else (if IsBlank(s[0]) then 1 else 0) + Blanks(s[1..])
  }

  lemma {:induction false} BlanksCounted(s: string)
    ensures Blanks(s) == 0 <==> !HasBlank(s)
  {
    if s != "" {
      BlanksCounted(s[1..]);
      if HasBlank(s[1..]) {
        var i :| 0 <= i < |s| - 1 && IsBlank(s[1..][i]);
        assert IsBlank(s[i + 1]);
      }
      assert forall i :: 1 <= i < |s| ==> s[i] == s[1..][i - 1];
    }
  }

  predicate HasBlank(t: string) {
    exists i :: 0 <= i < |t| && IsBlank(t[i])
  }

  lemma FieldsDropBlanks(t: string)
    ensures |Flat(Fields(t))| + Blanks(t) == |t| && "" !in Fields(t)
  {
    CollectKeeps(START, t);
    FlatFlushed(Collect(START, t));
  }

  lemma OneFieldIffNoBlank(t: string)
    requires t != ""
    ensures |Flat(Fields(t))| <= |t| && "" !in Fields(t)
    ensures Fields(t) == [t] <==> !HasBlank(t)
  {
    FieldsDropBlanks(t);
    BlanksCounted(t);
    FlatOne(t);
    if !HasBlank(t) { OneField(t); }
  }

  /** A printed segment reads back as its own tokens, the first as the program
      and the others as arguments, if and only if no token holds a blank. */
  lemma JobsMeanTheirTokens(segment: seq<string>)
    requires NoneEmpty(segment)
    ensures Fields(Print(segment)) == segment
            <==> forall i :: 0 <= i < |segment| ==> !HasBlank(segment[i])
  {
    var f: string -> seq<string> := s => Fields(s);
    FieldsOfPrint(segment);
    forall i | 0 <= i < |segment|
      ensures |Flat(f(segment[i]))| <= |segment[i]| && "" !in f(segment[i])
      ensures f(segment[i]) == [segment[i]] <==> !HasBlank(segment[i])
    {
      OneFieldIffNoBlank(segment[i]);
    }
    CutsNothing(segment, f);
  }

  // ---------- The jobs of a token list ----------

  /** The segments that become jobs. */
  function JobSegments(tokens: seq<string>): seq<seq<string>> {
    Segments(tokens)[..|Jobs(tokens)|]
  }

  lemma JobsAreTheirSegments(tokens: seq<string>, k: nat)
    requires k < |Jobs(tokens)|
    ensures |Jobs(tokens)| <= |Segments(tokens)| && Jobs(tokens)[k] == Print(Segments(tokens)[k])
  {
  }

  predicate AllBlank(t: string) {
    forall i :: 0 <= i < |t| ==> IsBlank(t[i])
  }

  predicate HasWord(segment: seq<string>) {
    exists i :: 0 <= i < |segment| && !AllBlank(segment[i])
  }

  lemma NoFieldsIffBlank(t: string)
    ensures Fields(t) == [] <==> AllBlank(t)
  {
    FieldsDropBlanks(t);
    PiecesHaveLength(Fields(t));
    BlanksFill(t);
  }

  lemma {:induction false} BlanksFill(s: string)
    ensures Blanks(s) <= |s|
    ensures Blanks(s) == |s| <==> AllBlank(s)
  {
    if s != "" {
      BlanksFill(s[1..]);
      assert AllBlank(s) <==> IsBlank(s[0]) && AllBlank(s[1..]) by {
        assert forall i :: 1 <= i < |s| ==> s[i] == s[1..][i - 1];
        assert forall i :: 0 <= i < |s| - 1 ==> s[1..][i] == s[i + 1];
      }
    }
  }

  lemma {:induction false} FieldsIffHasWord(segment: seq<string>)
    ensures Fields(Print(segment)) != [] <==> HasWord(segment)
  {
    if segment != [] {
      var n := |segment| - 1;
      var init, t := segment[..n], segment[n];
      FieldsIffHasWord(init);
      FieldsBehindPrint(init, t);
      NoFieldsIffBlank(t);
      assert HasWord(segment) <==> HasWord(init) || !AllBlank(t) by {
        if i :| 0 <= i < n && !AllBlank(init[i]) { assert !AllBlank(segment[i]); }
      }
    }
  }

  /** A job can be started if and only if its segment holds a token that is not all
      blank: of any other, strtok finds no field. */
  lemma JobsStartIffTheyHoldAWord(tokens: seq<string>, k: nat)
    requires k < |Jobs(tokens)|
    ensures Fields(Jobs(tokens)[k]) != [] <==> HasWord(Segments(tokens)[k])
  {
    JobsAreTheirSegments(tokens, k);
    FieldsIffHasWord(Segments(tokens)[k]);
  }

  /** No splitter begins the list and no two are neighbours. */
  predicate SplittersApart(tokens: seq<string>) {
    tokens == [] || (
      && SplittersApart(tokens[..|tokens| - 1])
      && (tokens[|tokens| - 1] == SPLITTER ==> !EndsAtSplit(tokens[..|tokens| - 1])))
  }

  ghost predicate Filled(segments: seq<seq<string>>) {
    forall k :: 0 <= k < |segments| ==> segments[k] != []
  }

  lemma FilledNext(segments: seq<seq<string>>, last: seq<string>)
    ensures Filled(segments + [last]) <==> Filled(segments) && last != []
  {
    var all := segments + [last];
    assert all[|segments|] == last;
    assert forall k :: 0 <= k < |segments| ==> all[k] == segments[k];
  }

  lemma LastOfFilled(segments: seq<seq<string>>)
    requires segments != []
    ensures Filled(segments) <==> Filled(segments[..|segments| - 1]) && Last(segments) != []
  {
    assert segments == segments[..|segments| - 1] + [Last(segments)];
    FilledNext(segments[..|segments| - 1], Last(segments));
  }

  lemma {:induction false} SegmentsFilledIffApart(tokens: seq<string>)
    ensures var s := Segments(tokens); Filled(s[..|s| - 1]) <==> SplittersApart(tokens)
  {
    if tokens != [] {
      var init, t := tokens[..|tokens| - 1], tokens[|tokens| - 1];
      assert tokens == init + [t];
      SegmentsFilledIffApart(init);
      SegmentsCount(init);
      LastOfFilled(Segments(init));
      DoneSegmentsNext(init, t);
    }
  }

  /** A splitter finishes the last segment, any other token finishes none. */
  lemma DoneSegmentsNext(tokens: seq<string>, t: string)
    ensures var s, s' := Segments(tokens), Segments(tokens + [t]);
      s'[..|s'| - 1] == if t == SPLITTER then s else s[..|s| - 1]
  {
    SegmentsNext(tokens, t);
  }

  lemma JobSegmentsAre(tokens: seq<string>)
    ensures var s := Segments(tokens);
      && (Last(s) == [] <==> EndsAtSplit(tokens))
      && JobSegments(tokens) == if EndsAtSplit(tokens) then s[..|s| - 1] else s
  {
    SegmentsCount(tokens);
    OneJobPerSplitter(tokens);
  }

  /** No job is empty if and only if no splitter begins the list or follows another. */
  lemma JobsFilledIffApart(tokens: seq<string>)
    ensures Filled(JobSegments(tokens)) <==> SplittersApart(tokens)
  {
    SegmentsFilledIffApart(tokens);
    JobSegmentsAre(tokens);
    LastOfFilled(Segments(tokens));
  }

  ghost predicate NoBlankIn(tokens: seq<string>) {
    forall i :: 0 <= i < |tokens| ==> !HasBlank(tokens[i])
  }

  ghost predicate NoBlankInAny(segments: seq<seq<string>>) {
    forall k :: 0 <= k < |segments| ==> NoBlankIn(segments[k])
  }

  lemma NoBlankInNext(tokens: seq<string>, t: string)
    ensures NoBlankIn(tokens + [t]) <==> NoBlankIn(tokens) && !HasBlank(t)
  {
    var all := tokens + [t];
    assert all[|tokens|] == t;
    assert forall i :: 0 <= i < |tokens| ==> all[i] == tokens[i];
  }

  lemma NoBlankInAnyNext(segments: seq<seq<string>>, last: seq<string>)
    ensures NoBlankInAny(segments + [last]) <==> NoBlankInAny(segments) && NoBlankIn(last)
  {
    var all := segments + [last];
    assert all[|segments|] == last;
    assert forall k :: 0 <= k < |segments| ==> all[k] == segments[k];
  }

  lemma NoBlankInAnyLast(segments: seq<seq<string>>)
    requires segments != []
    ensures NoBlankInAny(segments) <==> NoBlankInAny(segments[..|segments| - 1]) && NoBlankIn(Last(segments))
  {
    assert segments == segments[..|segments| - 1] + [Last(segments)];
    NoBlankInAnyNext(segments[..|segments| - 1], Last(segments));
  }

  lemma SegmentsHoldTheNext(tokens: seq<string>, t: string)
    ensures NoBlankInAny(Segments(tokens + [t])) <==> NoBlankInAny(Segments(tokens)) && !HasBlank(t)
  {
    var s := Segments(tokens);
    SegmentsNext(tokens, t);
    if t == SPLITTER {
      NoBlankInAnyNext(s, []);
    } else {
      NoBlankInAnyLast(s);
      NoBlankInNext(Last(s), t);
      NoBlankInAnyNext(s[..|s| - 1], Last(s) + [t]);
    }
  }

  lemma {:induction false} SegmentsHoldTheTokens(tokens: seq<string>)
    ensures NoBlankInAny(Segments(tokens)) <==> NoBlankIn(tokens)
  {
    if tokens != [] {
      var n := |tokens| - 1;
      SegmentsHoldTheTokens(tokens[..n]);
      NoBlankInNext(tokens[..n], tokens[n]);
      SegmentsHoldTheNext(tokens[..n], tokens[n]);
      assert tokens == tokens[..n] + [tokens[n]];
    }
  }

  lemma {:induction false} SegmentsAreNoneEmpty(tokens: seq<string>)
    requires NoneEmpty(tokens)
    ensures forall k :: 0 <= k < |Segments(tokens)| ==> NoneEmpty(Segments(tokens)[k])
  {
    if tokens != [] { SegmentsAreNoneEmpty(tokens[..|tokens| - 1]); }
  }

  // ---------- What the jobs of an input are read as ----------

  /** Every job string has fields, and they are exactly the tokens of its segment:
      the first becomes the job's name and the others its arguments. */
  ghost predicate ReadsAsItsTokens(tokens: seq<string>) {
    forall k :: 0 <= k < |Jobs(tokens)| ==> Fields(Jobs(tokens)[k]) == Segments(tokens)[k] != []
  }

  lemma JobSegmentsHoldTheTokens(tokens: seq<string>)
    ensures NoBlankInAny(JobSegments(tokens)) <==> NoBlankIn(tokens)
  {
    var s := Segments(tokens);
    SegmentsHoldTheTokens(tokens);
    JobSegmentsAre(tokens);
    NoBlankInAnyLast(s);
  }

  lemma JobReadsIff(tokens: seq<string>, k: nat)
    requires NoneEmpty(tokens) && k < |Jobs(tokens)|
    ensures Fields(Jobs(tokens)[k]) == Segments(tokens)[k] <==> NoBlankIn(Segments(tokens)[k])
  {
    SegmentsAreNoneEmpty(tokens);
    JobsAreTheirSegments(tokens, k);
    JobsMeanTheirTokens(Segments(tokens)[k]);
  }

  lemma TokensReadIff(tokens: seq<string>)
    requires NoneEmpty(tokens)
    ensures ReadsAsItsTokens(tokens) <==> NoBlankIn(tokens) && SplittersApart(tokens)
  {
    JobSegmentsHoldTheTokens(tokens);
    JobsFilledIffApart(tokens);
    var s := JobSegments(tokens);
    forall k | 0 <= k < |Jobs(tokens)|
      ensures s[k] == Segments(tokens)[k]
      ensures Fields(Jobs(tokens)[k]) == s[k] <==> NoBlankIn(s[k])
    {
      JobReadsIff(tokens, k);
    }
  }

  /** For every input, with three delimiters or four: all jobs are read as the
      tokens they were made of if and only if no blank is kept in a token (by
      quotes, or as a newline that does not delimit) and no splitter begins the
      tokens or follows another. */
  lemma JobsReadAsTheirTokensIff(input: string, count: nat)
    ensures var tokens := Lex(input, count);
      ReadsAsItsTokens(tokens) <==> !HasBlank(Kept(input, false, count)) && SplittersApart(tokens)
  {
    TokensAreWhatIsKept(input, count);
    TokensReadIff(Lex(input, count));
    FlatHasBlank(Lex(input, count));
  }

  lemma {:induction false} FlatHasBlank(tokens: seq<string>)
    ensures HasBlank(Flat(tokens)) <==> !NoBlankIn(tokens)
  {
    if tokens != [] {
      FlatHasBlank(tokens[1..]);
      HasBlankInConcat(tokens[0], Flat(tokens[1..]));
      assert forall i :: 1 <= i < |tokens| ==> tokens[i] == tokens[1..][i - 1];
      assert forall i :: 0 <= i < |tokens| - 1 ==> tokens[1..][i] == tokens[i + 1];
    }
  }

  lemma HasBlankInConcat(a: string, b: string)
    ensures HasBlank(a + b) <==> HasBlank(a) || HasBlank(b)
  {
    if HasBlank(a) {
      var i :| 0 <= i < |a| && IsBlank(a[i]);
      assert (a + b)[i] == a[i];
    }
    if HasBlank(b) {
      var i :| 0 <= i < |b| && IsBlank(b[i]);
      assert (a + b)[|a| + i] == b[i];
    }
  }

  lemma {:induction false} UnquotedKeepsNewlines(input: string, count: nat)
    requires '"' !in input
    ensures HasBlank(Kept(input, false, count)) <==> count != 4 && '\n' in input
  {
    if input != "" {
      assert input == [input[0]] + input[1..];
      assert forall c :: c in input[1..] ==> c in input;
      UnquotedKeepsNewlines(input[1..], count);
      HasBlankInConcat([input[0]], Kept(input[1..], false, count));
    }
  }

  /** Of an input without quotes: with newline among the delimiters only the
      place of the splitters matters, and without it also that there is none. */
  lemma UnquotedJobsReadIff(input: string, count: nat)
    requires '"' !in input
    ensures ReadsAsItsTokens(Lex(input, count))
            <==> (count == 4 || '\n' !in input) && SplittersApart(Lex(input, count))
  {
    UnquotedKeepsNewlines(input, count);
    JobsReadAsTheirTokensIff(input, count);
  }

  ghost predicate AllCanStart(tokens: seq<string>) {
    forall k :: 0 <= k < |Jobs(tokens)| ==> Fields(Jobs(tokens)[k]) != []
  }

  /** As long as no token holds a blank, only an empty job cannot be started. */
  lemma AllStartIffApart(tokens: seq<string>)
    requires NoneEmpty(tokens) && NoBlankIn(tokens)
    ensures AllCanStart(tokens) <==> SplittersApart(tokens)
  {
    JobSegmentsHoldTheTokens(tokens);
    JobsFilledIffApart(tokens);
    var s := JobSegments(tokens);
    forall k | 0 <= k < |Jobs(tokens)| ensures s[k] == Segments(tokens)[k] == Fields(Jobs(tokens)[k]) {
      JobReadsIff(tokens, k);
    }
  }

  /** With newline among the delimiters the jobs of an input without quotes can
      all be started if and only if no splitter begins its tokens or follows another. */
  lemma UnquotedJobsCanStartIff(input: string)
    requires '"' !in input
    ensures AllCanStart(Lex(input, 4)) <==> SplittersApart(Lex(input, 4))
  {
    UnquotedKeepsNewlines(input, 4);
    TokensAreWhatIsKept(input, 4);
    FlatHasBlank(Lex(input, 4));
    AllStartIffApart(Lex(input, 4));
  }

  /** A lone "&", whatever counts as a delimiter, is a job that cannot be started. */
  lemma LoneSplitterCannotStart(count: nat)
    ensures Jobs(Lex("&", count)) == [""] && Fields("") == []
  {
    SplitterIsAToken(count);
    var s := Segments([SPLITTER]);
    assert [] + [SPLITTER] == [SPLITTER];
    SegmentsNext([], SPLITTER);
    assert s == [[], []];
    SegmentsCount([SPLITTER]);
    OneJobPerSplitter([SPLITTER]);
    SegmentsCount([]);
    JobsAreTheirSegments([SPLITTER], 0);
    assert Jobs([SPLITTER]) == [Print(s[0])];
  }

  // ---------- Whole lines, as the program reads them ----------

  lemma FieldsBeforeNewline(w: string)
    requires !HasBlank(w)
    ensures Fields(w + "\n") == Tok(w)
  {
    FieldsSplitAtBlank(w, '\n', "");
    assert w + ['\n'] + "" == w + "\n";
    assert Fields("") == [];
    if w != "" { OneField(w); }
  }

  /** The newline that ends the last token of a line adds nothing to its job. */
  lemma LastJobOfLine(init: seq<string>, w: string)
    requires NoneEmpty(init) && NoBlankIn(init) && !HasBlank(w)
    ensures Fields(Print(init + [w + "\n"])) == init + Tok(w)
  {
    PrintNext(init, w + "\n");
    FieldsBehindPrint(init, w + "\n");
    JobsMeanTheirTokens(init);
    FieldsBeforeNewline(w);
  }

  lemma SegmentsOfWords(init: seq<string>, w: string)
    requires w != SPLITTER
    ensures var s := Segments(init); Segments(init + Tok(w)) == s[..|s| - 1] + [Last(s) + Tok(w)]
  {
    var s := Segments(init);
    if w == "" {
      assert init + [] == init && Last(s) + [] == Last(s);
      assert s == s[..|s| - 1] + [Last(s)];
    } else {
      SegmentsNext(init, w);
    }
  }

  /** The jobs of a line are its segments, the last with the newline. */
  lemma SegmentsOfLine(init: seq<string>, w: string)
    requires w != SPLITTER
    ensures var tokens, s := init + [w + "\n"], Segments(init);
      Segments(tokens) == s[..|s| - 1] + [Last(s) + [w + "\n"]] && |Jobs(tokens)| == |s|
  {
    var t := w + "\n";
    assert t[|w|] == '\n' != SPLITTER[0];
    SegmentsNext(init, t);
    OneJobPerSplitter(init + [t]);
    SegmentsCount(init + [t]);
  }

  lemma JobOfLine(init: seq<string>, w: string, k: nat)
    requires NoneEmpty(init) && NoBlankIn(init) && !HasBlank(w) && w != SPLITTER
    ensures var jobs, s := Jobs(init + [w + "\n"]), Segments(init + Tok(w));
      |jobs| == |s| && (k < |s| ==> Fields(jobs[k]) == s[k])
  {
    var s := Segments(init);
    SegmentsOfLine(init, w);
    SegmentsOfWords(init, w);
    if k < |s| {
      JobsAreTheirSegments(init + [w + "\n"], k);
    }
    SegmentsHoldTheTokens(init);
    SegmentsAreNoneEmpty(init);
    if k < |s| - 1 {
      assert NoBlankIn(s[k]);
      JobsMeanTheirTokens(s[k]);
    } else if k == |s| - 1 {
      LastJobOfLine(Last(s), w);
    }
  }

  lemma LineTokens(line: string)
    requires '"' !in line && '\n' !in line
    ensures var r := Run(START, line, 3);
      && NoneEmpty(r.tokens) && NoBlankIn(r.tokens) && !HasBlank(r.buffer) && r.buffer != SPLITTER
      && Lex(line, 3) == r.tokens + Tok(r.buffer) && Lex(line + "\n", 3) == r.tokens + [r.buffer + "\n"]
  {
    var r := Run(START, line, 3);
    UnquotedTokensArePlain(line, 3);
    LexLine(line);
    UnquotedKeepsNewlines(line, 3);
    TokensAreWhatIsKept(line, 3);
    FlatHasBlank(Lex(line, 3));
    RunStaysPlain(START, line, 3);
    assert r.tokens + [] == r.tokens;
    assert Lex(line, 3) == r.tokens + Tok(r.buffer);
    if r.buffer != "" {
      NoBlankInNext(r.tokens, r.buffer);
    }
    assert SPLITTER[0] in SPLITTER && !Ordinary(SPLITTER[0], 3);
  }

  /** A line as the program reads it, newline and all, with the delimiters as they
      are counted: though the newline stays in the last token, each job is
      read as exactly the words of its stretch of the line. */
  lemma LinesReadAsTheirWords(line: string, k: nat)
    requires '"' !in line && '\n' !in line
    ensures var jobs, s := Jobs(Lex(line + "\n", DELIMITER_COUNT)), Segments(Lex(line, DELIMITER_COUNT));
      |jobs| == |s| && (k < |s| ==> Fields(jobs[k]) == s[k])
  {
    LineTokens(line);
    var r := Run(START, line, 3);
    JobOfLine(r.tokens, r.buffer, k);
  }

  /** So all jobs of such a line can be started if and only if it has tokens, begins
      and ends with none that splits, and has no two of these as neighbours. */
  lemma LinesCanStartIff(line: string)
    requires '"' !in line && '\n' !in line
    ensures var words := Lex(line, DELIMITER_COUNT);
      AllCanStart(Lex(line + "\n", DELIMITER_COUNT)) <==> SplittersApart(words) && !EndsAtSplit(words)
  {
    var words, tokens := Lex(line, 3), Lex(line + "\n", 3);
    var s := Segments(words);
    LinesReadAsTheirWords(line, 0);
    forall k: nat | k < |s| ensures Fields(Jobs(tokens)[k]) == s[k] {
      LinesReadAsTheirWords(line, k);
    }
    assert AllCanStart(tokens) <==> Filled(s);
    SegmentsFilledIffApart(words);
    JobSegmentsAre(words);
    LastOfFilled(s);
  }

  /** Lines whose jobs cannot: an empty one, and a word with "&" behind it. */
  lemma EmptyLineCannotStart()
    ensures Lex("\n", DELIMITER_COUNT) == ["\n"] && !AllCanStart(["\n"])
  {
    var line: string := [];
    LexLine(line);
    assert line + "\n" == "\n";
    assert [] + ["\n"] == ["\n"];
    LinesCanStartIff(line);
  }

  lemma LineEndingInSplitterCannotStart(w: string)
    requires w != "" && '\n' !in w && forall c :: c in w ==> Ordinary(c, 3)
    ensures Lex(w + SPLITTER + "\n", DELIMITER_COUNT) == [w, SPLITTER, "\n"] && !AllCanStart([w, SPLITTER, "\n"])
  {
    var line := w + SPLITTER;
    RunWordAndSplitter(w, 3);
    LexLine(line);
    assert "" + "\n" == "\n";
    assert [w, SPLITTER] + ["\n"] == [w, SPLITTER, "\n"];
    LinesCanStartIff(line);
  }

  /** The newline of a line stays in its last token, so that a job is not read as
      its own tokens, though it is as the words of the line. */
  lemma NewlineStaysInTheToken(w: string)
    requires w != "" && '\n' !in w && forall c :: c in w ==> Ordinary(c, 3)
    ensures Lex(w + "\n", DELIMITER_COUNT) == [w + "\n"] && Fields(Print([w + "\n"])) == [w]
  {
    RunOrdinary(START, w, 3);
    assert START.buffer + w == w;
    LexLine(w);
    assert [] + [w + "\n"] == [w + "\n"];
    forall i | 0 <= i < |w| ensures !IsBlank(w[i]) {
      assert w[i] in w;
    }
    LastJobOfLine([], w);
    assert [] + [w] == [w];
  }
}
