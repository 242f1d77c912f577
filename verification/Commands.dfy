/** Splitting a token list into jobs at "&", printing each job as a string, and
    tokenizing the jobs again. */
module Commands {
  import opened Texts
  import opened Tokens
  import opened TokenGrammar

  const SPLITTER := "&"

  // ---------- Splitting and printing ----------

  /** The stretches between splitters, one more than there are splitters. */
  function Segments(tokens: seq<string>): (r: seq<seq<string>>)
    ensures r != []
  {
    if tokens == [] then [[]]
    else
      var r, t := Segments(tokens[..|tokens| - 1]), tokens[|tokens| - 1];
      if t == SPLITTER then r + [[]]
      else r[..|r| - 1] + [r[|r| - 1] + [t]]
  }

  function Last(segments: seq<seq<string>>): seq<string>
    requires segments != []
  {
    segments[|segments| - 1]
  }

  lemma SegmentsNext(tokens: seq<string>, t: string)
    ensures var s := Segments(tokens);
      Segments(tokens + [t]) == if t == SPLITTER then s + [[]] else s[..|s| - 1] + [Last(s) + [t]]
  {
    assert (tokens + [t])[..|tokens|] == tokens;
  }

  function Print(segment: seq<string>): string {
    if segment == [] then ""
    else Print(segment[..|segment| - 1]) + segment[|segment| - 1] + " "
  }

  lemma PrintNext(segment: seq<string>, t: string)
    ensures Print(segment + [t]) == Print(segment) + t + " "
  {
    assert (segment + [t])[..|segment|] == segment;
  }

  function Printed(segments: seq<seq<string>>): (r: seq<string>)
    ensures |r| == |segments|
    ensures forall i :: 0 <= i < |r| ==> r[i] == Print(segments[i])
  {
    seq(|segments|, i requires 0 <= i < |segments| => Print(segments[i]))
  }

  lemma PrintedNext(segments: seq<seq<string>>, last: seq<string>)
    ensures Printed(segments + [last]) == Printed(segments) + [Print(last)]
  {
    assert forall i :: 0 <= i < |segments| ==> (segments + [last])[i] == segments[i];
  }

  /** The jobs: all segments, but the last one only if it is not empty. */
  function Jobs(tokens: seq<string>): seq<string> {
    var s := Segments(tokens);
    Printed(if Print(Last(s)) == "" then s[..|s| - 1] else s)
  }

  /** The finished jobs and the pending text after part of a token list. */
  ghost predicate Doing(tokens: seq<string>, jobs: seq<string>, ss: string) {
    var s := Segments(tokens);
    jobs == Printed(s[..|s| - 1]) && ss == Print(Last(s))
  }

  lemma DoOne(tokens: seq<string>, jobs: seq<string>, ss: string, t: string)
    requires Doing(tokens, jobs, ss)
    ensures t == SPLITTER ==> Doing(tokens + [t], jobs + [ss], "")
    ensures t != SPLITTER ==> Doing(tokens + [t], jobs, ss + t + " ")
  {
    var s := Segments(tokens);
    var done, last := s[..|s| - 1], Last(s);
    SegmentsNext(tokens, t);
    assert s == done + [last];
    if t == SPLITTER {
      PrintedNext(done, last);
      DoneAndLast(s, []);
    } else {
      PrintNext(last, t);
      DoneAndLast(done, last + [t]);
    }
  }

  lemma DoneAndLast(done: seq<seq<string>>, last: seq<string>)
    ensures (done + [last])[..|done + [last]| - 1] == done && Last(done + [last]) == last
  {
  }

  lemma AllDone(tokens: seq<string>, jobs: seq<string>, ss: string)
    requires Doing(tokens, jobs, ss)
    ensures Jobs(tokens) == if ss == "" then jobs else jobs + [ss]
  {
  }

  /** One token: a splitter ends the pending job, any other is added to it. */
  method TakeToken(t: string, jobs: seq<string>, ss: string, ghost before: seq<string>)
    returns (jobs': seq<string>, ss': string)
    requires Doing(before, jobs, ss)
    ensures Doing(before + [t], jobs', ss')
  {
    DoOne(before, jobs, ss, t);
    if |t| == 1 && t[0] == '&' {
      assert t == SPLITTER;
      return jobs + [ss], "";
    } else {
      return jobs, ss + t + " ";
    }
  }

  method HandleCommand(tokens: seq<string>) returns (jobs: seq<string>)
    ensures jobs == Jobs(tokens)
  {
    var ss := "";
    jobs := [];
    for i := 0 to |tokens|
      invariant Doing(tokens[..i], jobs, ss)
    {
      assert tokens[..i + 1] == tokens[..i] + [tokens[i]];
      jobs, ss := TakeToken(tokens[i], jobs, ss, tokens[..i]);
    }
    assert tokens[..|tokens|] == tokens;
    AllDone(tokens, jobs, ss);
    if |ss| > 0 {
      jobs := jobs + [ss];
    }
  }

  function Splitters(tokens: seq<string>): nat {
    if tokens == [] then 0
    else Splitters(tokens[..|tokens| - 1]) + if tokens[|tokens| - 1] == SPLITTER then 1 else 0
  }

  /** The list ends where a new job would begin. */
  predicate EndsAtSplit(tokens: seq<string>) {
    tokens == [] || tokens[|tokens| - 1] == SPLITTER
  }

  lemma {:induction false} SegmentsCount(tokens: seq<string>)
    ensures |Segments(tokens)| == Splitters(tokens) + 1
    ensures Last(Segments(tokens)) == [] <==> EndsAtSplit(tokens)
  {
    if tokens != [] {
      SegmentsCount(tokens[..|tokens| - 1]);
    }
  }

  lemma PrintIsEmpty(segment: seq<string>)
    ensures Print(segment) == "" <==> segment == []
  {
    if segment != [] {
      assert |Print(segment)| >= 1;
    }
  }

  /** One job per splitter, and one more if anything follows the last one. */
  lemma OneJobPerSplitter(tokens: seq<string>)
    ensures |Jobs(tokens)| == Splitters(tokens) + if EndsAtSplit(tokens) then 0 else 1
  {
    SegmentsCount(tokens);
    PrintIsEmpty(Last(Segments(tokens)));
  }

  // ---------- The jobs said of tokens ----------

  /** The tokens one after the other, each with a space behind it. */
  function Spaced(tokens: seq<string>): (r: seq<string>)
    ensures |r| == |tokens| && forall i :: 0 <= i < |r| ==> r[i] == tokens[i] + " "
  {
    seq(|tokens|, i requires 0 <= i < |tokens| => tokens[i] + " ")
  }

  lemma {:induction false} PrintIsSpaced(segment: seq<string>)
    ensures Print(segment) == Flat(Spaced(segment))
  {
    if segment != [] {
      var n := |segment| - 1;
      PrintIsSpaced(segment[..n]);
      assert Spaced(segment) == Spaced(segment[..n]) + [segment[n] + " "];
      FlatAppend(Spaced(segment[..n]), [segment[n] + " "]);
      FlatOne(segment[n] + " ");
    }
  }

  lemma {:induction false} OneSegment(tokens: seq<string>)
    requires "&" !in tokens
    ensures Segments(tokens) == [tokens]
  {
    if tokens != [] {
      var n := |tokens| - 1;
      assert tokens[n] in tokens && forall t :: t in tokens[..n] ==> t in tokens;
      OneSegment(tokens[..n]);
      assert tokens == tokens[..n] + [tokens[n]];
      SegmentsNext(tokens[..n], tokens[n]);
      assert [tokens[..n]][..0] == [];
    }
  }

  lemma {:induction false} SegmentsBehindSplitter(a: seq<string>, b: seq<string>)
    requires "&" !in a
    ensures Segments(a + ["&"] + b) == [a] + Segments(b)
  {
    if b == [] {
      assert a + ["&"] + b == a + ["&"];
      OneSegment(a);
      SegmentsNext(a, "&");
    } else {
      var n := |b| - 1;
      var before := a + ["&"] + b[..n];
      assert a + ["&"] + b == before + [b[n]] && b == b[..n] + [b[n]];
      SegmentsBehindSplitter(a, b[..n]);
      SegmentsNext(before, b[n]);
      SegmentsNext(b[..n], b[n]);
      BehindOne(a, Segments(b[..n]), Last(Segments(b[..n])) + [b[n]]);
    }
  }

  lemma BehindOne(a: seq<string>, s: seq<seq<string>>, last: seq<string>)
    requires s != []
    ensures Last([a] + s) == Last(s)
    ensures ([a] + s)[..|s|] + [last] == [a] + (s[..|s| - 1] + [last])
    ensures [a] + s + [[]] == [a] + (s + [[]])
  {
  }

  lemma PrintedBehind(a: seq<string>, s: seq<seq<string>>)
    ensures Printed([a] + s) == [Print(a)] + Printed(s)
  {
  }

  /** What stands before a "&" is one job, its tokens each with a space behind it,
      and the jobs of what stands behind it follow; without a "&" there is one job,
      if there are tokens at all. */
  lemma JobsByTokens(a: seq<string>, b: seq<string>)
    requires "&" !in a
    ensures Jobs(a) == if a == [] then [] else [Flat(Spaced(a))]
    ensures Jobs(a + ["&"] + b) == [Flat(Spaced(a))] + Jobs(b)
  {
    PrintIsSpaced(a);
    PrintIsEmpty(a);
    OneSegment(a);
    PrintedNext([], a);
    assert [] + [a] == [a] && [] + [Print(a)] == [Print(a)];
    SegmentsBehindSplitter(a, b);
    JobsBehind(a, a + ["&"] + b, b);
  }

  lemma JobsBehind(a: seq<string>, tokens: seq<string>, b: seq<string>)
    requires Segments(tokens) == [a] + Segments(b)
    ensures Jobs(tokens) == [Print(a)] + Jobs(b)
  {
    var s := Segments(b);
    assert Last([a] + s) == Last(s);
    assert ([a] + s)[..|s|] == [a] + s[..|s| - 1];
    PrintedBehind(a, s);
    PrintedBehind(a, s[..|s| - 1]);
  }

  // ---------- Reading the jobs back ----------

  /** The token list a list of job strings stands for: each job tokenized again,
      with a splitter between any two. */
  function Reread(jobs: seq<string>, count: nat): seq<string> {
    if jobs == [] then []
    else if |jobs| == 1 then Lex(jobs[0], count)
    else Reread(jobs[..|jobs| - 1], count) + [SPLITTER] + Lex(jobs[|jobs| - 1], count)
  }

  /** All segments printed: the jobs, and the empty job that a list ending at a
      split drops.  Only the proofs speak of it. */
  function AllJobs(tokens: seq<string>): (r: seq<string>)
    ensures r != []
  {
    Printed(Segments(tokens))
  }

  lemma AllJobsAreTheJobs(tokens: seq<string>)
    ensures AllJobs(tokens) == Jobs(tokens) + if EndsAtSplit(tokens) then [""] else []
  {
    SegmentsCount(tokens);
    PrintIsEmpty(Last(Segments(tokens)));
  }

  ghost predicate NoQuotes(ts: seq<string>) {
    forall i :: 0 <= i < |ts| ==> '"' !in ts[i]
  }

  function Cut(count: nat): string -> seq<string> {
    t => Lex(t, count)
  }

  lemma {:induction false} NoQuoteNoString(s: string, count: nat)
    requires '"' !in s
    ensures !EndsInString(s, count)
  {
    if s != "" {
      var n := |s| - 1;
      assert s == s[..n] + [s[n]] && s[n] in s;
      RunAppend(START, s[..n], [s[n]], count);
      RunOne(Run(START, s[..n], count), s[n], count);
      NoQuoteNoString(s[..n], count);
    }
  }

  lemma {:induction false} PrintHasNoQuotes(segment: seq<string>)
    requires NoQuotes(segment)
    ensures '"' !in Print(segment)
  {
    if segment != [] {
      PrintHasNoQuotes(segment[..|segment| - 1]);
    }
  }

  lemma FlatMapOne(t: string, f: string -> seq<string>)
    ensures FlatMap([t], f) == f(t)
  {
    assert [t][1..] == [];
    assert f(t) + [] == f(t);
  }

  lemma LexBehindPrint(init: seq<string>, t: string, count: nat)
    requires NoQuotes(init) && '"' !in t
    ensures Lex(Print(init) + t + " ", count) == Lex(Print(init), count) + Lex(t, count)
  {
    NoQuoteNoString(t, count);
    SpaceSeparatesIffOutsideString(t, count);
    assert t + " " + "" == t + " ";
    assert Lex("", count) == [];
    assert Lex(t + " ", count) == Lex(t, count) + [];
    if init == [] {
      assert "" + t + " " == t + " ";
      assert [] + Lex(t, count) == Lex(t, count);
    } else {
      var n := |init| - 1;
      var p := Print(init[..n]) + init[n];
      PrintHasNoQuotes(init[..n]);
      NoQuoteNoString(p, count);
      SpaceSeparatesIffOutsideString(p, count);
      assert Print(init) == p + " ";
      assert p + " " + (t + " ") == Print(init) + t + " ";
      assert p + " " + "" == Print(init);
      assert Lex(Print(init), count) == Lex(p, count) + Lex("", count);
    }
  }

  lemma SplitterIsAToken(count: nat)
    ensures Lex(SPLITTER, count) == [SPLITTER]
  {
    RunOne(START, '&', count);
  }

  /** Re-tokenizing all jobs tokenizes every token of the list. */
  lemma {:induction false} RereadIsTokenwise(tokens: seq<string>, count: nat)
    requires NoQuotes(tokens)
    ensures Reread(AllJobs(tokens), count) == FlatMap(tokens, Cut(count))
  {
    if tokens == [] {
      assert AllJobs([]) == [""];
      assert Lex("", count) == [];
    } else {
      var n := |tokens| - 1;
      var init, t := tokens[..n], tokens[n];
      RereadIsTokenwise(init, count);
      assert tokens == init + [t];
      FlatMapAppend(init, [t], Cut(count));
      FlatMapOne(t, Cut(count));
      if t == SPLITTER {
        RereadSplitter(init, count);
      } else {
        RereadToken(init, t, count);
      }
    }
  }

  lemma RereadNext(jobs: seq<string>, job: string, count: nat)
    ensures Reread(jobs + [job], count)
         == (if jobs == [] then [] else Reread(jobs, count) + [SPLITTER]) + Lex(job, count)
  {
    assert (jobs + [job])[..|jobs|] == jobs;
    assert jobs == [] ==> [] + Lex(job, count) == Lex(job, count);
  }

  lemma RereadSplitter(init: seq<string>, count: nat)
    ensures Reread(AllJobs(init + [SPLITTER]), count) == Reread(AllJobs(init), count) + Lex(SPLITTER, count)
  {
    SegmentsNext(init, SPLITTER);
    assert AllJobs(init + [SPLITTER]) == AllJobs(init) + [""];
    RereadNext(AllJobs(init), "", count);
    SplitterIsAToken(count);
    assert Lex("", count) == [];
  }

  lemma AllJobsNext(init: seq<string>, t: string)
    requires t != SPLITTER
    ensures var s := Segments(init);
      && AllJobs(init) == Printed(s[..|s| - 1]) + [Print(Last(s))]
      && AllJobs(init + [t]) == Printed(s[..|s| - 1]) + [Print(Last(s)) + t + " "]
  {
    var s := Segments(init);
    var done, last := s[..|s| - 1], Last(s);
    assert s == done + [last];
    PrintedNext(done, last);
    SegmentsNext(init, t);
    PrintNext(last, t);
    PrintedNext(done, last + [t]);
  }

  lemma RereadToken(init: seq<string>, t: string, count: nat)
    requires NoQuotes(init) && '"' !in t && t != SPLITTER
    ensures Reread(AllJobs(init + [t]), count) == Reread(AllJobs(init), count) + Lex(t, count)
  {
    var s := Segments(init);
    var done, last := Printed(s[..|s| - 1]), Last(s);
    SegmentsHaveNoQuotes(init);
    LexBehindPrint(last, t, count);
    AllJobsNext(init, t);
    RereadNext(done, Print(last), count);
    RereadNext(done, Print(last) + t + " ", count);
    ConcatAssociates(
      if done == [] then [] else Reread(done, count) + [SPLITTER], Lex(Print(last), count), Lex(t, count));
  }

  lemma ConcatAssociates(a: seq<string>, b: seq<string>, c: seq<string>)
    ensures a + (b + c) == a + b + c
  {
  }

  lemma {:induction false} SegmentsHaveNoQuotes(tokens: seq<string>)
    requires NoQuotes(tokens)
    ensures forall i :: 0 <= i < |Segments(tokens)| ==> NoQuotes(Segments(tokens)[i])
  {
    if tokens != [] {
      SegmentsHaveNoQuotes(tokens[..|tokens| - 1]);
    }
  }

  // ---------- When nothing is lost ----------

  /** A token that stands for itself: an operator, or text free of delimiters,
      quotes and dollars. */
  ghost predicate Plain(t: string, count: nat) {
    || (|t| == 1 && IsDelimiter(t[0], count) && !IsBlank(t[0]))
    || (t != "" && forall c :: c in t ==> Ordinary(c, count))
  }

  predicate Ordinary(c: char, count: nat) {
    !IsDelimiter(c, count) && c != '"' && c != '$'
  }

  lemma {:induction false} RunOrdinary(st: State, s: string, count: nat)
    requires !st.inString && forall c :: c in s ==> Ordinary(c, count)
    ensures Run(st, s, count) == st.(buffer := st.buffer + s)
    decreases |s|
  {
    if s == "" {
      assert st.buffer + s == st.buffer;
    } else {
      assert s[0] in s && forall c :: c in s[1..] ==> c in s;
      RunOrdinary(Step(st, s[0], count), s[1..], count);
      assert st.buffer + [s[0]] + s[1..] == st.buffer + s;
    }
  }

  lemma KeptOne(a: string, c: char, b: string, count: nat)
    requires '"' !in a && c != '"' && '"' !in b
    ensures |Kept(a + [c] + b, false, count)| <= |a| + |b| + |Kept([c], false, count)|
  {
    KeptShrinks(b, count);
    assert [c][1..] == "";
    assert ([c] + b)[1..] == b;
    KeptPrefix(a, [c] + b, count);
    assert a + [c] + b == a + ([c] + b);
  }

  lemma {:induction false} KeptShrinks(s: string, count: nat)
    requires '"' !in s
    ensures |Kept(s, false, count)| <= |s|
  {
    if s != "" {
      assert s[0] in s && forall c :: c in s[1..] ==> c in s;
      KeptShrinks(s[1..], count);
    }
  }

  lemma {:induction false} KeptPrefix(a: string, b: string, count: nat)
    requires '"' !in a
    ensures |Kept(a + b, false, count)| <= |a| + |Kept(b, false, count)|
  {
    if a == "" {
      assert a + b == b;
    } else {
      assert a[0] in a && forall c :: c in a[1..] ==> c in a;
      assert (a + b)[1..] == a[1..] + b;
      KeptPrefix(a[1..], b, count);
    }
  }

  lemma OrdinaryIsOneToken(t: string, count: nat)
    requires t != "" && forall c :: c in t ==> Ordinary(c, count)
    ensures Lex(t, count) == [t]
  {
    RunOrdinary(START, t, count);
    assert START.buffer + t == t;
    assert [] + [t] == [t];
  }

  /** A dollar or blank is dropped, so that the tokens are shorter. */
  lemma DroppedInside(a: string, c: char, b: string, count: nat)
    requires '"' !in a && '"' !in b && c != '"' && !Ordinary(c, count) && !(IsDelimiter(c, count) && !IsBlank(c))
    ensures Lex(a + [c] + b, count) != [a + [c] + b]
  {
    TokensAreWhatIsKept(a + [c] + b, count);
    KeptOne(a, c, b, count);
    FlatOne(a + [c] + b);
    assert [c][1..] == "";
  }

  /** A token re-tokenizes to itself if and only if it is plain. */
  lemma PlainIffItsOwnToken(t: string, count: nat)
    requires t != "" && '"' !in t
    ensures Lex(t, count) == [t] <==> Plain(t, count)
  {
    if forall c :: c in t ==> Ordinary(c, count) {
      OrdinaryIsOneToken(t, count);
    } else {
      var i :| 0 <= i < |t| && !Ordinary(t[i], count);
      var a, c, b := t[..i], t[i], t[i + 1..];
      assert t == a + [c] + b && c in t;
      assert '"' !in a && '"' !in b;
      if IsDelimiter(c, count) && !IsBlank(c) {
        OperatorInside(a, c, b, count);
        assert |t| == 1 ==> t[0] == c;
      } else {
        DroppedInside(a, c, b, count);
        assert |t| == 1 ==> t[0] == c;
      }
    }
  }

  lemma OperatorInside(a: string, c: char, b: string, count: nat)
    requires '"' !in a && '"' !in b && IsDelimiter(c, count) && !IsBlank(c)
    ensures Lex(a + [c] + b, count) == [a + [c] + b] <==> |a + [c] + b| == 1
  {
    NoQuoteNoString(a, count);
    DelimiterSeparates(a, c, b, count);
    if |a + [c] + b| == 1 {
      assert a + [c] + b == [c] && a == "" && b == "";
      assert Lex("", count) == [];
    } else if |Lex(a + [c] + b, count)| == 1 {
      assert (Lex(a, count) + [[c]] + Lex(b, count))[|Lex(a, count)|] == [c];
    }
  }

  lemma LexCuts(ts: seq<string>, count: nat)
    requires NoneEmpty(ts) && NoQuotes(ts)
    ensures Cuts(ts, Cut(count))
  {
    forall i | 0 <= i < |ts|
      ensures |Flat(Cut(count)(ts[i]))| <= |ts[i]| && "" !in Cut(count)(ts[i])
    {
      TokensAreWhatIsKept(ts[i], count);
      KeptShrinks(ts[i], count);
    }
  }

  /** Were the empty last job kept, nothing would be lost of plain tokens. */
  lemma AllJobsLoseNothingIffPlain(tokens: seq<string>, count: nat)
    requires NoneEmpty(tokens) && NoQuotes(tokens)
    ensures Reread(AllJobs(tokens), count) == tokens <==> AllPlain(tokens, count)
  {
    RereadIsTokenwise(tokens, count);
    LexCuts(tokens, count);
    CutsNothing(tokens, Cut(count));
    forall i | 0 <= i < |tokens|
      ensures Cut(count)(tokens[i]) == [tokens[i]] <==> Plain(tokens[i], count)
    {
      PlainIffItsOwnToken(tokens[i], count);
    }
  }

  ghost predicate AllPlain(tokens: seq<string>, count: nat) {
    forall i :: 0 <= i < |tokens| ==> Plain(tokens[i], count)
  }

  predicate EndsWithSplitter(tokens: seq<string>) {
    tokens != [] && tokens[|tokens| - 1] == SPLITTER
  }

  /** The jobs of a list that ends with a splitter stand for fewer characters. */
  lemma FinalSplitterIsLost(tokens: seq<string>, count: nat)
    requires NoneEmpty(tokens) && NoQuotes(tokens) && EndsWithSplitter(tokens)
    ensures |Flat(Reread(Jobs(tokens), count))| < |Flat(tokens)|
  {
    var jobs := Jobs(tokens);
    OneJobPerSplitter(tokens);
    AllJobsAreTheJobs(tokens);
    assert Lex("", count) == [];
    RereadNext(jobs, "", count);
    assert Reread(AllJobs(tokens), count) == Reread(jobs, count) + [SPLITTER];
    FlatAppend(Reread(jobs, count), [SPLITTER]);
    FlatOne(SPLITTER);
    RereadIsTokenwise(tokens, count);
    LexCuts(tokens, count);
    CutsAddNothing(tokens, Cut(count));
  }

  /** Printing tokens into jobs and tokenizing the jobs again gives back the
      tokens if and only if every token is plain and no splitter ends the list. */
  lemma NothingLostIffPlain(tokens: seq<string>, count: nat)
    requires NoneEmpty(tokens) && NoQuotes(tokens)
    ensures Reread(Jobs(tokens), count) == tokens <==> !EndsWithSplitter(tokens) && AllPlain(tokens, count)
  {
    if EndsWithSplitter(tokens) {
      FinalSplitterIsLost(tokens, count);
    } else if tokens == [] {
      OneJobPerSplitter([]);
    } else {
      AllJobsAreTheJobs(tokens);
      assert AllJobs(tokens) == Jobs(tokens);
      AllJobsLoseNothingIffPlain(tokens, count);
    }
  }

  // ---------- Starting from an input ----------

  lemma {:induction false} RunHasNoQuotes(st: State, input: string, count: nat)
    requires NoQuotes(st.tokens) && '"' !in st.buffer
    ensures NoQuotes(Run(st, input, count).tokens) && '"' !in Run(st, input, count).buffer
    decreases |input|
  {
    if input != "" { RunHasNoQuotes(Step(st, input[0], count), input[1..], count); }
  }

  lemma TokensHaveNoQuotes(input: string, count: nat)
    ensures NoneEmpty(Lex(input, count)) && NoQuotes(Lex(input, count))
  {
    RunHasNoQuotes(START, input, count);
    TokensAreWhatIsKept(input, count);
  }

  /** For every input: splitting it into jobs and reading the jobs back gives its
      tokens if and only if they are plain and no splitter ends them. */
  lemma CommandsReadBack(input: string, count: nat)
    ensures var tokens := Lex(input, count);
      Reread(Jobs(tokens), count) == tokens <==> !EndsWithSplitter(tokens) && AllPlain(tokens, count)
  {
    TokensHaveNoQuotes(input, count);
    NothingLostIffPlain(Lex(input, count), count);
  }

  ghost predicate PlainSoFar(st: State, count: nat) {
    && !st.inString
    && (forall i :: 0 <= i < |st.tokens| ==> Plain(st.tokens[i], count))
    && forall c :: c in st.buffer ==> Ordinary(c, count)
  }

  lemma {:induction false} RunStaysPlain(st: State, input: string, count: nat)
    requires PlainSoFar(st, count) && '"' !in input
    ensures PlainSoFar(Run(st, input, count), count)
    decreases |input|
  {
    if input != "" {
      assert input[0] in input && forall c :: c in input[1..] ==> c in input;
      RunStaysPlain(Step(st, input[0], count), input[1..], count);
    }
  }

  lemma UnquotedTokensArePlain(input: string, count: nat)
    requires '"' !in input
    ensures !EndsInString(input, count) && AllPlain(Lex(input, count), count)
  {
    RunStaysPlain(START, input, count);
  }

  /** Of an input without quotes only a final splitter can be lost. */
  lemma UnquotedCommandsReadBack(input: string, count: nat)
    requires '"' !in input
    ensures var tokens := Lex(input, count);
      Reread(Jobs(tokens), count) == tokens <==> !EndsWithSplitter(tokens)
  {
    UnquotedTokensArePlain(input, count);
    CommandsReadBack(input, count);
  }

  lemma JobsOfOneWord(w: string)
    requires w != SPLITTER
    ensures Jobs([w]) == Jobs([w, SPLITTER]) == [w + " "]
  {
    assert [] + [w] == [w] && [w] + [SPLITTER] == [w, SPLITTER];
    SegmentsNext([], w);
    SegmentsNext([w], SPLITTER);
    PrintNext([], w);
    assert "" + w + " " == w + " ";
    assert Segments([w]) == [[w]];
    assert Segments([w, SPLITTER]) == [[w]] + [[]];
    assert ([[w]] + [[]])[..1] == [[w]];
    PrintedNext([], [w]);
    assert [] + [[w]] == [[w]] && [] + [w + " "] == [w + " "];
  }

  lemma RunWordAndSplitter(w: string, count: nat)
    requires w != "" && forall c :: c in w ==> Ordinary(c, count)
    ensures Run(START, w, count) == State(false, w, [])
    ensures Run(START, w + SPLITTER, count) == State(false, "", [w, SPLITTER])
  {
    RunOrdinary(START, w, count);
    assert START.buffer + w == w;
    RunAppend(START, w, SPLITTER, count);
    RunOne(State(false, w, []), '&', count);
    assert [] + [w] == [w];
    assert [w] + [SPLITTER] == [w, SPLITTER];
  }

  /** The jobs of a word followed by the splitter are those of the word: what is
      typed as a& leaves no trace of its splitter. */
  lemma FinalSplitterLeavesNoTrace(w: string, count: nat)
    requires w != "" && forall c :: c in w ==> Ordinary(c, count)
    ensures Lex(w + SPLITTER, count) == [w, SPLITTER] && Lex(w, count) == [w]
    ensures Jobs([w, SPLITTER]) == Jobs([w]) == [w + " "]
  {
    RunWordAndSplitter(w, count);
    assert [] + [w] == [w];
    JobsOfOneWord(w);
  }

  /** With three delimiters the newline that ends a line ends its last token. */
  lemma LexLine(line: string)
    requires !EndsInString(line, 3)
    ensures var r := Run(START, line, 3); Lex(line + "\n", 3) == r.tokens + [r.buffer + "\n"]
  {
    RunAppend(START, line, "\n", 3);
    RunOne(Run(START, line, 3), '\n', 3);
  }

  /** So the jobs of a whole line without quotes always read back. */
  lemma LinesReadBack(line: string)
    requires '"' !in line
    ensures var tokens := Lex(line + "\n", DELIMITER_COUNT); Reread(Jobs(tokens), DELIMITER_COUNT) == tokens
  {
    UnquotedTokensArePlain(line, 3);
    LexLine(line);
    var buffer := Run(START, line, 3).buffer;
    assert (buffer + "\n")[|buffer|] == '\n' != SPLITTER[0];
    UnquotedCommandsReadBack(line + "\n", 3);
  }
}
