/**
 What dshell starts.  A job keeps its arguments, but only its name is handed to
 popen, so that the other words of a command are lost.
 */
module JobStarts {
  import opened Texts
  import opened Tokens
  import opened TokenGrammar
  import opened Commands
  import opened JobStrings

  /** The commands handed to popen for a list of jobs, until one has no field to
      make a job of.  Each popen is taken to work. */
  method StartJobs(jobs: seq<string>) returns (started: seq<string>, crashed: bool)
    ensures |started| <= |jobs|
    ensures forall k :: 0 <= k < |started| ==> Fields(jobs[k]) != [] && started[k] == Fields(jobs[k])[0]
    ensures if crashed then |started| < |jobs| && Fields(jobs[|started|]) == [] else |started| == |jobs|
  {
    started := [];
    for i := 0 to |jobs|
      invariant |started| == i
      invariant forall k :: 0 <= k < i ==> Fields(jobs[k]) != [] && started[k] == Fields(jobs[k])[0]
    {
      var job := Job.JobFromString(jobs[i]);
      if job == null {
        return started, true;
      }
      var command := job.StartProcess();
      assert Fields(jobs[i])[0] == command;
      started := started + [command];
    }
    crashed := false;
  }

  /** The program's loop body on one input. */
  method RunInput(input: string, count: nat) returns (started: seq<string>, crashed: bool)
    requires Count(count)
    ensures var jobs := Jobs(Lex(input, count));
      |started| <= |jobs| && forall k :: 0 <= k < |started| ==>
        Fields(jobs[k]) != [] && started[k] == Fields(jobs[k])[0]
    ensures crashed <==> !AllCanStart(Lex(input, count))
    ensures !crashed ==> |started| == |Jobs(Lex(input, count))|
  {
    var tokens := Tokenize(input, count);
    var jobs := HandleCommand(tokens);
    started, crashed := StartJobs(jobs);
  }

  /** Every job can be started, and what is started is its segment, all of it. */
  ghost predicate StartAs(jobs: seq<string>, segments: seq<seq<string>>) {
    && |jobs| == |segments|
    && forall k :: 0 <= k < |jobs| ==> Fields(jobs[k]) != [] && [Fields(jobs[k])[0]] == segments[k]
  }

  ghost predicate StartsItsTokens(tokens: seq<string>) {
    StartAs(Jobs(tokens), JobSegments(tokens))
  }

  predicate AsOneWord(segment: seq<string>) {
    |segment| == 1 && !HasBlank(segment[0])
  }

  lemma FirstFieldIsAll(t: string)
    requires t != ""
    ensures Fields(t) != [] && Fields(t)[0] == t <==> !HasBlank(t)
  {
    FieldsDropBlanks(t);
    BlanksCounted(t);
    FirstIsShorter(Fields(t));
    if !HasBlank(t) { OneField(t); }
  }

  lemma FirstIsShorter(ts: seq<string>)
    ensures ts != [] ==> |ts[0]| <= |Flat(ts)|
  {
  }

  lemma SegmentStartsIff(segment: seq<string>)
    requires NoneEmpty(segment)
    ensures Fields(Print(segment)) != [] && [Fields(Print(segment))[0]] == segment
            <==> |segment| == 1 && !HasBlank(segment[0])
  {
    if |segment| == 1 {
      var t := segment[0];
      assert segment == [] + [t];
      PrintNext([], t);
      assert "" + t + " " == t + " ";
      FieldsBeforeSpace(t);
      FirstFieldIsAll(t);
    }
  }

  ghost predicate Singles(segments: seq<seq<string>>) {
    forall k :: 0 <= k < |segments| ==> |segments[k]| == 1
  }

  lemma SinglesNext(segments: seq<seq<string>>, last: seq<string>)
    ensures Singles(segments + [last]) <==> Singles(segments) && |last| == 1
  {
    var all := segments + [last];
    assert all[|segments|] == last;
    assert forall k :: 0 <= k < |segments| ==> all[k] == segments[k];
  }

  /** Every second token splits, and no other. */
  predicate Alternates(tokens: seq<string>) {
    forall i :: 0 <= i < |tokens| ==> (tokens[i] == SPLITTER <==> i % 2 == 1)
  }

  lemma AlternatesNext(tokens: seq<string>, t: string)
    ensures Alternates(tokens + [t]) <==> Alternates(tokens) && (t == SPLITTER <==> |tokens| % 2 == 1)
  {
    var all := tokens + [t];
    assert all[|tokens|] == t;
    assert forall i :: 0 <= i < |tokens| ==> all[i] == tokens[i];
  }

  /** All finished segments are single tokens, and the last is one or is empty. */
  ghost predicate SinglesSoFar(segments: seq<seq<string>>)
    requires segments != []
  {
    Singles(segments[..|segments| - 1]) && |Last(segments)| <= 1
  }

  lemma {:induction false} SinglesIffAlternates(tokens: seq<string>)
    ensures SinglesSoFar(Segments(tokens)) <==> Alternates(tokens)
    ensures Alternates(tokens) ==> |Last(Segments(tokens))| == |tokens| % 2
  {
    if tokens != [] {
      var init, t := tokens[..|tokens| - 1], tokens[|tokens| - 1];
      assert tokens == init + [t];
      SinglesIffAlternates(init);
      AlternatesNext(init, t);
      SinglesStep(init, t);
    }
  }

  lemma SinglesSoFarIs(done: seq<seq<string>>, last: seq<string>)
    ensures SinglesSoFar(done + [last]) <==> Singles(done) && |last| <= 1
  {
    assert (done + [last])[..|done|] == done;
  }

  lemma SinglesStep(tokens: seq<string>, t: string)
    ensures var s, s' := Segments(tokens), Segments(tokens + [t]);
      && |Last(s')| == (if t == SPLITTER then 0 else |Last(s)| + 1)
      && (SinglesSoFar(s') <==> SinglesSoFar(s) && (t == SPLITTER <==> |Last(s)| == 1))
  {
    var s := Segments(tokens);
    var done, last := s[..|s| - 1], Last(s);
    assert s == done + [last];
    SegmentsNext(tokens, t);
    SinglesSoFarIs(done, last);
    if t == SPLITTER {
      SinglesNext(done, last);
      SinglesSoFarIs(s, []);
    } else {
      SinglesSoFarIs(done, last + [t]);
    }
  }

  lemma JobsSingleIffAlternates(tokens: seq<string>)
    ensures Singles(JobSegments(tokens)) <==> Alternates(tokens)
  {
    var s := Segments(tokens);
    SinglesIffAlternates(tokens);
    JobSegmentsAre(tokens);
    SinglesNext(s[..|s| - 1], Last(s));
    assert s == s[..|s| - 1] + [Last(s)];
  }

  lemma SinglesWithoutBlank(segments: seq<seq<string>>)
    ensures (forall k :: 0 <= k < |segments| ==> AsOneWord(segments[k]))
            <==> Singles(segments) && NoBlankInAny(segments)
  {
    forall k | 0 <= k < |segments| && |segments[k]| == 1
      ensures NoBlankIn(segments[k]) <==> !HasBlank(segments[k][0])
    {
    }
  }

  lemma PrintedStartIff(jobs: seq<string>, segments: seq<seq<string>>)
    requires jobs == Printed(segments) && forall k :: 0 <= k < |segments| ==> NoneEmpty(segments[k])
    ensures StartAs(jobs, segments) <==> forall k :: 0 <= k < |segments| ==> AsOneWord(segments[k])
  {
    forall k | 0 <= k < |segments|
      ensures Fields(jobs[k]) != [] && [Fields(jobs[k])[0]] == segments[k] <==> AsOneWord(segments[k])
    {
      SegmentStartsIff(segments[k]);
    }
  }

  lemma JobsArePrinted(tokens: seq<string>)
    ensures Jobs(tokens) == Printed(JobSegments(tokens))
    ensures forall k :: 0 <= k < |JobSegments(tokens)| ==> JobSegments(tokens)[k] == Segments(tokens)[k]
  {
    JobSegmentsAre(tokens);
  }

  lemma TokensStartIff(tokens: seq<string>)
    requires NoneEmpty(tokens)
    ensures StartsItsTokens(tokens) <==> NoBlankIn(tokens) && Alternates(tokens)
  {
    var s := JobSegments(tokens);
    SegmentsAreNoneEmpty(tokens);
    JobsArePrinted(tokens);
    PrintedStartIff(Jobs(tokens), s);
    SinglesWithoutBlank(s);
    JobSegmentsHoldTheTokens(tokens);
    JobsSingleIffAlternates(tokens);
  }

  /** For every input, with three delimiters or four: what is started for the jobs
      is what they were made of if and only if no blank is kept in a token and
      every second token, and no other, is a splitter: one word to a job. */
  lemma JobsStartTheirTokensIff(input: string, count: nat)
    ensures var tokens := Lex(input, count);
      StartsItsTokens(tokens) <==> !HasBlank(Kept(input, false, count)) && Alternates(tokens)
  {
    TokensAreWhatIsKept(input, count);
    TokensStartIff(Lex(input, count));
    FlatHasBlank(Lex(input, count));
  }

  lemma AllSingleIffAlternates(tokens: seq<string>)
    ensures Singles(Segments(tokens)) <==> Alternates(tokens) && !EndsAtSplit(tokens)
  {
    var s := Segments(tokens);
    SinglesIffAlternates(tokens);
    SegmentsCount(tokens);
    SinglesNext(s[..|s| - 1], Last(s));
    assert s == s[..|s| - 1] + [Last(s)];
  }

  lemma ReadStartIff(jobs: seq<string>, segments: seq<seq<string>>)
    requires |jobs| == |segments| && forall k :: 0 <= k < |jobs| ==> Fields(jobs[k]) == segments[k]
    ensures StartAs(jobs, segments) <==> Singles(segments)
  {
  }

  /** Of a whole line without quotes, with the delimiters as they are counted: what
      is started for each job is its stretch of the line if and only if words and
      splitters alternate, with a word at either end. */
  lemma LinesStartTheirWordsIff(line: string)
    requires '"' !in line && '\n' !in line
    ensures var jobs, words := Jobs(Lex(line + "\n", DELIMITER_COUNT)), Lex(line, DELIMITER_COUNT);
      StartAs(jobs, Segments(words)) <==> Alternates(words) && !EndsAtSplit(words)
  {
    var words := Lex(line, 3);
    var jobs, s := Jobs(Lex(line + "\n", 3)), Segments(words);
    LinesReadAsTheirWords(line, 0);
    forall k: nat | k < |s| ensures Fields(jobs[k]) == s[k] {
      LinesReadAsTheirWords(line, k);
    }
    ReadStartIff(jobs, s);
    AllSingleIffAlternates(words);
  }

  /** Text of a name: not empty, and free of blanks, delimiters, quotes, dollars. */
  ghost predicate IsName(w: string, count: nat) {
    w != "" && forall c :: c in w ==> Ordinary(c, count) && !IsBlank(c)
  }

  /** A word with an argument, as in ls -l: the job is read as both, and started
      without the second. */
  lemma ArgumentsAreDropped(a: string, b: string, count: nat)
    requires IsName(a, count) && IsName(b, count)
    ensures Lex(a + " " + b, count) == [a, b] && Jobs([a, b]) == [a + " " + b + " "]
    ensures Fields(a + " " + b + " ") == [a, b]
    ensures ReadsAsItsTokens([a, b]) && !StartsItsTokens([a, b])
  {
    LexTwoWords(a, b, count);
    NameIsNoSplitter(a, count);
    NameIsNoSplitter(b, count);
    JobsOfTwoWords(a, b);
    FieldsOfTwoWords(a, b, count);
    TwoWordsStartOne([a, b], a + " " + b + " ");
  }

  lemma TwoWordsStartOne(tokens: seq<string>, job: string)
    requires |tokens| == 2 && NoneEmpty(tokens) && tokens[1] != SPLITTER
    requires Segments(tokens) == [tokens] && Jobs(tokens) == [job] && Fields(job) == tokens
    ensures ReadsAsItsTokens(tokens) && !StartsItsTokens(tokens)
  {
    assert !Alternates(tokens);
    TokensStartIff(tokens);
  }

  lemma LexTwoWords(a: string, b: string, count: nat)
    requires IsName(a, count) && IsName(b, count)
    ensures Lex(a + " " + b, count) == [a, b]
  {
    OrdinaryIsOneToken(a, count);
    OrdinaryIsOneToken(b, count);
    RunOrdinary(START, a, count);
    DelimiterSeparates(a, ' ', b, count);
    assert [a] + [] + [b] == [a, b];
  }

  lemma NameIsNoSplitter(w: string, count: nat)
    requires IsName(w, count)
    ensures w != SPLITTER
  {
    assert w == SPLITTER ==> w[0] in w && !Ordinary(w[0], count);
  }

  lemma JobsOfTwoWords(a: string, b: string)
    requires a != SPLITTER && b != SPLITTER
    ensures Segments([a, b]) == [[a, b]] && Jobs([a, b]) == [a + " " + b + " "]
  {
    assert [] + [a] == [a] && [a] + [b] == [a, b];
    SegmentsNext([], a);
    SegmentsNext([a], b);
    assert Segments([a]) == [[a]];
    assert Segments([a, b]) == [[a, b]];
    PrintNext([], a);
    PrintNext([a], b);
    assert "" + a + " " == a + " ";
    PrintedNext([], [a, b]);
    assert [] + [[a, b]] == [[a, b]] && [] + [a + " " + b + " "] == [a + " " + b + " "];
  }

  lemma FieldsOfTwoWords(a: string, b: string, count: nat)
    requires IsName(a, count) && IsName(b, count)
    ensures Fields(a + " " + b + " ") == [a, b]
  {
    FieldsBeforeSpace(a + " " + b);
    FieldsSplitAtBlank(a, ' ', b);
    assert forall i :: 0 <= i < |a| ==> a[i] in a;
    assert forall i :: 0 <= i < |b| ==> b[i] in b;
    OneField(a);
    OneField(b);
    assert [a] + [b] == [a, b];
  }

  /** For one: ls -l starts ls. */
  lemma LsIsStartedWithoutItsArgument(count: nat) returns (line: string, a: string, b: string)
    ensures line == "ls -l" && a == "ls" && b == "-l"
    ensures Lex(line, count) == [a, b] && Jobs([a, b]) == [line + " "] && Fields(line + " ") == [a, b]
    ensures !StartsItsTokens([a, b])
  {
    a, b, line := LsLine(count);
    ArgumentsAreDropped(a, b, count);
  }

  lemma LsLine(count: nat) returns (a: string, b: string, line: string)
    ensures a == "ls" && b == "-l" && line == "ls -l" == a + " " + b
    ensures IsName(a, count) && IsName(b, count)
  {
    a, b := ['l', 's'], ['-', 'l'];
    line := a + " " + b;
  }
}
