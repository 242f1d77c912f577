/**
 The tokenizer said of characters: what a space, a newline, "&", "|", a dollar
 and a quote do to the tokens, and what every other character does.  These
 laws leave no choice: whatever obeys them is the tokenizer.
 */
module TokenLaws {
  import opened Texts
  import opened Tokens
  import opened TokenGrammar

  /** Neither a space, an operator, a quote or a dollar, nor a newline if that is
      counted among the delimiters. */
  predicate Other(c: char, count: nat) {
    c != ' ' && c != '&' && c != '|' && c != '"' && c != '$' && (c == '\n' ==> count != 4)
  }

  predicate AllOther(s: string, count: nat) {
    forall i :: 0 <= i < |s| ==> Other(s[i], count)
  }

  // ---------- Laws behind any input without an open string ----------

  lemma OutsideString(a: string, count: nat)
    requires Quotes(a) % 2 == 0
    ensures !EndsInString(a, count)
  {
    SpaceSeparatesIffOutsideString(a, count);
  }

  /** A space separates, and the operators do and are tokens of their own. */
  lemma SpacesAndOperatorsSeparate(a: string, b: string, count: nat)
    requires Quotes(a) % 2 == 0
    ensures Lex(a + " " + b, count) == Lex(a, count) + Lex(b, count)
    ensures Lex(a + "&" + b, count) == Lex(a, count) + ["&"] + Lex(b, count)
    ensures Lex(a + "|" + b, count) == Lex(a, count) + ["|"] + Lex(b, count)
  {
    OutsideString(a, count);
    DelimiterSeparates(a, ' ', b, count);
    DelimiterSeparates(a, '&', b, count);
    DelimiterSeparates(a, '|', b, count);
    assert Lex(a, count) + [] + Lex(b, count) == Lex(a, count) + Lex(b, count);
  }

  lemma CountedNewlineSeparates(a: string, b: string)
    requires Quotes(a) % 2 == 0
    ensures Lex(a + "\n" + b, 4) == Lex(a, 4) + Lex(b, 4)
  {
    OutsideString(a, 4);
    DelimiterSeparates(a, '\n', b, 4);
    assert Lex(a, 4) + [] + Lex(b, 4) == Lex(a, 4) + Lex(b, 4);
  }

  /** A newline separates if and only if it is counted. */
  lemma NewlineSeparatesIffCounted(count: nat)
    requires Count(count)
    ensures (forall a, b :: Quotes(a) % 2 == 0 ==> Lex(a + "\n" + b, count) == Lex(a, count) + Lex(b, count))
            <==> count == 4
  {
    if count == 4 {
      forall a, b | Quotes(a) % 2 == 0 ensures Lex(a + "\n" + b, count) == Lex(a, count) + Lex(b, count) {
        CountedNewlineSeparates(a, b);
      }
    } else {
      var none: string, line := [], ['\n'];
      OthersJoin(line, count);
      OthersJoin(none, count);
      assert none + "\n" + none == line;
      assert Quotes(none) % 2 == 0;
      assert Lex(none + "\n" + none, count) != Lex(none, count) + Lex(none, count);
    }
  }

  /** Any other characters make one token together. */
  lemma OthersJoin(s: string, count: nat)
    requires AllOther(s, count)
    ensures Lex(s, count) == Tok(s)
  {
    forall c | c in s ensures c != '"' && c != '$' && !IsDelimiter(c, count) {
      var i :| 0 <= i < |s| && s[i] == c;
    }
    RunWord(START, s, count);
    NoDollars(s);
    assert START.buffer + s == s;
    assert [] + [s] == [s];
  }

  lemma {:induction false} NoDollars(s: string)
    requires '$' !in s
    ensures WithoutDollars(s) == s
  {
    if s != "" {
      assert s[0] in s && forall c :: c in s[1..] ==> c in s;
      NoDollars(s[1..]);
    }
  }

  /** A dollar is as if it were not there. */
  lemma DollarIsDropped(a: string, b: string, count: nat)
    requires Quotes(a) % 2 == 0
    ensures Lex(a + "$" + b, count) == Lex(a + b, count)
  {
    OutsideString(a, count);
    var st := Run(START, a, count);
    assert a + "$" + b == a + ("$" + b) && ("$" + b)[1..] == b;
    RunAppend(START, a, "$" + b, count);
    RunAppend(START, a, b, count);
    assert Step(st, '$', count) == st;
  }

  /** What stands between quotes is one token, whatever it is made of. */
  lemma QuotedIsOneToken(a: string, t: string, b: string, count: nat)
    requires Quotes(a) % 2 == 0 && '"' !in t
    ensures Lex(a + (['"'] + t + ['"']) + b, count) == Lex(a, count) + Tok(t) + Lex(b, count)
    ensures Lex(a + (['"'] + t), count) == Lex(a, count) + Tok(t)
  {
    OutsideString(a, count);
    var st, q := Run(START, a, count), ['"'] + t + ['"'];
    RunQuoted(st, t, count);
    RunAppend(START, a, ['"'] + t, count);
    assert Flushed(State(true, t, Flushed(st))) == Flushed(st) + Tok(t);
    RunAppend(START, a, q, count);
    RunAppend(START, a + q, b, count);
    LexFrom(Lex(a, count) + Tok(t), b, count);
  }

  // ---------- The laws determine the tokens ----------

  /** The laws about a stretch `u` of other characters with `b` behind it. */
  ghost predicate LawsAt(f: string -> seq<string>, u: string, b: string, count: nat) {
    && f(u) == Tok(u)
    && f(u + " " + b) == Tok(u) + f(b)
    && f(u + "&" + b) == Tok(u) + ["&"] + f(b)
    && f(u + "|" + b) == Tok(u) + ["|"] + f(b)
    && f(u + "$" + b) == f(u + b)
    && (count == 4 ==> f(u + "\n" + b) == Tok(u) + f(b))
  }

  /** And about a string `t` between the two. */
  ghost predicate QuoteLawsAt(f: string -> seq<string>, u: string, t: string, b: string) {
    && f(u + (['"'] + t)) == Tok(u) + Tok(t)
    && f(u + (['"'] + t + ['"']) + b) == Tok(u) + Tok(t) + f(b)
  }

  ghost predicate Obeys(f: string -> seq<string>, count: nat) {
    && (forall u, b :: AllOther(u, count) ==> LawsAt(f, u, b, count))
    && (forall u, t, b :: AllOther(u, count) && '"' !in t ==> QuoteLawsAt(f, u, t, b))
  }

  lemma {:induction false} OthersHaveNoQuotes(s: string, count: nat)
    requires AllOther(s, count)
    ensures Quotes(s) == 0
  {
    if s != "" {
      assert forall i :: 0 <= i < |s| - 1 ==> s[1..][i] == s[i + 1];
      OthersHaveNoQuotes(s[1..], count);
    }
  }

  function LexWith(count: nat): string -> seq<string> {
    s => Lex(s, count)
  }

  lemma LexObeysAt(u: string, b: string, count: nat)
    requires AllOther(u, count)
    ensures LawsAt(LexWith(count), u, b, count)
  {
    OthersHaveNoQuotes(u, count);
    OthersJoin(u, count);
    SpacesAndOperatorsSeparate(u, b, count);
    DollarIsDropped(u, b, count);
    if count == 4 { CountedNewlineSeparates(u, b); }
  }

  lemma LexObeysQuotesAt(u: string, t: string, b: string, count: nat)
    requires AllOther(u, count) && '"' !in t
    ensures QuoteLawsAt(LexWith(count), u, t, b)
  {
    OthersHaveNoQuotes(u, count);
    OthersJoin(u, count);
    QuotedIsOneToken(u, t, b, count);
  }

  /** `s` up to its first character that is not another one. */
  lemma {:induction false} FirstSpecial(s: string, count: nat) returns (u: string, rest: string)
    ensures s == u + rest && AllOther(u, count)
    ensures rest != "" ==> !Other(rest[0], count)
  {
    u, rest := "", s;
    if s != "" && Other(s[0], count) {
      var u', rest' := FirstSpecial(s[1..], count);
      u, rest := [s[0]] + u', rest';
      assert s == [s[0]] + s[1..];
    }
  }

  /** `s` up to its first quote. */
  lemma {:induction false} FirstQuote(s: string) returns (t: string, rest: string)
    ensures s == t + rest && '"' !in t
    ensures rest != "" ==> rest[0] == '"'
  {
    t, rest := "", s;
    if s != "" && s[0] != '"' {
      var t', rest' := FirstQuote(s[1..]);
      t, rest := [s[0]] + t', rest';
      assert s == [s[0]] + s[1..];
    }
  }

  lemma SplitAt(u: string, rest: string)
    requires rest != ""
    ensures u + rest == u + [rest[0]] + rest[1..]
  {
  }

  lemma {:induction false} ObeyingAgree(f: string -> seq<string>, g: string -> seq<string>, s: string, count: nat)
    requires Obeys(f, count) && Obeys(g, count)
    ensures f(s) == g(s)
    decreases |s|
  {
    var u, rest := FirstSpecial(s, count);
    if rest == "" {
      assert s == u;
      assert LawsAt(f, u, "", count) && LawsAt(g, u, "", count);
    } else if rest[0] == '"' {
      AgreeAtQuote(f, g, s, u, rest[1..], count);
    } else {
      var b := rest[1..];
      SplitAt(u, rest);
      assert LawsAt(f, u, b, count) && LawsAt(g, u, b, count);
      ObeyingAgree(f, g, if rest[0] == '$' then u + b else b, count);
      assert [rest[0]] == " " || [rest[0]] == "&" || [rest[0]] == "|" || [rest[0]] == "$" || [rest[0]] == "\n";
    }
  }

  lemma AgreeAtQuote(f: string -> seq<string>, g: string -> seq<string>, s: string, u: string, more: string, count: nat)
    requires Obeys(f, count) && Obeys(g, count)
    requires AllOther(u, count) && s == u + (['"'] + more)
    ensures f(s) == g(s)
    decreases |s|, 0
  {
    var t, rest := FirstQuote(more);
    if rest == "" {
      assert more == t;
      assert QuoteLawsAt(f, u, t, "") && QuoteLawsAt(g, u, t, "");
    } else {
      var b := rest[1..];
      assert s == u + (['"'] + t + ['"']) + b;
      assert QuoteLawsAt(f, u, t, b) && QuoteLawsAt(g, u, t, b);
      ObeyingAgree(f, g, b, count);
    }
  }

  /** The tokenizer obeys the laws, and nothing else does. */
  lemma OnlyTheTokenizerObeys(f: string -> seq<string>, count: nat)
    ensures Obeys(f, count) <==> forall s :: f(s) == Lex(s, count)
  {
    var lex := LexWith(count);
    forall u, b | AllOther(u, count) ensures LawsAt(lex, u, b, count) {
      LexObeysAt(u, b, count);
    }
    forall u, t, b | AllOther(u, count) && '"' !in t ensures QuoteLawsAt(lex, u, t, b) {
      LexObeysQuotesAt(u, t, b, count);
    }
    if Obeys(f, count) {
      forall s ensures f(s) == Lex(s, count) {
        ObeyingAgree(f, lex, s, count);
      }
    }
    if forall s :: f(s) == Lex(s, count) {
      forall u, b | AllOther(u, count) ensures LawsAt(f, u, b, count) {
        LexObeysAt(u, b, count);
      }
      forall u, t, b | AllOther(u, count) && '"' !in t ensures QuoteLawsAt(f, u, t, b) {
        LexObeysQuotesAt(u, t, b, count);
      }
    }
  }
}
