/** What the tokenizer computes, said without its automaton. */
module TokenGrammar {
  import opened Texts
  import opened Tokens

  // ---------- Running the automaton on concatenations ----------

  lemma {:induction false} RunAppend(st: State, a: string, b: string, count: nat)
    ensures Run(st, a + b, count) == Run(Run(st, a, count), b, count)
    decreases |a|
  {
    if a == "" {
      assert a + b == b;
    } else {
      assert (a + b)[1..] == a[1..] + b;
      RunAppend(Step(st, a[0], count), a[1..], b, count);
    }
  }

  lemma RunOne(st: State, c: char, count: nat)
    ensures Run(st, [c], count) == Step(st, c, count)
  {
    assert [c][1..] == "";
  }

  /** Tokens already finished play no part in what follows. */
  lemma {:induction false} RunFromTokens(st: State, done: seq<string>, input: string, count: nat)
    ensures var r := Run(st, input, count);
      Run(st.(tokens := done + st.tokens), input, count) == r.(tokens := done + r.tokens)
    decreases |input|
  {
    if input != "" {
      var c := input[0];
      var next := Step(st, c, count);
      assert Step(st.(tokens := done + st.tokens), c, count) == next.(tokens := done + next.tokens) by {
        assert Flushed(st.(tokens := done + st.tokens)) == done + Flushed(st);
      }
      RunFromTokens(next, done, input[1..], count);
    }
  }

  lemma LexFrom(done: seq<string>, input: string, count: nat)
    ensures Flushed(Run(State(false, "", done), input, count)) == done + Lex(input, count)
  {
    RunFromTokens(START, done, input, count);
    assert done + START.tokens == done;
    var r := Run(START, input, count);
    assert Flushed(r.(tokens := done + r.tokens)) == done + Flushed(r);
  }

  // ---------- Separation ----------

  function OwnToken(c: char): seq<string> {
    if IsBlank(c) then [] else [[c]]
  }

  /** Outside a quoted string a delimiter separates what is before it from what
      is after it. */
  lemma DelimiterSeparates(a: string, c: char, b: string, count: nat)
    requires !EndsInString(a, count) && IsDelimiter(c, count)
    ensures Lex(a + [c] + b, count) == Lex(a, count) + OwnToken(c) + Lex(b, count)
  {
    RunAppend(START, a + [c], b, count);
    RunAppend(START, a, [c], count);
    RunOne(Run(START, a, count), c, count);
    LexFrom(Lex(a, count) + OwnToken(c), b, count);
  }

  // ---------- What survives ----------

  /** The characters that are not consumed: everything inside quotes, and outside
      them all but blanks and dollars; the quotes themselves go. */
  function Kept(input: string, inString: bool, count: nat): string {
    if input == "" then ""
    else
      var c, rest := input[0], input[1..];
      if c == '"' then Kept(rest, !inString, count)
      else if !inString && (c == '$' || (IsDelimiter(c, count) && IsBlank(c))) then Kept(rest, inString, count)
      else [c] + Kept(rest, inString, count)
  }

  lemma FlatFlushed(st: State)
    ensures Flat(Flushed(st)) == Flat(st.tokens) + st.buffer
  {
    FlatAppend(st.tokens, [st.buffer]);
    FlatOne(st.buffer);
  }

  lemma StepKeeps(st: State, c: char, count: nat)
    ensures var st' := Step(st, c, count);
      Flat(st'.tokens) + st'.buffer == Flat(st.tokens) + st.buffer +
        (if c == '"' || (!st.inString && (c == '$' || (IsDelimiter(c, count) && IsBlank(c)))) then "" else [c])
  {
    FlatFlushed(st);
    FlatAppend(Flushed(st), [[c]]);
    FlatOne([c]);
    assert Flushed(st) + [] == Flushed(st);
  }

  lemma {:induction false} RunKeeps(st: State, input: string, count: nat)
    ensures var r := Run(st, input, count);
      Flat(r.tokens) + r.buffer == Flat(st.tokens) + st.buffer + Kept(input, st.inString, count)
    decreases |input|
  {
    if input != "" {
      StepKeeps(st, input[0], count);
      RunKeeps(Step(st, input[0], count), input[1..], count);
    }
  }

  ghost predicate NoneEmpty(ts: seq<string>) {
    forall i :: 0 <= i < |ts| ==> ts[i] != ""
  }

  lemma {:induction false} RunLeavesNoneEmpty(st: State, input: string, count: nat)
    requires NoneEmpty(st.tokens)
    ensures NoneEmpty(Run(st, input, count).tokens)
    decreases |input|
  {
    if input != "" {
      RunLeavesNoneEmpty(Step(st, input[0], count), input[1..], count);
    }
  }

  /** Tokens are never empty, and put together they are the input without its
      quotes, unquoted blanks and unquoted dollars. */
  lemma TokensAreWhatIsKept(input: string, count: nat)
    ensures NoneEmpty(Lex(input, count))
    ensures Flat(Lex(input, count)) == Kept(input, false, count)
  {
    RunLeavesNoneEmpty(START, input, count);
    RunKeeps(START, input, count);
    FlatFlushed(Run(START, input, count));
  }

  function Quotes(s: string): nat {
    if s == "" then 0 else (if s[0] == '"' then 1 else 0) + Quotes(s[1..])
  }

  lemma {:induction false} QuotesToggle(st: State, input: string, count: nat)
    ensures Run(st, input, count).inString <==> (st.inString != (Quotes(input) % 2 == 1))
    decreases |input|
  {
    if input != "" { QuotesToggle(Step(st, input[0], count), input[1..], count); }
  }

  /** A space splits every continuation off an input if and only if the quotes of
      the input are even in number. */
  lemma SpaceSeparatesIffOutsideString(a: string, count: nat)
    ensures (forall b :: Lex(a + " " + b, count) == Lex(a, count) + Lex(b, count)) <==> !EndsInString(a, count)
    ensures EndsInString(a, count) <==> Quotes(a) % 2 == 1
  {
    QuotesToggle(START, a, count);
    if EndsInString(a, count) {
      SpaceInsideStringIsKept(a, count);
      assert a + " " + "" == a + " ";
      assert Lex("", count) == [];
      assert Lex(a + " " + "", count) != Lex(a, count) + Lex("", count);
    } else {
      forall b ensures Lex(a + " " + b, count) == Lex(a, count) + Lex(b, count) {
        DelimiterSeparates(a, ' ', b, count);
        assert Lex(a, count) + [] == Lex(a, count);
      }
    }
  }

  lemma SpaceInsideStringIsKept(a: string, count: nat)
    requires EndsInString(a, count)
    ensures Lex(a + " ", count) != Lex(a, count)
  {
    var st := Run(START, a, count);
    RunAppend(START, a, " ", count);
    RunOne(st, ' ', count);
    FlatFlushed(st);
    FlatFlushed(Step(st, ' ', count));
  }

  // ---------- The grammar ----------

  datatype Item =
    | Blank(c: char)
    | Operator(c: char)
    | Quoted(text: string)
    | Word(text: string)

  /** A reading of an input: its items, and the text of a string that is still
      open at the end, if there is one. */
  datatype Reading = Reading(items: seq<Item>, open: seq<string>)

  predicate ProperItem(item: Item, count: nat) {
    match item
    case Blank(c) => IsDelimiter(c, count) && IsBlank(c)
    case Operator(c) => IsDelimiter(c, count) && !IsBlank(c)
    case Quoted(text) => '"' !in text
    case Word(text) => text != "" && forall c :: c in text ==> c != '"' && !IsDelimiter(c, count)
  }

  /** Proper items, no two words of which are neighbours. */
  predicate Proper(items: seq<Item>, count: nat) {
    items == [] || (Proper(items[..|items| - 1], count) && Fits(items[..|items| - 1], items[|items| - 1], count))
  }

  /** `item` can stand behind `items`. */
  predicate Fits(items: seq<Item>, item: Item, count: nat) {
    ProperItem(item, count) && (item.Word? && items != [] ==> !items[|items| - 1].Word?)
  }

  predicate ProperReading(r: Reading, count: nat) {
    Proper(r.items, count) && |r.open| <= 1 && forall i :: 0 <= i < |r.open| ==> '"' !in r.open[i]
  }

  function ItemText(item: Item): string {
    match item
    case Blank(c) => [c]
    case Operator(c) => [c]
    case Quoted(text) => ['"'] + text + ['"']
    case Word(text) => text
  }

  function ItemsText(items: seq<Item>): string {
    if items == [] then "" else ItemsText(items[..|items| - 1]) + ItemText(items[|items| - 1])
  }

  function Spelling(r: Reading): string {
    ItemsText(r.items) + if r.open == [] then "" else ['"'] + r.open[0]
  }

  function WithoutDollars(s: string): string {
    if s == "" then ""
    else (if s[0] == '$' then "" else [s[0]]) + WithoutDollars(s[1..])
  }

  function Tok(s: string): seq<string> {
    if s == "" then [] else [s]
  }

  function ItemTokens(item: Item): seq<string> {
    match item
    case Blank(_) => []
    case Operator(c) => [[c]]
    case Quoted(text) => Tok(text)
    case Word(text) => Tok(WithoutDollars(text))
  }

  function ItemsTokens(items: seq<Item>): seq<string> {
    if items == [] then [] else ItemsTokens(items[..|items| - 1]) + ItemTokens(items[|items| - 1])
  }

  /** The tokens of a reading: operators, words without their dollars, and the
      text of strings, as far as not empty. */
  function ReadingTokens(r: Reading): seq<string> {
    ItemsTokens(r.items) + if r.open == [] then [] else Tok(r.open[0])
  }

  lemma {:induction false} RunInString(st: State, text: string, count: nat)
    requires st.inString && '"' !in text
    ensures Run(st, text, count) == st.(buffer := st.buffer + text)
    decreases |text|
  {
    if text != "" {
      assert text[0] in text;
      assert forall c :: c in text[1..] ==> c in text;
      RunInString(st.(buffer := st.buffer + [text[0]]), text[1..], count);
      assert st.buffer + [text[0]] + text[1..] == st.buffer + text;
    } else {
      assert st.buffer + text == st.buffer;
    }
  }

  lemma {:induction false} RunWord(st: State, text: string, count: nat)
    requires !st.inString && forall c :: c in text ==> c != '"' && !IsDelimiter(c, count)
    ensures Run(st, text, count) == st.(buffer := st.buffer + WithoutDollars(text))
    decreases |text|
  {
    if text != "" {
      assert text[0] in text;
      assert forall c :: c in text[1..] ==> c in text;
      RunWord(Step(st, text[0], count), text[1..], count);
      assert st.buffer + [text[0]] + WithoutDollars(text[1..]) == st.buffer + ([text[0]] + WithoutDollars(text[1..]));
    } else {
      assert st.buffer + "" == st.buffer;
    }
  }

  lemma RunQuoted(st: State, text: string, count: nat)
    requires !st.inString && '"' !in text
    ensures Run(st, ['"'] + text, count) == State(true, text, Flushed(st))
    ensures Run(st, ['"'] + text + ['"'], count) == State(false, "", Flushed(st) + Tok(text))
  {
    RunAppend(st, ['"'], text, count);
    RunOne(st, '"', count);
    RunInString(State(true, "", Flushed(st)), text, count);
    RunAppend(st, ['"'] + text, ['"'], count);
    RunOne(State(true, text, Flushed(st)), '"', count);
  }

  /** Reading items one by one: outside strings, with all their tokens so far,
      and with a pending buffer only behind a word. */
  lemma {:induction false} RunItems(items: seq<Item>, count: nat)
    requires Proper(items, count)
    ensures var st := Run(START, ItemsText(items), count);
      && !st.inString && Flushed(st) == ItemsTokens(items)
      && (items == [] || !items[|items| - 1].Word? ==> st.buffer == "")
  {
    if items != [] {
      var init, last := items[..|items| - 1], items[|items| - 1];
      RunItems(init, count);
      RunAppend(START, ItemsText(init), ItemText(last), count);
      RunItem(Run(START, ItemsText(init), count), last, count);
    }
  }

  lemma RunItem(st: State, item: Item, count: nat)
    requires !st.inString && ProperItem(item, count) && (item.Word? ==> st.buffer == "")
    ensures var r := Run(st, ItemText(item), count);
      !r.inString && Flushed(r) == Flushed(st) + ItemTokens(item) && (!item.Word? ==> r.buffer == "")
  {
    assert Flushed(st) + [] == Flushed(st);
    match item
    case Blank(c) => RunOne(st, c, count);
    case Operator(c) => RunOne(st, c, count);
    case Quoted(text) =>
      RunQuoted(st, text, count);
      assert ItemText(item) == ['"'] + text + ['"'];
    case Word(text) =>
      RunWord(st, text, count);
      assert st.buffer + WithoutDollars(text) == WithoutDollars(text);
  }

  /** However an input is read by the grammar, the tokenizer yields the tokens of
      that reading. */
  lemma EveryReadingGivesTheTokens(r: Reading, count: nat)
    requires ProperReading(r, count)
    ensures Lex(Spelling(r), count) == ReadingTokens(r)
  {
    RunItems(r.items, count);
    var st := Run(START, ItemsText(r.items), count);
    if r.open == [] {
      assert Spelling(r) == ItemsText(r.items);
      assert ReadingTokens(r) == ItemsTokens(r.items);
    } else {
      RunAppend(START, ItemsText(r.items), ['"'] + r.open[0], count);
      RunQuoted(st, r.open[0], count);
      assert Flushed(State(true, r.open[0], Flushed(st))) == Flushed(st) + Tok(r.open[0]);
    }
  }

  /** A reading continued by one character. */
  function Grown(r: Reading, c: char, count: nat): Reading {
    if r.open != [] then
      if c == '"' then Reading(r.items + [Quoted(r.open[0])], []) else Reading(r.items, [r.open[0] + [c]])
    else if c == '"' then Reading(r.items, [""])
    else if IsDelimiter(c, count) then
      Reading(r.items + [if IsBlank(c) then Blank(c) else Operator(c)], [])
    else if r.items != [] && r.items[|r.items| - 1].Word? then
      Reading(r.items[..|r.items| - 1] + [Word(r.items[|r.items| - 1].text + [c])], [])
    else Reading(r.items + [Word([c])], [])
  }

  function ReadingOf(input: string, count: nat): Reading {
    if input == "" then Reading([], [])
    else Grown(ReadingOf(input[..|input| - 1], count), input[|input| - 1], count)
  }

  lemma AddItem(items: seq<Item>, item: Item, count: nat)
    requires Proper(items, count) && Fits(items, item, count)
    ensures Proper(items + [item], count)
    ensures ItemsText(items + [item]) == ItemsText(items) + ItemText(item)
  {
    assert (items + [item])[..|items|] == items;
  }

  lemma GrownIsProper(r: Reading, c: char, count: nat)
    requires ProperReading(r, count)
    ensures ProperReading(Grown(r, c, count), count)
    ensures Spelling(Grown(r, c, count)) == Spelling(r) + [c]
  {
    if r.open != [] {
      GrowInString(r.items, r.open[0], c, count);
      assert r.open == [r.open[0]];
    } else if c != '"' {
      GrowOutside(r.items, c, count);
    }
  }

  lemma GrowInString(items: seq<Item>, text: string, c: char, count: nat)
    requires Proper(items, count) && '"' !in text
    ensures var r := Reading(items, [text]);
      ProperReading(Grown(r, c, count), count) && Spelling(Grown(r, c, count)) == Spelling(r) + [c]
  {
    if c == '"' {
      AddItem(items, Quoted(text), count);
    } else {
      assert ['"'] + (text + [c]) == ['"'] + text + [c];
    }
  }

  lemma GrowOutside(items: seq<Item>, c: char, count: nat)
    requires Proper(items, count) && c != '"'
    ensures var r := Grown(Reading(items, []), c, count);
      r.open == [] && Proper(r.items, count) && ItemsText(r.items) == ItemsText(items) + [c]
  {
    if IsDelimiter(c, count) {
      AddItem(items, if IsBlank(c) then Blank(c) else Operator(c), count);
    } else if items != [] && items[|items| - 1].Word? {
      GrowWord(items, c, count);
    } else {
      AddItem(items, Word([c]), count);
    }
  }

  /** Every input has a reading. */
  lemma {:induction false} EveryInputHasAReading(input: string, count: nat)
    ensures ProperReading(ReadingOf(input, count), count)
    ensures Spelling(ReadingOf(input, count)) == input
  {
    if input != "" {
      var init, c := input[..|input| - 1], input[|input| - 1];
      assert input == init + [c];
      EveryInputHasAReading(init, count);
      var r := ReadingOf(init, count);
      GrownIsProper(r, c, count);
      assert ReadingOf(input, count) == Grown(r, c, count);
    }
  }

  lemma GrowWord(items: seq<Item>, c: char, count: nat)
    requires Proper(items, count) && items != [] && items[|items| - 1].Word?
    requires c != '"' && !IsDelimiter(c, count)
    ensures var items' := items[..|items| - 1] + [Word(items[|items| - 1].text + [c])];
      Proper(items', count) && ItemsText(items') == ItemsText(items) + [c]
  {
    var n := |items| - 1;
    AddItem(items[..n], Word(items[n].text + [c]), count);
  }

  // ---------- There is only one reading ----------

  /** Reading goes on from a reading `r` already made. */
  function GrownBy(r: Reading, s: string, count: nat): Reading {
    if s == "" then r
    else Grown(GrownBy(r, s[..|s| - 1], count), s[|s| - 1], count)
  }

  lemma {:induction false} ReadingOfConcat(a: string, b: string, count: nat)
    ensures ReadingOf(a + b, count) == GrownBy(ReadingOf(a, count), b, count)
  {
    if b == "" {
      assert a + b == a;
    } else {
      var n := |b| - 1;
      assert (a + b)[..|a| + n] == a + b[..n] && (a + b)[|a + b| - 1] == b[n];
      ReadingOfConcat(a, b[..n], count);
    }
  }

  lemma GrownByNext(r: Reading, s: string, c: char, count: nat)
    ensures GrownBy(r, s + [c], count) == Grown(GrownBy(r, s, count), c, count)
  {
    assert (s + [c])[..|s|] == s;
  }

  lemma {:induction false} GrownByString(items: seq<Item>, text: string, count: nat)
    requires '"' !in text
    ensures GrownBy(Reading(items, []), ['"'] + text, count) == Reading(items, [text])
  {
    if text == "" {
      assert ['"'] + text == [] + ['"'];
      GrownByNext(Reading(items, []), [], '"', count);
    } else {
      var n := |text| - 1;
      GrownByString(items, text[..n], count);
      assert ['"'] + text == (['"'] + text[..n]) + [text[n]];
      GrownByNext(Reading(items, []), ['"'] + text[..n], text[n], count);
      assert text[n] in text && text[..n] + [text[n]] == text;
    }
  }

  lemma {:induction false} GrownByWord(items: seq<Item>, text: string, count: nat)
    requires ProperItem(Word(text), count) && (items == [] || !items[|items| - 1].Word?)
    ensures GrownBy(Reading(items, []), text, count) == Reading(items + [Word(text)], [])
  {
    var n := |text| - 1;
    var init, c := text[..n], text[n];
    assert text == init + [c] && c in text;
    GrownByNext(Reading(items, []), init, c, count);
    if init != "" {
      assert forall d :: d in init ==> d in text;
      GrownByWord(items, init, count);
      assert (items + [Word(init)])[..|items|] == items;
    }
  }

  lemma GrownByItem(items: seq<Item>, item: Item, count: nat)
    requires Fits(items, item, count)
    ensures GrownBy(Reading(items, []), ItemText(item), count) == Reading(items + [item], [])
  {
    var r := Reading(items, []);
    match item
    case Blank(c) => GrownByNext(r, [], c, count); assert [] + [c] == [c];
    case Operator(c) => GrownByNext(r, [], c, count); assert [] + [c] == [c];
    case Quoted(text) =>
      GrownByString(items, text, count);
      GrownByNext(r, ['"'] + text, '"', count);
    case Word(text) => GrownByWord(items, text, count);
  }

  lemma {:induction false} ReadingOfItems(items: seq<Item>, count: nat)
    requires Proper(items, count)
    ensures ReadingOf(ItemsText(items), count) == Reading(items, [])
  {
    if items != [] {
      var init, last := items[..|items| - 1], items[|items| - 1];
      assert items == init + [last];
      var before, text := ItemsText(init), ItemText(last);
      assert ItemsText(items) == before + text;
      ReadingOfItems(init, count);
      ReadingOfConcat(before, text, count);
      GrownByItem(init, last, count);
    }
  }

  /** A proper reading is the reading of what it spells, so that no input has two. */
  lemma ReadingsAreUnique(r: Reading, count: nat)
    requires ProperReading(r, count)
    ensures ReadingOf(Spelling(r), count) == r
    ensures forall r' :: ProperReading(r', count) && Spelling(r') == Spelling(r) ==> r' == r
  {
    forall r' | ProperReading(r', count) ensures ReadingOf(Spelling(r'), count) == r' {
      ReadingOfSpelling(r', count);
    }
  }

  lemma ReadingOfSpelling(r: Reading, count: nat)
    requires ProperReading(r, count)
    ensures ReadingOf(Spelling(r), count) == r
  {
    ReadingOfItems(r.items, count);
    if r.open == [] {
      assert Spelling(r) == ItemsText(r.items);
    } else {
      ReadingOfConcat(ItemsText(r.items), ['"'] + r.open[0], count);
      GrownByString(r.items, r.open[0], count);
      assert r.open == [r.open[0]];
    }
  }
}
