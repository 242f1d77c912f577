/**
 The dshell tokenizer.  It declares four delimiters but a count of three, so
 that a newline is an ordinary character; everything here is stated for a
 count of three and of four alike.
 */
module Tokens {
  import opened Texts

  const DELIMITERS: string := " &|\n"
  const DELIMITER_COUNT: nat := 3

  predicate Count(count: nat) {
    3 <= count <= 4
  }

  predicate IsDelimiter(c: char, count: nat) {
    c == ' ' || c == '&' || c == '|' || (count == 4 && c == '\n')
  }

  /** Delimiters that separate and are not kept as tokens. */
  predicate IsBlank(c: char) {
    c == ' ' || c == '\n'
  }

  // ---------- The automaton ----------

  datatype State = State(inString: bool, buffer: string, tokens: seq<string>)

  const START := State(false, "", [])

  function Flushed(st: State): seq<string> {
    if st.buffer == "" then st.tokens else st.tokens + [st.buffer]
  }

  function Step(st: State, c: char, count: nat): State {
    if st.inString then
      if c == '"' then State(false, "", Flushed(st)) else st.(buffer := st.buffer + [c])
    else if c == '$' then st
    else if c == '"' then State(true, "", Flushed(st))
    else if IsDelimiter(c, count) then
      State(false, "", Flushed(st) + if IsBlank(c) then [] else [[c]])
    else st.(buffer := st.buffer + [c])
  }

  function Run(st: State, input: string, count: nat): State
    decreases |input|
  {
    if input == "" then st else Run(Step(st, input[0], count), input[1..], count)
  }

  /** The tokens of an input. */
  function Lex(input: string, count: nat): seq<string> {
    Flushed(Run(START, input, count))
  }

  predicate EndsInString(input: string, count: nat) {
    Run(START, input, count).inString
  }

  method AddToQueue(buffer: string, tokens: seq<string>) returns (buffer': string, tokens': seq<string>)
    ensures buffer' == "" && tokens' == Flushed(State(false, buffer, tokens))
  {
    buffer', tokens' := buffer, tokens;
    if |buffer| > 0 {
      tokens' := tokens + [buffer];
      buffer' := "";
    }
  }

  method Tokenize(input: string, count: nat) returns (tokens: seq<string>)
    requires Count(count)
    ensures tokens == Lex(input, count)
  {
    var inString, ss := false, "";
    tokens := [];
    for i := 0 to |input|
      invariant Run(State(inString, ss, tokens), input[i..], count) == Run(START, input, count)
    {
      var c := input[i];
      ghost var before := State(inString, ss, tokens);
      assert input[i..][1..] == input[i + 1..];
      if inString {
        if c == '"' {
          inString := false;
          ss, tokens := AddToQueue(ss, tokens);
        } else {
          ss := ss + [c];
        }
      } else if c == '$' {
      } else if c == '"' {
        inString := true;
        ss, tokens := AddToQueue(ss, tokens);
      } else {
        var delim := false;
        assert DELIMITERS[0] == ' ' && DELIMITERS[1] == '&' && DELIMITERS[2] == '|' && DELIMITERS[3] == '\n';
        for j := 0 to count
          invariant !delim && ss == before.buffer && tokens == before.tokens
          invariant forall k :: 0 <= k < j ==> DELIMITERS[k] != c
        {
          if c == DELIMITERS[j] {
            ss, tokens := AddToQueue(ss, tokens);
            if c != ' ' && c != '\n' {
              ss := ss + [c];
              assert ss == [c];
              ss, tokens := AddToQueue(ss, tokens);
            }
            assert tokens == Flushed(before) + if IsBlank(c) then [] else [[c]];
            delim := true;
            break;
          }
        }
        if !delim {
          ss := ss + [c];
        }
      }
      assert State(inString, ss, tokens) == Step(before, c, count);
    }
    ss, tokens := AddToQueue(ss, tokens);
  }
}
