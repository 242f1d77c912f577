/** NUL-terminated strings in character buffers. */
module CStrings {

  const NUL: char := '\0'

  /** The buffer holds a terminated string. */
  predicate Terminated(b: seq<char>) {
    NUL in b
  }

  function Length(b: seq<char>): (n: nat)
    requires Terminated(b)
    ensures n < |b| && b[n] == NUL
    ensures forall i :: 0 <= i < n ==> b[i] != NUL
  {
    if b[0] == NUL then 0 else 1 + Length(b[1..])
  }

  /** The string held, without its terminator. */
  function Text(b: seq<char>): (s: string)
    requires Terminated(b)
    ensures NUL !in s
  {
    b[..Length(b)]
  }

  lemma TextIs(b: seq<char>, n: nat)
    requires n < |b| && b[n] == NUL && forall i :: 0 <= i < n ==> b[i] != NUL
    ensures Terminated(b) && Length(b) == n && Text(b) == b[..n]
  {
  }

  method StrLen(buf: array<char>) returns (n: nat)
    requires Terminated(buf[..])
    ensures n == Length(buf[..])
  {
    n := 0;
    while buf[n] != NUL
      invariant n <= Length(buf[..])
      decreases Length(buf[..]) - n
    {
      n := n + 1;
    }
  }
}
