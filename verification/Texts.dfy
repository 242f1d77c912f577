/** Lists of strings, and maps from strings to lists of strings. */
module Texts {

  function Flat(ts: seq<string>): string {
    if ts == [] then "" else ts[0] + Flat(ts[1..])
  }

  lemma {:induction false} FlatAppend(a: seq<string>, b: seq<string>)
    ensures Flat(a + b) == Flat(a) + Flat(b)
  {
    if a == [] {
      assert a + b == b;
    } else {
      assert (a + b)[1..] == a[1..] + b;
      FlatAppend(a[1..], b);
    }
  }

  lemma FlatOne(t: string)
    ensures Flat([t]) == t
  {
    assert [t][1..] == [];
  }

  function FlatMap(ts: seq<string>, f: string -> seq<string>): seq<string> {
    if ts == [] then [] else f(ts[0]) + FlatMap(ts[1..], f)
  }

  lemma {:induction false} FlatMapAppend(a: seq<string>, b: seq<string>, f: string -> seq<string>)
    ensures FlatMap(a + b, f) == FlatMap(a, f) + FlatMap(b, f)
  {
    if a == [] {
      assert a + b == b;
    } else {
      assert (a + b)[1..] == a[1..] + b;
      FlatMapAppend(a[1..], b, f);
    }
  }

  /** `f` cuts each string of the list into non-empty pieces, dropping characters
      perhaps but adding none. */
  ghost predicate Cuts(ts: seq<string>, f: string -> seq<string>) {
    forall i :: 0 <= i < |ts| ==>
      ts[i] != "" && |Flat(f(ts[i]))| <= |ts[i]| && "" !in f(ts[i])
  }

  lemma {:induction false} CutsAddNothing(ts: seq<string>, f: string -> seq<string>)
    requires Cuts(ts, f)
    ensures |Flat(FlatMap(ts, f))| <= |Flat(ts)|
  {
    if ts != [] {
      CutsAddNothing(ts[1..], f);
      FlatAppend(f(ts[0]), FlatMap(ts[1..], f));
    }
  }

  /** Cutting gives back the whole list only if it cuts nothing at all. */
  lemma {:induction false} CutsNothing(ts: seq<string>, f: string -> seq<string>)
    requires Cuts(ts, f)
    ensures FlatMap(ts, f) == ts <==> forall i :: 0 <= i < |ts| ==> f(ts[i]) == [ts[i]]
  {
    if ts != [] {
      var rest := ts[1..];
      assert ts == [ts[0]] + rest;
      CutsNothing(rest, f);
      assert (forall i :: 0 <= i < |ts| ==> f(ts[i]) == [ts[i]])
        <==> f(ts[0]) == [ts[0]] && forall i :: 0 <= i < |rest| ==> f(rest[i]) == [rest[i]] by {
        assert forall i :: 0 <= i < |rest| ==> rest[i] == ts[i + 1];
        assert forall i :: 1 <= i < |ts| ==> ts[i] == rest[i - 1];
      }
      if FlatMap(ts, f) == ts { HeadUncut(ts, f); }
    }
  }

  lemma HeadUncut(ts: seq<string>, f: string -> seq<string>)
    requires ts != [] && Cuts(ts, f) && FlatMap(ts, f) == ts
    ensures f(ts[0]) == [ts[0]]
  {
    var head, rest := f(ts[0]), FlatMap(ts[1..], f);
    CutsAddNothing(ts[1..], f);
    FlatAppend(head, rest);
    assert |Flat(head)| >= |ts[0]| > 0;
    assert head[0] == (head + rest)[0];
    PiecesHaveLength(head[1..]);
    assert head == [head[0]] + head[1..];
  }

  lemma {:induction false} PiecesHaveLength(ts: seq<string>)
    requires "" !in ts
    ensures |Flat(ts)| >= |ts|
  {
    if ts != [] {
      assert ts[0] in ts;
      PiecesHaveLength(ts[1..]);
    }
  }
}
