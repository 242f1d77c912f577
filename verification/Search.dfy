/** Last-occurrence search in strings, and the file name it yields for a path. */
module Search {
  import opened Options

  /** `needle` stands in `haystack` at position `i`. */
  predicate OccursAt(haystack: string, needle: string, i: nat) {
    i + |needle| <= |haystack| && haystack[i..i + |needle|] == needle
  }

  /** `i` is the first occurrence at or after `from`. */
  ghost predicate IsFirst(haystack: string, needle: string, from: nat, i: nat) {
    from <= i && OccursAt(haystack, needle, i) && forall j: nat :: from <= j < i ==> !OccursAt(haystack, needle, j)
  }

  ghost predicate IsLast(haystack: string, needle: string, i: nat) {
    OccursAt(haystack, needle, i) && forall j: nat :: i < j ==> !OccursAt(haystack, needle, j)
  }

  /** What the C library's strstr answers for the suffix starting at `from`. */
  method StrStr(haystack: string, needle: string, from: nat) returns (r: Option<nat>)
    requires from <= |haystack|
    ensures r.Some? ==> IsFirst(haystack, needle, from, r.value)
    ensures r.None? ==> forall j: nat :: from <= j ==> !OccursAt(haystack, needle, j)
  {
    var i := from;
    while i + |needle| <= |haystack|
      invariant from <= i
      invariant forall j: nat :: from <= j < i ==> !OccursAt(haystack, needle, j)
    {
      if haystack[i..i + |needle|] == needle {
        return Some(i);
      }
      i := i + 1;
    }
    r := None;
  }

  method StrStrRev(haystack: string, needle: string) returns (r: Option<nat>)
    ensures needle == "" ==> r == Some(0)
    ensures needle != "" && r.Some? ==> IsLast(haystack, needle, r.value)
    ensures needle != "" && r.None? ==> forall j: nat :: !OccursAt(haystack, needle, j)
  {
    if needle == "" {
      return Some(0);
    }
    r := None;
    var from := 0;
    while true
      invariant from <= |haystack|
      invariant r.Some? ==> OccursAt(haystack, needle, r.value) && from == r.value + 1
      invariant r.None? ==> from == 0
      decreases |haystack| - from
    {
      var p := StrStr(haystack, needle, from);
      if p.None? {
        break;
      }
      assert |needle| > 0;
      r := p;
      from := p.value + 1;
    }
  }

  /** `name` is what follows the last slash of `path`. */
  ghost predicate IsBaseName(path: string, name: string) {
    '/' !in name && |name| < |path| && path[|path| - |name| - 1] == '/' && path[|path| - |name|..] == name
  }

  /** That name, or all of a path without slashes. */
  function BaseName(path: string): (name: string)
    ensures '/' in path ==> IsBaseName(path, name)
  {
    if path == "" || path[|path| - 1] == '/' then ""
    else BaseName(path[..|path| - 1]) + [path[|path| - 1]]
  }

  lemma AfterLastSlash(path: string, k: nat)
    requires IsLast(path, "/", k)
    ensures IsBaseName(path, path[k + 1..])
    ensures forall name :: IsBaseName(path, name) ==> name == path[k + 1..]
  {
    var rest := path[k + 1..];
    assert path[k..k + 1] == "/";
    assert path[k] == '/';
    forall i | 0 <= i < |rest| ensures rest[i] != '/' {
      assert !OccursAt(path, "/", k + 1 + i);
      assert path[k + 1 + i..k + 1 + i + 1] == [rest[i]];
    }
    forall name | IsBaseName(path, name) ensures name == rest {
      OneBaseName(path, name, rest);
    }
  }

  lemma OneBaseName(path: string, a: string, b: string)
    requires IsBaseName(path, a) && IsBaseName(path, b)
    ensures a == b
  {
    forall i | |path| - |a| <= i < |path| ensures path[i] != '/' {
      assert path[i] == a[i - (|path| - |a|)];
    }
    forall i | |path| - |b| <= i < |path| ensures path[i] != '/' {
      assert path[i] == b[i - (|path| - |b|)];
    }
  }

  lemma SlashOccurs(path: string)
    ensures '/' in path <==> exists j: nat :: OccursAt(path, "/", j)
  {
    if '/' in path {
      var j: nat :| j < |path| && path[j] == '/';
      assert path[j..j + 1] == "/";
      assert OccursAt(path, "/", j);
    }
    if j: nat :| OccursAt(path, "/", j) {
      assert path[j..j + 1][0] == '/';
    }
  }
}
