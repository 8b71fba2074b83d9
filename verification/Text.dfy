/** Searching in strings, in the manner of `std::string_view::find`: a search that fails answers the length. */
module Text {

  datatype Option<+T> = None | Some(value: T)

  /** No character of `s` is in `cs`. */
  predicate Free(s: string, cs: set<char>) {
    forall j :: 0 <= j < |s| ==> s[j] !in cs
  }

  /** Position of the first character of `s` that is in `cs`, or `|s|`. */
  function IndexOfAny(s: string, cs: set<char>): (i: nat)
    ensures i <= |s|
    ensures i < |s| ==> s[i] in cs
    ensures forall j :: 0 <= j < i ==> s[j] !in cs
    ensures i == |s| <==> Free(s, cs)
  {
    if s == "" then 0
    else if s[0] in cs then 0
    else
      var i := 1 + IndexOfAny(s[1..], cs);
      assert forall j :: 0 < j < |s| ==> s[j] == s[1..][j - 1];
      i
  }

  /** The search of `a + b` stops at the start of `b` when `a` has none of `cs` and `b` begins with one. */
  lemma IndexAfter(a: string, b: string, cs: set<char>)
    requires Free(a, cs)
    requires b != "" ==> b[0] in cs
    ensures IndexOfAny(a + b, cs) == |a|
  {
    assert forall j :: 0 <= j < |a| ==> (a + b)[j] == a[j];
    assert b != "" ==> (a + b)[|a|] == b[0];
  }

  lemma FreeConcat(a: string, b: string, cs: set<char>)
    ensures Free(a + b, cs) <==> Free(a, cs) && Free(b, cs)
  {
    if Free(a + b, cs) {
      forall j | 0 <= j < |a| ensures a[j] !in cs { assert (a + b)[j] == a[j]; }
      forall j | 0 <= j < |b| ensures b[j] !in cs { assert (a + b)[|a| + j] == b[j]; }
    }
  }

  lemma Reassociate(a: string, b: string, c: string, d: string, e: string)
    ensures a + b + c + d + e == a + (b + (c + (d + e)))
  {
  }

  lemma Associate(a: string, b: string, c: string)
    ensures a + b + c == a + (b + c)
  {
  }

  /** Cutting a concatenation where it was joined, and one character further. */
  lemma CutConcat(a: string, b: string)
    ensures (a + b)[..|a|] == a && (a + b)[|a|..] == b
    ensures b != "" ==> (a + b)[|a|] == b[0] && (a + b)[|a| + 1..] == b[1..]
  {
  }

  /** A prefix that reaches into the second part. */
  lemma PrefixConcat(a: string, b: string, n: nat)
    requires |a| <= n <= |a| + |b|
    ensures (a + b)[..n] == a + b[..n - |a|]
  {
  }

  lemma Parted(s: string, i: nat)
    requires i <= |s|
    ensures s == s[..i] + s[i..]
  {
  }

  /** A slice of a suffix, and what is behind the character after it. */
  lemma Slices(s: string, i: nat, n: nat)
    requires i <= n < |s|
    ensures s[i..][..n - i] == s[i..n] && s[i..][n - i + 1..] == s[n + 1..]
  {
  }

  /** Always true. A predicate whose definition is stated for `Look(k)` stays folded in proofs that do not
      mention `Look(k)`, which keeps them small. */
  ghost predicate Look(k: nat) { true }
}
