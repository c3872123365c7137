/** Paths of keys, in the route trie and in JSON documents. */
module Paths {
  lemma AppendIsInjective(p: seq<string>, j: string, q: seq<string>, k: string)
    ensures p + [j] == q + [k] <==> p == q && j == k
  {
    assert (p + [j])[..|p|] == p && (p + [j])[|p|] == j;
    assert (q + [k])[..|q|] == q && (q + [k])[|q|] == k;
  }
}
