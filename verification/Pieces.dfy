/** An input cut into pieces. */
module Pieces {

  import opened Bits

  function Concat(chunks: seq<seq<U8>>): seq<U8>
  {
    if chunks == [] then [] else Concat(chunks[..|chunks| - 1]) + chunks[|chunks| - 1]
  }

  lemma ConcatNone(chunks: seq<seq<U8>>)
    ensures Concat(chunks[..0]) == []
  {
  }

  lemma ConcatNext(chunks: seq<seq<U8>>, i: nat)
    requires i < |chunks|
    ensures Concat(chunks[..i + 1]) == Concat(chunks[..i]) + chunks[i]
  {
    assert chunks[..i + 1][..i] == chunks[..i];
  }

  /** The same, from the front. */
  function Joined(units: seq<seq<U8>>): seq<U8>
  {
    if units == [] then [] else units[0] + Joined(units[1..])
  }

  lemma SuffixOfSum(s: seq<U8>, t: seq<U8>, p: nat)
    requires p <= |t|
    ensures (s + t)[|s| + p..] == t[p..]
  {
  }

  lemma PrefixOfSum(s: seq<U8>, t: seq<U8>, from: nat, p: nat)
    requires from <= |s| && p <= |t|
    ensures (s + t)[from..|s| + p] == s[from..] + t[..p]
    ensures p == |t| ==> (s + t)[from..] == s[from..] + t
  {
  }
}
