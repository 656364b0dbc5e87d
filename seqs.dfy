/** Facts about slices of sequences, kept apart so that proofs with many
    sequences in scope can use them without re-deriving them. */
module Seqs {

  lemma PrefixStep<T>(s: seq<T>, i: nat)
    requires i < |s|
    ensures s[..i + 1][..i] == s[..i]
    ensures s[..i + 1] == s[..i] + [s[i]]
  {
  }

  lemma WholeSlice<T>(s: seq<T>)
    ensures s[..|s|] == s
  {
  }

  lemma HeadTail<T>(s: seq<T>)
    requires s != []
    ensures s == [s[0]] + s[1..]
  {
  }

  lemma AppendInit<T>(a: seq<T>, b: seq<T>)
    requires b != []
    ensures (a + b)[..|a + b| - 1] == a + b[..|b| - 1]
    ensures (a + b)[|a + b| - 1] == b[|b| - 1]
  {
  }

  lemma InitTail<T>(s: seq<T>)
    requires |s| > 1
    ensures s[..|s| - 1][0] == s[0]
    ensures s[..|s| - 1][1..] == s[1..][..|s| - 2]
    ensures s[1..][|s| - 2] == s[|s| - 1]
  {
  }
}
