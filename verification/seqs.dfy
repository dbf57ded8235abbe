/** Facts about index sequences shared by the classifier, the normaliser and the detector. */
module Seqs {

  /** Each element is smaller than every later one. */
  predicate StrictlyIncreasing(s: seq<nat>) {
    forall j, k :: 0 <= j < k < |s| ==> s[j] < s[k]
  }

  /** The positions at or after `i` where `flags` holds, in increasing order. */
  function TruePositionsFrom(flags: seq<bool>, i: nat): (r: seq<nat>)
    requires i <= |flags|
    ensures forall j :: 0 <= j < |r| ==> i <= r[j] < |flags| && flags[r[j]]
    ensures StrictlyIncreasing(r)
    ensures forall n :: i <= n < |flags| && flags[n] ==> n in r
    decreases |flags| - i
  {
    if i == |flags| then []
    else
      var rest := TruePositionsFrom(flags, i + 1);
      if flags[i] then [i] + rest else rest
  }

  /** A prefix extended by the slice that follows it. */
  lemma PrefixThenSlice<T>(s: seq<T>, i: nat, j: nat)
    requires i <= j <= |s|
    ensures s[..j] == s[..i] + s[i..j]
  {
  }

  /** Dropping `i` elements from the first `j` leaves the slice between them. */
  lemma SuffixOfPrefix<T>(s: seq<T>, i: nat, j: nat)
    requires i <= j <= |s|
    ensures |s[..i]| == i && s[..j][i..] == s[i..j]
  {
  }

  /** What the prefix `s[..j]` adds to the prefix `s[..i]` is the slice `s[i..j]`. */
  lemma DifferenceOfPrefixes<T>(s: seq<T>, a: seq<T>, b: seq<T>, i: nat, j: nat)
    requires i <= j <= |s| && a == s[..i] && b == s[..j]
    ensures |a| <= |b| && b[|a|..] == s[i..j]
  {
    SuffixOfPrefix(s, i, j);
  }

  /** A strictly increasing sequence is monotone. */
  lemma IncreasingIsMonotone(s: seq<nat>, i: nat, j: nat)
    requires StrictlyIncreasing(s) && i <= j < |s|
    ensures s[i] <= s[j]
  {
  }

  /** A suffix splits into three consecutive slices. */
  lemma SplitSuffix<T>(s: seq<T>, a: nat, b: nat, c: nat)
    requires a <= b <= c <= |s|
    ensures s[a..] == s[a..b] + (s[b..c] + s[c..])
  {
  }

  /** The head and the tail of a concatenation whose first part is non-empty. */
  lemma ConcatTail<T>(a: seq<T>, b: seq<T>)
    requires a != []
    ensures (a + b)[0] == a[0] && (a + b)[1..] == a[1..] + b
  {
  }

  /** Concatenation regroups freely. */
  lemma AppendAssoc<T>(a: seq<T>, b: seq<T>, c: seq<T>)
    ensures (a + b) + c == a + (b + c)
  {
  }
}
