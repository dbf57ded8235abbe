/** The handful of Python string operations the checker relies on, over `string = seq<char>`. */
module Text {
  import opened Seqs

  /** `ord(c) < 128`. */
  predicate IsAscii(c: char) {
    c as int < 128
  }

  /** `c.isalnum()` for an ASCII character: a digit or a Latin letter. */
  predicate IsAsciiAlnum(c: char) {
    ('0' <= c <= '9') || ('a' <= c <= 'z') || ('A' <= c <= 'Z')
  }

  /** The ideograph range the Chinese-ratio test counts, U+4E00..U+9FFF. */
  predicate IsCjk(c: char) {
    0x4E00 <= c as int <= 0x9FFF
  }

  /** The narrower class `[一-龥]` the detector searches a token for. */
  predicate IsCjkNarrow(c: char) {
    0x4E00 <= c as int <= 0x9FA5
  }

  /** `s.startswith(prefix)`. */
  predicate StartsWith(s: string, prefix: string) {
    |prefix| <= |s| && s[..|prefix|] == prefix
  }

  /** `sub` occurs in `s` starting at offset `i`. */
  predicate MatchesAt(s: string, sub: string, i: nat) {
    i + |sub| <= |s| && s[i..i + |sub|] == sub
  }

  /** `sub` is a substring of `s` (the empty string is a substring of every string). */
  ghost predicate Occurs(s: string, sub: string) {
    exists i: nat :: MatchesAt(s, sub, i)
  }

  /** `s.find(sub, i)`: the first match at or after `i`, or -1. */
  function FindFrom(s: string, sub: string, i: nat): (r: int)
    requires i <= |s|
    ensures r == -1 || (i <= r && MatchesAt(s, sub, r))
    ensures r == -1 ==> forall k: nat :: i <= k ==> !MatchesAt(s, sub, k)
    ensures r != -1 ==> forall k: nat :: i <= k < r ==> !MatchesAt(s, sub, k)
    decreases |s| - i
  {
    if i + |sub| > |s| then -1
    else if s[i..i + |sub|] == sub then i
    else FindFrom(s, sub, i + 1)
  }

  /** `s.find(sub)`: -1 exactly when `sub` does not occur in `s`. */
  function Find(s: string, sub: string): (r: int)
    ensures r == -1 <==> !Occurs(s, sub)
    ensures r != -1 ==> 0 <= r && MatchesAt(s, sub, r)
  {
    FindFrom(s, sub, 0)
  }

  /** Length of the longest prefix of `s` made of characters of `cs`. */
  function LeadingIn(s: string, cs: set<char>): (n: nat)
    ensures n <= |s|
    ensures forall k :: 0 <= k < n ==> s[k] in cs
    ensures n < |s| ==> s[n] !in cs
  {
    if |s| == 0 || s[0] !in cs then 0 else 1 + LeadingIn(s[1..], cs)
  }

  /** Length of the longest suffix of `s` made of characters of `cs`. */
  function TrailingIn(s: string, cs: set<char>): (n: nat)
    ensures n <= |s|
    ensures forall k :: |s| - n <= k < |s| ==> s[k] in cs
    ensures n < |s| ==> s[|s| - 1 - n] !in cs
  {
    if |s| == 0 || s[|s| - 1] !in cs then 0 else 1 + TrailingIn(s[..|s| - 1], cs)
  }

  /**
   * `s.strip(chars)`: the infix of `s` left after removing every leading and
   * trailing character of `cs`; only characters of `cs` are removed.
   */
  function Strip(s: string, cs: set<char>): (r: string)
    ensures var a := LeadingIn(s, cs);
      && a + |r| <= |s|
      && r == s[a..a + |r|]
      && (forall k :: 0 <= k < a ==> s[k] in cs)
      && (forall k :: a + |r| <= k < |s| ==> s[k] in cs)
    ensures r != [] ==> r[0] !in cs && r[|r| - 1] !in cs
    ensures r == [] <==> forall k :: 0 <= k < |s| ==> s[k] in cs
  {
    var a := LeadingIn(s, cs);
    var t := s[a..];
    t[..|t| - TrailingIn(t, cs)]
  }

  /** `s.replace(c, '')` chained over every `c` in `cs`. */
  function RemoveAll(s: string, cs: set<char>): (r: string)
    ensures |r| <= |s|
    ensures forall k :: 0 <= k < |r| ==> r[k] !in cs
    ensures forall c :: c !in cs ==> multiset(r)[c] == multiset(s)[c]
  {
    if s == [] then []
    else
      assert s == [s[0]] + s[1..];
      (if s[0] in cs then [] else [s[0]]) + RemoveAll(s[1..], cs)
  }

  /** Removing characters keeps the order of the rest: it distributes over concatenation. */
  lemma {:induction false} RemoveAllConcat(a: string, b: string, cs: set<char>)
    ensures RemoveAll(a + b, cs) == RemoveAll(a, cs) + RemoveAll(b, cs)
    decreases |a|
  {
    if a == [] {
      assert a + b == b;
    } else {
      RemoveAllConcat(a[1..], b, cs);
      var h := if a[0] in cs then [] else [a[0]];
      ConcatTail(a, b);
      assert RemoveAll(a + b, cs) == h + RemoveAll(a[1..] + b, cs);
      assert RemoveAll(a, cs) == h + RemoveAll(a[1..], cs);
      AppendAssoc(h, RemoveAll(a[1..], cs), RemoveAll(b, cs));
    }
  }

  /** On one character, removal keeps it exactly when it is not among the removed ones. */
  lemma RemoveAllOne(c: char, cs: set<char>)
    ensures RemoveAll([c], cs) == if c in cs then [] else [c]
  {
  }

  /** Number of characters of `s` in the U+4E00..U+9FFF range. */
  function CountCjk(s: string): (n: nat)
    ensures n <= |s|
    ensures n == 0 <==> forall k :: 0 <= k < |s| ==> !IsCjk(s[k])
  {
    if s == [] then 0
    else (if IsCjk(s[0]) then 1 else 0) + CountCjk(s[1..])
  }

  /** The count distributes over concatenation. */
  lemma {:induction false} CountCjkConcat(a: string, b: string)
    ensures CountCjk(a + b) == CountCjk(a) + CountCjk(b)
    decreases |a|
  {
    if a == [] {
      assert a + b == b;
    } else {
      CountCjkConcat(a[1..], b);
      ConcatTail(a, b);
    }
  }

  /** One character counts one exactly when it is in the ideograph range. */
  lemma CountCjkOne(c: char)
    ensures CountCjk([c]) == if IsCjk(c) then 1 else 0
  {
  }

  /** Python's `s[a:b]` for non-negative bounds: both bounds are clamped to `len(s)`. */
  function PySlice(s: string, a: nat, b: nat): (r: string)
    ensures a <= b <= |s| ==> r == s[a..b]
    ensures a <= |s| <= b ==> r == s[a..]
    ensures b <= a || |s| <= a ==> r == []
  {
    var hi := if b <= |s| then b else |s|;
    if a < hi then s[a..hi] else []
  }
}
