/** Facts about sums and slices of sequences. */
module Sequences {
  lemma Regroup<T>(a: seq<T>, b: seq<T>, c: seq<T>)
    ensures a + (b + c) == (a + b) + c
  {}

  lemma CutTwice<T>(s: seq<T>, n: nat, m: nat)
    requires n + m <= |s|
    ensures s[n..][..m] == s[n..n + m] && s[n..][m..] == s[n + m..] && s[..n] + s[n..][..m] == s[..n + m]
  {}

  lemma CutOnce<T>(s: seq<T>, n: nat)
    requires n <= |s|
    ensures s[..n] + s[n..] == s
  {}

  lemma SliceOfPrefix<T>(s: seq<T>, end: nat, a: nat, b: nat)
    requires a <= b <= end <= |s|
    ensures s[..end][a..b] == s[a..b] && s[..end][..a] == s[..a] && s[..end][b..] == s[b..end]
  {}

  lemma DropOfSum<T>(s: seq<T>, t: seq<T>, n: nat)
    requires n <= |s|
    ensures (s + t)[n..] == s[n..] + t
  {}

  lemma SliceOfSum<T>(s: seq<T>, p: seq<T>, a: nat, n: nat)
    requires a <= |s| && n <= |s| - a + |p|
    ensures s[..a] + (s[a..] + p)[..n] == (s + p)[..a + n]
    ensures (s[a..] + p)[n..] == (s + p)[a + n..]
  {
    assert (s + p)[a..] == s[a..] + p;
    assert (s + p)[..a] == s[..a];
    CutTwice(s + p, a, n);
  }
}
