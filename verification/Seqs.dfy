/** Equalities between concatenations, proved once so that larger proofs need not search for them. */
module Seqs {
  lemma Assoc<T>(a: seq<T>, b: seq<T>, c: seq<T>)
    ensures a + (b + c) == a + b + c
  {
  }

  lemma HeadTail<T>(s: seq<T>)
    requires |s| > 0
    ensures [s[0]] + s[1..] == s
  {
  }

  lemma InitLast<T>(s: seq<T>)
    requires |s| > 0
    ensures s[..|s| - 1] + [s[|s| - 1]] == s
  {
  }

  lemma TakeMore<T>(s: seq<T>, k: nat, n: nat)
    requires k + n <= |s|
    ensures s[..k] + s[k..k + n] == s[..k + n]
  {
  }

  /** Two parts of four in front of others. */
  lemma FourAndFour<T>(a: seq<T>, b: seq<T>, c: seq<T>, d: seq<T>)
    requires |a| == 4 && |b| == 4
    ensures var s := a + b + c + d; s[..4] == a && s[4..8] == b && s[8..] == c + d
  {
  }

  lemma TakeDrop<T>(s: seq<T>, n: nat)
    requires n <= |s|
    ensures s[..n] + s[n..] == s
  {
  }

  lemma DropDrop<T>(s: seq<T>, i: nat, j: nat)
    requires i + j <= |s|
    ensures s[i..][j..] == s[i + j..]
  {
  }

  lemma DropAppend<T>(s: seq<T>, i: nat, x: T)
    requires i <= |s|
    ensures (s + [x])[i..] == s[i..] + [x]
  {
  }

  lemma TakeNext<T>(s: seq<T>, i: nat)
    requires i < |s|
    ensures s[..i + 1] == s[..i] + [s[i]] && s[..i + 1][..i] == s[..i]
  {
  }

  lemma TakeAll<T>(s: seq<T>)
    ensures s[..|s|] == s && s[..0] == []
  {
  }

  lemma InitOfAppend<T>(s: seq<T>, x: T)
    ensures (s + [x])[..|s|] == s
  {
  }

  lemma EmptyRight<T>(s: seq<T>)
    ensures s + [] == s
  {
  }

  lemma EmptyLeft<T>(s: seq<T>)
    ensures [] + s == s
  {
  }
}
