/** Slice equalities on sequences, each stated once so that the proofs
    about buffers and bit strings can cite it instead of rediscovering it. */
module Seqs {

  lemma SplitAt<T>(d: seq<T>, k: nat)
    requires k < |d|
    ensures d[..k + 1] == d[..k] + [d[k]] && d == d[..k + 1] + d[k + 1..]
  {
  }

  lemma Snoc<T>(s: seq<T>)
    requires s != []
    ensures s == s[..|s| - 1] + [s[|s| - 1]]
  {
  }

  lemma UpdateSlices<T>(d: seq<T>, k: nat, x: T)
    requires k < |d|
    ensures d[k := x][..k] == d[..k] && d[k := x][k + 1..] == d[k + 1..] && d[k := x][k] == x
  {
  }

  lemma Parts<T>(x: seq<T>, y: seq<T>)
    ensures (x + y)[..|x|] == x && (x + y)[|x|..] == y
  {
  }

  lemma Slices2<T>(s: seq<T>, i: nat, j: nat, k: nat)
    requires i <= j <= k <= |s|
    ensures s[i..k] == s[i..j] + s[j..k]
  {
  }

  lemma Slices3<T>(x: seq<T>, y: seq<T>, z: seq<T>)
    ensures (x + y + z)[..|x|] == x && (x + y + z)[|x|..|x| + |y|] == y
    ensures (x + y + z)[|x| + |y|..] == z
  {
  }

  /** The `n` elements at `at` of a slice starting at `q`. */
  lemma SubSlice<T>(s: seq<T>, q: nat, len: nat, i: nat, n: nat, at: nat)
    requires q + len <= |s| && i + n <= len && at == q + i
    ensures s[at..at + n] == s[q..q + len][i..i + n]
  {
    var a, b := s[at..at + n], s[q..q + len][i..i + n];
    forall j | 0 <= j < n
      ensures a[j] == b[j]
    {
    }
  }

  lemma AssocRight<T>(a: seq<T>, b: seq<T>, c: seq<T>)
    ensures a + (b + c) == a + b + c
  {
  }

  lemma Assoc<T>(a: seq<T>, b: seq<T>, c: seq<T>, d: seq<T>)
    ensures a + b + c + d == a + (b + c) + d
  {
  }

  /** Where `s` is `s0` with `m` written at `i`, the parts outside agree. */
  lemma Regions<T>(s: seq<T>, s0: seq<T>, i: nat, m: seq<T>, k: nat)
    requires i + |m| + k <= |s0|
    requires s == s0[..i] + m + s0[i + |m|..]
    ensures s[..i + |m|] == s0[..i] + m
    ensures s[i + |m| + k..] == s0[i + |m| + k..]
  {
  }

  /** Writing `m` at `i` leaves every slice that misses `[i, i+|m|)` alone. */
  lemma Outside<T>(s: seq<T>, s0: seq<T>, i: nat, m: seq<T>, j: nat, n: nat)
    requires i + |m| <= |s0| && j + n <= |s0|
    requires j + n <= i || i + |m| <= j
    requires s == s0[..i] + m + s0[i + |m|..]
    ensures s[j..j + n] == s0[j..j + n]
  {
    var a, b := s[j..j + n], s0[j..j + n];
    forall t | 0 <= t < n
      ensures a[t] == b[t]
    {
    }
  }
}
