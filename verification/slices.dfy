/** Facts about parts of sequences that the buffer loops share. */
module Slices {

  lemma SliceOfSlice<T>(s: seq<T>, at: nat, n: nat, lo: nat, hi: nat)
    requires at + n <= |s| && lo <= hi <= n
    ensures s[at..at + n][lo..hi] == s[at + lo..at + hi]
  {
    var part := s[at..at + n];
    forall k: nat | k < hi - lo
      ensures part[lo..hi][k] == s[at + lo..at + hi][k]
    {
      assert part[lo + k] == s[at + lo + k];
    }
  }

  lemma Extend<T>(s: seq<T>, at: nat, n: nat, m: nat)
    requires at + n + m <= |s|
    ensures s[at..at + n + m] == s[at..at + n] + s[at + n..at + n + m]
  {
  }

  lemma SameSlice<T>(s: seq<T>, t: seq<T>, lo: nat, hi: nat)
    requires |s| == |t| && lo <= hi <= |s| && forall j :: lo <= j < hi ==> s[j] == t[j]
    ensures s[lo..hi] == t[lo..hi]
  {
  }

  /** A stretch written behind one that stays. */
  lemma Appended<T>(was: seq<T>, now: seq<T>, at: nat, n: nat, m: nat, kept: seq<T>, written: seq<T>)
    requires |was| == |now| && at + n + m <= |now|
    requires was[at..at + n] == kept && forall j :: at <= j < at + n ==> was[j] == now[j]
    requires now[at + n..at + n + m] == written
    ensures now[at..at + n + m] == kept + written
  {
    SameSlice(was, now, at, at + n);
    Extend(now, at, n, m);
  }
}
