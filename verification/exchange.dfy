/** `std::swap` of two positions of a vector, as a pure function on sequences. */
module SeqExchange {
  import opened Transposition

  /** The sequence `s` with the values at positions `p` and `q` exchanged.
      Position `k` of the result holds what position (p q)(k) held before. */
  function Exchange<T>(s: seq<T>, p: nat, q: nat): (r: seq<T>)
    requires p < |s| && q < |s|
    ensures |r| == |s|
    ensures forall k :: 0 <= k < |s| ==> r[k] == s[Swap(p, q, k)]
    ensures multiset(r) == multiset(s)
  {
    s[p := s[q]][q := s[p]]
  }

  /** Exchanging the same two positions twice restores the sequence. */
  lemma ExchangeInvolutive<T>(s: seq<T>, p: nat, q: nat)
    requires p < |s| && q < |s|
    ensures Exchange(Exchange(s, p, q), p, q) == s
  {
    var r := Exchange(Exchange(s, p, q), p, q);
    forall k | 0 <= k < |s|
      ensures r[k] == s[k]
    {
      SwapInvolutive(p, q, k);
    }
  }
}
