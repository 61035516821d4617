/**
 * The uniform random picker: Build copies the ready SubConns into a slice;
 * Pick returns the entry at a random index. rand.Intn(len) is the parameter
 * draw of Pick.
 */
module RandomBalancer {
  import opened Balancer

  datatype Picker = Picker(subConns: seq<SubConn>)

  /** rPickerBuilder.Build: one entry per ready SubConn, in snapshot order. */
  method Build(readySCs: seq<ReadySubConn>) returns (p: Picker)
    ensures |p.subConns| == |readySCs|
    ensures forall i :: 0 <= i < |readySCs| ==> p.subConns[i] == readySCs[i].conn
  {
    var scs: seq<SubConn> := [];
    for k := 0 to |readySCs|
      invariant |scs| == k
      invariant forall i :: 0 <= i < k ==> scs[i] == readySCs[i].conn
    {
      scs := scs + [readySCs[k].conn];
    }
    p := Picker(scs);
  }

  /**
   * rPicker.Pick: ErrNoSubConnAvailable exactly when the picker is empty;
   * otherwise the SubConn at the drawn index, which is one of the picker's.
   */
  function Pick(p: Picker, draw: int): (r: PickResult)
    requires |p.subConns| > 0 ==> 0 <= draw < |p.subConns|
    ensures r == ErrNoSubConnAvailable <==> |p.subConns| == 0
    ensures r != ErrNoSubConnAvailable ==> r.Picked? && r.sc in p.subConns
  {
    if |p.subConns| <= 0 then ErrNoSubConnAvailable else Picked(p.subConns[draw])
  }

  /** The number of indices of s holding sc is the multiplicity of sc in s. */
  lemma {:induction false} IndicesOf(s: seq<SubConn>, sc: SubConn)
    ensures |set k | 0 <= k < |s| && s[k] == sc| == multiset(s)[sc]
  {
    if s != [] {
      var n := |s| - 1;
      IndicesOf(s[..n], sc);
      assert s == s[..n] + [s[n]];
      var before := set k | 0 <= k < n && s[..n][k] == sc;
      var all := set k | 0 <= k < |s| && s[k] == sc;
      if s[n] == sc {
        assert all == before + {n};
      } else {
        assert all == before;
      }
    }
  }

  /**
   * Uniformity: of the |subConns| equally likely draws, exactly as many pick
   * sc as the picker holds copies of it (one, for a snapshot of distinct
   * SubConns).
   */
  lemma PickChances(p: Picker, sc: SubConn)
    requires |p.subConns| > 0
    ensures |set k | 0 <= k < |p.subConns| && Pick(p, k) == Picked(sc)| == multiset(p.subConns)[sc]
  {
    IndicesOf(p.subConns, sc);
    assert (set k | 0 <= k < |p.subConns| && Pick(p, k) == Picked(sc)) ==
           (set k | 0 <= k < |p.subConns| && p.subConns[k] == sc);
  }
}
