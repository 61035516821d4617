/**
 * The consistent-hash ("ketama") picker: Build places every ready SubConn
 * at DefaultReplicas ring positions, each the CRC-32 checksum of the
 * decimal replica index followed by the address; Pick binary-searches the
 * sorted ring for the call's routing hint and looks the position up.
 *
 * CRC-32 is the parameter crc (any function into [0, 2^32)); the routing
 * hint is the list of values the incoming call metadata holds under
 * DefaultKetamaKey (empty when there is none).
 */
module Ketama {
  import opened Text
  import opened Balancer

  const DefaultKetamaKey := "_grpclb-ketama-key"
  const DefaultReplicas := 10

  /** A CRC-32 checksum, converted to Go's (64-bit) int. */
  type Checksum = x: int | 0 <= x < 0x1_0000_0000

  ghost predicate Sorted(s: seq<int>)
  {
    forall i, j :: 0 <= i < j < |s| ==> s[i] <= s[j]
  }

  /** The picker: the hash-to-SubConn map and the sorted ring of hashes. */
  datatype Picker = Picker(subConns: map<int, SubConn>, connHashs: seq<int>)
  {
    /** What Build establishes: the ring is sorted and the map's keys are exactly its hashes. */
    ghost predicate Valid()
    {
      Sorted(connHashs) && subConns.Keys == set h | h in connHashs
    }
  }

  // ---------------------------------------------------------------------------
  // The ring, as a function of the snapshot

  /** The ring positions of one address, replica 0 first. */
  function ReplicaHashes(addr: string, crc: string -> Checksum): (hs: seq<int>)
    ensures |hs| == DefaultReplicas
  {
    seq(DefaultReplicas, i => crc(Itoa(i) + addr))
  }

  /** All ring hashes in the order Build appends them, collisions included. */
  function RingHashes(readySCs: seq<ReadySubConn>, crc: string -> Checksum): (hs: seq<int>)
    ensures |hs| == DefaultReplicas * |readySCs|
  {
    if readySCs == [] then []
    else
      var n := |readySCs| - 1;
      RingHashes(readySCs[..n], crc) + ReplicaHashes(readySCs[n].address.addr, crc)
  }

  /** Every hash of hs owned by sc. */
  function Owned(hs: seq<int>, sc: SubConn): map<int, SubConn>
  {
    map h | h in hs :: sc
  }

  lemma OwnedSnoc(m: map<int, SubConn>, hs: seq<int>, h: int, sc: SubConn)
    ensures (m + Owned(hs, sc))[h := sc] == m + Owned(hs + [h], sc)
  {
  }

  /** The hash-to-SubConn map Build writes: on a collision the later write wins. */
  function RingOwners(readySCs: seq<ReadySubConn>, crc: string -> Checksum): map<int, SubConn>
  {
    if readySCs == [] then map[]
    else
      var n := |readySCs| - 1;
      RingOwners(readySCs[..n], crc) + Owned(ReplicaHashes(readySCs[n].address.addr, crc), readySCs[n].conn)
  }

  /** The map Build writes has exactly the ring hashes as keys. */
  lemma {:induction false} RingOwnersKeys(readySCs: seq<ReadySubConn>, crc: string -> Checksum)
    ensures RingOwners(readySCs, crc).Keys == set h | h in RingHashes(readySCs, crc)
  {
    if readySCs != [] {
      var n := |readySCs| - 1;
      RingOwnersKeys(readySCs[..n], crc);
      var before := RingHashes(readySCs[..n], crc);
      var mine := ReplicaHashes(readySCs[n].address.addr, crc);
      assert RingHashes(readySCs, crc) == before + mine;
      assert (set h | h in before + mine) == (set h | h in before) + (set h | h in mine);
    }
  }

  /** Every ring hash is the checksum of some replica index in [0, 10) followed by some ready address, and conversely. */
  lemma {:induction false} RingHashOrigin(readySCs: seq<ReadySubConn>, crc: string -> Checksum, h: int)
    ensures h in RingHashes(readySCs, crc) <==>
            exists k, i :: 0 <= k < |readySCs| && 0 <= i < DefaultReplicas && h == crc(Itoa(i) + readySCs[k].address.addr)
  {
    if readySCs != [] {
      var n := |readySCs| - 1;
      RingHashOrigin(readySCs[..n], crc, h);
      var mine := ReplicaHashes(readySCs[n].address.addr, crc);
      assert RingHashes(readySCs, crc) == RingHashes(readySCs[..n], crc) + mine;
      if h in RingHashes(readySCs, crc) {
        if h in mine {
          var i :| 0 <= i < DefaultReplicas && mine[i] == h;
          assert h == crc(Itoa(i) + readySCs[n].address.addr);
        } else {
          var k, i :| 0 <= k < n && 0 <= i < DefaultReplicas && h == crc(Itoa(i) + readySCs[..n][k].address.addr);
          assert readySCs[..n][k] == readySCs[k];
        }
      }
      if exists k, i :: 0 <= k < |readySCs| && 0 <= i < DefaultReplicas && h == crc(Itoa(i) + readySCs[k].address.addr) {
        var k, i :| 0 <= k < |readySCs| && 0 <= i < DefaultReplicas && h == crc(Itoa(i) + readySCs[k].address.addr);
        if k == n {
          assert mine[i] == h;
        } else {
          assert readySCs[..n][k] == readySCs[k];
        }
      }
    }
  }

  /**
   * The owner of a ring hash is the SubConn of the LAST ready address one of
   * whose replicas hashes to it.
   */
  lemma {:induction false} RingOwnerIsLastWriter(readySCs: seq<ReadySubConn>, crc: string -> Checksum, k: nat)
    requires k < |readySCs|
    ensures forall h :: h in ReplicaHashes(readySCs[k].address.addr, crc) &&
                        (forall k' :: k < k' < |readySCs| ==> h !in ReplicaHashes(readySCs[k'].address.addr, crc))
                        ==> h in RingOwners(readySCs, crc) && RingOwners(readySCs, crc)[h] == readySCs[k].conn
  {
    var n := |readySCs| - 1;
    if k < n {
      RingOwnerIsLastWriter(readySCs[..n], crc, k);
      assert readySCs[..n][k] == readySCs[k];
      forall k' | k < k' < n ensures readySCs[..n][k'] == readySCs[k'] { }
    }
  }

  /** Every SubConn the map holds is one of the ready SubConns. */
  lemma {:induction false} RingOwnersFromReady(readySCs: seq<ReadySubConn>, crc: string -> Checksum, h: int)
    requires h in RingOwners(readySCs, crc)
    ensures exists k :: 0 <= k < |readySCs| && RingOwners(readySCs, crc)[h] == readySCs[k].conn
  {
    var n := |readySCs| - 1;
    var mine := ReplicaHashes(readySCs[n].address.addr, crc);
    if h !in mine {
      RingOwnersFromReady(readySCs[..n], crc, h);
      var k :| 0 <= k < n && RingOwners(readySCs[..n], crc)[h] == readySCs[..n][k].conn;
      assert readySCs[..n][k] == readySCs[k];
    }
  }

  // ---------------------------------------------------------------------------
  // sort.Ints

  lemma SortedCons(h: int, t: seq<int>)
    requires Sorted(t)
    requires forall k :: 0 <= k < |t| ==> h <= t[k]
    ensures Sorted([h] + t)
  {
    var r := [h] + t;
    forall i, j | 0 <= i < j < |r| ensures r[i] <= r[j] {
      assert r[j] == t[j - 1];
      if i > 0 { assert r[i] == t[i - 1]; }
    }
  }

  /** A lower bound of s and of x bounds every element of a rearrangement of s plus x. */
  lemma LowerBound(h: int, x: int, s: seq<int>, t: seq<int>)
    requires multiset(t) == multiset(s) + multiset{x}
    requires h <= x
    requires forall k :: 0 <= k < |s| ==> h <= s[k]
    ensures forall k :: 0 <= k < |t| ==> h <= t[k]
  {
    forall k | 0 <= k < |t| ensures h <= t[k] {
      assert t[k] in multiset(t);
      if t[k] != x {
        assert t[k] in multiset(s);
      }
    }
  }

  function Insert(x: int, s: seq<int>): (r: seq<int>)
    requires Sorted(s)
    ensures Sorted(r)
    ensures multiset(r) == multiset(s) + multiset{x}
  {
    if s == [] || x <= s[0] then
      SortedCons(x, s);
      [x] + s
    else
      var tail := Insert(x, s[1..]);
      assert s == [s[0]] + s[1..];
      LowerBound(s[0], x, s[1..], tail);
      SortedCons(s[0], tail);
      [s[0]] + tail
  }

  /** The ascending rearrangement of s, as sort.Ints. */
  function SortInts(s: seq<int>): (r: seq<int>)
    ensures Sorted(r)
    ensures multiset(r) == multiset(s)
  {
    if s == [] then []
    else
      assert s == [s[0]] + s[1..];
      Insert(s[0], SortInts(s[1..]))
  }

  lemma SameElements(a: seq<int>, b: seq<int>)
    requires multiset(a) == multiset(b)
    ensures (set h | h in a) == (set h | h in b)
  {
    assert forall h :: h in a <==> h in multiset(b);
  }

  // ---------------------------------------------------------------------------
  // Build

  /**
   * kPickerBuilder.Build: appends the ten replica hashes of every ready
   * address to the ring, writes each into the hash-to-SubConn map, then sorts
   * the ring.
   */
  method Build(readySCs: seq<ReadySubConn>, crc: string -> Checksum) returns (p: Picker)
    ensures p.Valid()
    ensures |p.connHashs| == DefaultReplicas * |readySCs|
    ensures multiset(p.connHashs) == multiset(RingHashes(readySCs, crc))
    ensures p.subConns == RingOwners(readySCs, crc)
  {
    var scs: map<int, SubConn> := map[];
    var hashs: seq<int> := [];
    var k := 0;
    while k < |readySCs|
      invariant 0 <= k <= |readySCs|
      invariant hashs == RingHashes(readySCs[..k], crc)
      invariant scs == RingOwners(readySCs[..k], crc)
    {
      var addr, sc := readySCs[k].address, readySCs[k].conn;
      ghost var mine := ReplicaHashes(addr.addr, crc);
      var i := 0;
      while i < DefaultReplicas
        invariant 0 <= i <= DefaultReplicas
        invariant hashs == RingHashes(readySCs[..k], crc) + mine[..i]
        invariant scs == RingOwners(readySCs[..k], crc) + Owned(mine[..i], sc)
      {
        var h := crc(Itoa(i) + addr.addr);
        assert mine[..i + 1] == mine[..i] + [h];
        OwnedSnoc(RingOwners(readySCs[..k], crc), mine[..i], h, sc);
        hashs := hashs + [h];
        scs := scs[h := sc];
        i := i + 1;
      }
      assert mine[..DefaultReplicas] == mine;
      assert readySCs[..k + 1][..k] == readySCs[..k];
      assert RingHashes(readySCs[..k + 1], crc) == RingHashes(readySCs[..k], crc) + mine;
      assert RingOwners(readySCs[..k + 1], crc) == RingOwners(readySCs[..k], crc) + Owned(mine, sc);
      k := k + 1;
    }
    assert readySCs[..k] == readySCs;
    RingOwnersKeys(readySCs, crc);
    var sorted := SortInts(hashs);
    SameElements(sorted, hashs);
    assert |sorted| == |multiset(sorted)| == |multiset(hashs)| == |hashs|;
    p := Picker(scs, sorted);
  }

  // ---------------------------------------------------------------------------
  // Pick

  /** How many ring hashes are below target: for a sorted ring, the lower-bound position of target. */
  function CountBelow(s: seq<int>, target: int): nat
  {
    if s == [] then 0 else (if s[0] < target then 1 else 0) + CountBelow(s[1..], target)
  }

  /**
   * On a sorted ring, CountBelow is the least position whose hash is at least
   * target (or the ring length if there is none): every earlier hash is smaller.
   */
  lemma {:induction false} CountBelowSplits(s: seq<int>, target: int)
    requires Sorted(s)
    ensures CountBelow(s, target) <= |s|
    ensures forall k :: 0 <= k < CountBelow(s, target) ==> s[k] < target
    ensures forall k :: CountBelow(s, target) <= k < |s| ==> s[k] >= target
  {
    if s != [] {
      CountBelowSplits(s[1..], target);
    }
  }

  /** Conversely, a position that splits the ring into smaller and not-smaller hashes is CountBelow. */
  lemma {:induction false} CountBelowAt(s: seq<int>, target: int, pos: nat)
    requires pos <= |s|
    requires forall k :: 0 <= k < pos ==> s[k] < target
    requires forall k :: pos <= k < |s| ==> s[k] >= target
    ensures CountBelow(s, target) == pos
  {
    if s != [] {
      CountBelowAt(s[1..], target, if pos == 0 then 0 else pos - 1);
    }
  }

  /**
   * sort.Search(len(s), func(i) { return s[i] >= target }): a binary search for
   * the first position whose hash is at least target.
   */
  method SearchFirstAtLeast(s: seq<int>, target: int) returns (pos: nat)
    ensures pos <= |s|
    ensures pos == 0 || s[pos - 1] < target
    ensures pos == |s| || s[pos] >= target
    ensures Sorted(s) ==> pos == CountBelow(s, target)
  {
    var i, j := 0, |s|;
    while i < j
      invariant 0 <= i <= j <= |s|
      invariant i == 0 || s[i - 1] < target
      invariant j == |s| || s[j] >= target
      invariant Sorted(s) ==> forall k :: 0 <= k < i ==> s[k] < target
      invariant Sorted(s) ==> forall k :: j <= k < |s| ==> s[k] >= target
    {
      var h := (i + j) / 2;
      if s[h] < target {
        i := h + 1;
      } else {
        j := h;
      }
    }
    pos := i;
    if Sorted(s) {
      CountBelowAt(s, target, pos);
    }
  }

  /**
   * The value Pick uses as a map key: len(subConns) - 1 without a hint,
   * otherwise the search position of the checksum of the FIRST hint value.
   */
  function SearchPosition(p: Picker, hint: seq<string>, crc: string -> Checksum): int
  {
    if hint == [] then |p.subConns| - 1 else CountBelow(p.connHashs, crc(hint[0]))
  }

  /** What Pick returns, as written: the search position is looked up as a hash key. */
  function Selection(p: Picker, hint: seq<string>, crc: string -> Checksum): PickResult
  {
    if |p.subConns| <= 0 then ErrNoSubConnAvailable
    else
      var pos := SearchPosition(p, hint, crc);
      if pos in p.subConns then Picked(p.subConns[pos]) else PickedNil
  }

  /**
   * kPicker.Pick: ErrNoSubConnAvailable on an empty picker; otherwise the
   * map entry under the search position (a nil SubConn when there is none).
   * The picker is a value and is not changed.
   */
  method Pick(p: Picker, hint: seq<string>, crc: string -> Checksum) returns (r: PickResult)
    requires p.Valid()
    ensures r == Selection(p, hint, crc)
    ensures |p.subConns| == 0 <==> r == ErrNoSubConnAvailable
  {
    if |p.subConns| <= 0 {
      return ErrNoSubConnAvailable;
    }
    var pos := |p.subConns| - 1;
    if hint != [] {
      var hash := crc(hint[0]);
      pos := SearchFirstAtLeast(p.connHashs, hash);
    }
    if pos in p.subConns {
      r := Picked(p.subConns[pos]);
    } else {
      r := PickedNil;
    }
  }

  lemma {:induction false} CountBelowBound(s: seq<int>, target: int)
    ensures CountBelow(s, target) <= |s|
  {
    if s != [] {
      CountBelowBound(s[1..], target);
    }
  }

  lemma {:induction false} DistinctElementsBound(s: seq<int>)
    ensures |set h | h in s| <= |s|
  {
    if s != [] {
      DistinctElementsBound(s[1..]);
      assert (set h | h in s) == {s[0]} + (set h | h in s[1..]);
    }
  }

  /**
   * The search position never exceeds the ring length, so when every ring
   * hash is larger than the ring length (the usual case for CRC-32 values)
   * a non-empty picker hands out a nil SubConn, with or without a hint.
   */
  lemma SelectionMissesRing(p: Picker, hint: seq<string>, crc: string -> Checksum)
    requires p.Valid()
    requires |p.subConns| > 0
    requires forall k :: 0 <= k < |p.connHashs| ==> p.connHashs[k] > |p.connHashs|
    ensures Selection(p, hint, crc) == PickedNil
  {
    DistinctElementsBound(p.connHashs);
    CountBelowBound(p.connHashs, if hint == [] then 0 else crc(hint[0]));
    var pos := SearchPosition(p, hint, crc);
    assert pos <= |p.connHashs|;
    assert pos !in (set h | h in p.connHashs);
  }

  /** A concrete picker as Build makes it for one address whose replica checksums are all 100. */
  lemma SelectionMissesRingExample()
    ensures var p := Picker(map[100 := SubConn(1)], seq(DefaultReplicas, _ => 100));
            p.Valid() && Selection(p, [], _ => 100) == PickedNil
  {
    var p := Picker(map[100 := SubConn(1)], seq(DefaultReplicas, _ => 100));
    assert p.connHashs[0] == 100;
    assert (set h | h in p.connHashs) == {100};
    SelectionMissesRing(p, [], _ => 100);
  }

  // ---------------------------------------------------------------------------
  // The evidently intended lookup

  /**
   * The ring index the evidently intended lookup uses: the search position,
   * clamped to the last entry on a miss, and the last entry without a hint.
   */
  function TargetIndex(connHashs: seq<int>, hint: seq<string>, crc: string -> Checksum): int
  {
    var last := |connHashs| - 1;
    if hint == [] then last
    else
      var pos := CountBelow(connHashs, crc(hint[0]));
      if pos <= last then pos else last
  }

  /** Pick as evidently intended: the owner of the ring hash at the target index. */
  function CorrectedSelection(p: Picker, hint: seq<string>, crc: string -> Checksum): PickResult
    requires p.Valid()
  {
    if |p.subConns| <= 0 then ErrNoSubConnAvailable
    else
      assert |p.connHashs| > 0 by {
        var h :| h in p.subConns;
      }
      CountBelowBound(p.connHashs, if hint == [] then 0 else crc(hint[0]));
      Picked(p.subConns[p.connHashs[TargetIndex(p.connHashs, hint, crc)]])
  }

  /**
   * On a valid non-empty picker the corrected lookup always yields a SubConn:
   * the owner of the first ring hash at least the hint's checksum, or of the
   * last ring hash when there is no such hash or no hint.
   */
  lemma CorrectedSelectionOwnsTarget(p: Picker, hint: seq<string>, crc: string -> Checksum)
    requires p.Valid()
    requires |p.subConns| > 0
    ensures var idx := TargetIndex(p.connHashs, hint, crc);
      && 0 <= idx < |p.connHashs|
      && CorrectedSelection(p, hint, crc) == Picked(p.subConns[p.connHashs[idx]])
      && (hint == [] ==> idx == |p.connHashs| - 1)
      && (hint != [] ==> (forall k :: 0 <= k < idx ==> p.connHashs[k] < crc(hint[0])) &&
                         (p.connHashs[idx] >= crc(hint[0]) || idx == |p.connHashs| - 1))
  {
    var h :| h in p.subConns;
    assert h in p.connHashs;
    if hint != [] {
      CountBelowSplits(p.connHashs, crc(hint[0]));
    }
  }

  /** For a picker Build made, the corrected lookup returns one of the ready SubConns. */
  lemma CorrectedSelectionIsReady(readySCs: seq<ReadySubConn>, crc: string -> Checksum, p: Picker, hint: seq<string>)
    requires p.Valid() && p.subConns == RingOwners(readySCs, crc)
    requires |readySCs| > 0
    ensures exists k :: 0 <= k < |readySCs| && CorrectedSelection(p, hint, crc) == Picked(readySCs[k].conn)
  {
    RingOwnersKeys(readySCs, crc);
    assert RingHashes(readySCs, crc)[0] in p.subConns;
    CorrectedSelectionOwnsTarget(p, hint, crc);
    var idx := TargetIndex(p.connHashs, hint, crc);
    RingOwnersFromReady(readySCs, crc, p.connHashs[idx]);
  }
}
