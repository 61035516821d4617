/**
 * The weighted "robin" picker: Build lays the ready SubConns out on a line,
 * each occupying as many units as its weight (prefix sums in upperWeights);
 * Pick draws a point in [1, sumWeight] and walks the buckets from the start
 * until the point falls inside one.
 *
 * strconv.Atoi is the parameter atoi; rand.Intn(sumWeight) is the parameter
 * draw of Pick.
 */
module Robin {
  import opened Wrappers
  import opened ConsulApi
  import opened Balancer

  /**
   * The weight of an address: the "weight" entry of its service metadata
   * when that parses as an integer (a missing entry reads as ""), else 1.
   */
  function Weight(a: Address, atoi: string -> Option<int>): int
  {
    match a.metadata
    case ServiceMetadata(s) =>
      (match atoi(if "weight" in s.meta then s.meta["weight"] else "")
       case Some(n) => n
       case None => 1)
    case _ => 1
  }

  function Weights(readySCs: seq<ReadySubConn>, atoi: string -> Option<int>): (ws: seq<int>)
    ensures |ws| == |readySCs|
  {
    seq(|readySCs|, i requires 0 <= i < |readySCs| => Weight(readySCs[i].address, atoi))
  }

  function Sum(ws: seq<int>): int
  {
    if ws == [] then 0 else Sum(ws[..|ws| - 1]) + ws[|ws| - 1]
  }

  /** The running totals, one per weight. */
  function PrefixSums(ws: seq<int>): (ps: seq<int>)
    ensures |ps| == |ws|
  {
    if ws == [] then [] else PrefixSums(ws[..|ws| - 1]) + [Sum(ws)]
  }

  /** Running total k is the sum of the first k + 1 weights. */
  lemma {:induction false} PrefixSumsAt(ws: seq<int>, k: nat)
    requires k < |ws|
    ensures PrefixSums(ws)[k] == Sum(ws[..k + 1])
  {
    var n := |ws| - 1;
    if k < n {
      PrefixSumsAt(ws[..n], k);
      assert ws[..n][..k + 1] == ws[..k + 1];
    } else {
      assert ws[..k + 1] == ws;
    }
  }

  /** Go's integer division, which truncates toward zero. */
  function GoDiv(a: int, b: int): int
    requires b > 0
  {
    if a >= 0 then a / b else -((-a) / b)
  }

  /** The lower edge of bucket i: the upper edge of the bucket before it, or 0. */
  function LowerEdge(upperWeights: seq<int>, i: nat): int
    requires i <= |upperWeights|
  {
    if i == 0 then 0 else upperWeights[i - 1]
  }

  /** Whether the walk stops at bucket i for the point r. */
  predicate StopsAt(upperWeights: seq<int>, sumWeight: int, r: int, i: nat)
    requires i < |upperWeights|
  {
    r <= upperWeights[i] || upperWeights[i] == sumWeight
  }

  /** The first bucket from i on where the walk stops (|upperWeights| if none). */
  function BucketFrom(upperWeights: seq<int>, sumWeight: int, r: int, i: nat): nat
    requires i <= |upperWeights|
    decreases |upperWeights| - i
  {
    if i == |upperWeights| then i
    else if StopsAt(upperWeights, sumWeight, r, i) then i
    else BucketFrom(upperWeights, sumWeight, r, i + 1)
  }

  /** The bucket the walk selects for the point r. */
  function Bucket(upperWeights: seq<int>, sumWeight: int, r: int): nat
  {
    BucketFrom(upperWeights, sumWeight, r, 0)
  }

  lemma {:induction false} BucketFromIsFirstStop(upperWeights: seq<int>, sumWeight: int, r: int, i: nat)
    requires i <= |upperWeights|
    ensures var b := BucketFrom(upperWeights, sumWeight, r, i);
            i <= b <= |upperWeights| &&
            (b < |upperWeights| ==> StopsAt(upperWeights, sumWeight, r, b)) &&
            (forall j :: i <= j < b ==> !StopsAt(upperWeights, sumWeight, r, j))
    decreases |upperWeights| - i
  {
    if i < |upperWeights| && !StopsAt(upperWeights, sumWeight, r, i) {
      BucketFromIsFirstStop(upperWeights, sumWeight, r, i + 1);
    }
  }

  /**
   * The walk always stops inside the table when the last upper edge is the
   * total: Bucket is the least bucket where it stops.
   */
  lemma BucketIsFirstStop(upperWeights: seq<int>, sumWeight: int, r: int)
    requires |upperWeights| > 0 && upperWeights[|upperWeights| - 1] == sumWeight
    ensures Bucket(upperWeights, sumWeight, r) < |upperWeights|
    ensures StopsAt(upperWeights, sumWeight, r, Bucket(upperWeights, sumWeight, r))
    ensures forall j :: 0 <= j < Bucket(upperWeights, sumWeight, r) ==> !StopsAt(upperWeights, sumWeight, r, j)
  {
    BucketFromIsFirstStop(upperWeights, sumWeight, r, 0);
    assert StopsAt(upperWeights, sumWeight, r, |upperWeights| - 1);
  }

  /** A walk that does not stop at bucket i moves on to a bucket inside the table, with the same destination. */
  lemma WalkContinues(upperWeights: seq<int>, sumWeight: int, r: int, i: nat)
    requires |upperWeights| > 0 && upperWeights[|upperWeights| - 1] == sumWeight
    requires i < |upperWeights| && !StopsAt(upperWeights, sumWeight, r, i)
    ensures i + 1 < |upperWeights|
    ensures BucketFrom(upperWeights, sumWeight, r, i + 1) == BucketFrom(upperWeights, sumWeight, r, i)
  {
  }

  lemma NoWrap(a: int, n: int)
    requires 0 <= a < n
    ensures a % n == a
  {
  }

  /** Each running total adds one weight to the one before. */
  lemma PrefixSumsStep(ws: seq<int>, k: nat)
    requires k < |ws|
    ensures PrefixSums(ws)[k] == LowerEdge(PrefixSums(ws), k) + ws[k]
  {
    PrefixSumsAt(ws, k);
    assert ws[..k + 1][..k] == ws[..k];
    assert Sum(ws[..k + 1]) == Sum(ws[..k]) + ws[k];
    if k > 0 {
      PrefixSumsAt(ws, k - 1);
    }
  }

  /** The last running total is the total. */
  lemma PrefixSumsLast(ws: seq<int>)
    requires |ws| > 0
    ensures PrefixSums(ws)[|ws| - 1] == Sum(ws)
  {
    PrefixSumsAt(ws, |ws| - 1);
    assert ws[..|ws|] == ws;
  }

  /** With weights of at least 1 every running total is at least 1. */
  lemma {:induction false} PrefixSumsPositive(ws: seq<int>, i: nat)
    requires forall k :: 0 <= k < |ws| ==> ws[k] >= 1
    requires i < |ws|
    ensures PrefixSums(ws)[i] >= 1
  {
    PrefixSumsStep(ws, i);
    if i > 0 {
      PrefixSumsPositive(ws, i - 1);
    }
  }

  /** With weights of at least 1 the running totals strictly increase. */
  lemma {:induction false} PrefixSumsIncrease(ws: seq<int>, i: nat, j: nat)
    requires forall k :: 0 <= k < |ws| ==> ws[k] >= 1
    requires i < j < |ws|
    ensures PrefixSums(ws)[i] < PrefixSums(ws)[j]
    decreases j - i
  {
    PrefixSumsStep(ws, j);
    if i < j - 1 {
      PrefixSumsIncrease(ws, i, j - 1);
    }
  }

  /**
   * With weights of at least 1 and a point r in [1, total], the walk selects
   * the bucket whose span (lower edge, upper edge] holds r.
   */
  lemma BucketHoldsPoint(ws: seq<int>, r: int)
    requires |ws| > 0
    requires 1 <= r <= Sum(ws)
    ensures Bucket(PrefixSums(ws), Sum(ws), r) < |ws|
    ensures LowerEdge(PrefixSums(ws), Bucket(PrefixSums(ws), Sum(ws), r)) < r <= PrefixSums(ws)[Bucket(PrefixSums(ws), Sum(ws), r)]
  {
    var ps := PrefixSums(ws);
    PrefixSumsLast(ws);
    BucketIsFirstStop(ps, Sum(ws), r);
    var b := Bucket(ps, Sum(ws), r);
    if b > 0 {
      assert !StopsAt(ps, Sum(ws), r, b - 1);
    }
  }

  /** With weights of at least 1 a bucket's upper edge is at most the lower edge of any later bucket. */
  lemma EdgeBelow(ws: seq<int>, i: nat, j: nat)
    requires forall k :: 0 <= k < |ws| ==> ws[k] >= 1
    requires i < j < |ws|
    ensures PrefixSums(ws)[i] <= LowerEdge(PrefixSums(ws), j)
  {
    if i < j - 1 {
      PrefixSumsIncrease(ws, i, j - 1);
    }
  }

  /** With weights of at least 1 the spans of different buckets do not overlap. */
  lemma SpansDisjoint(ws: seq<int>, r: int, i: nat, j: nat)
    requires forall k :: 0 <= k < |ws| ==> ws[k] >= 1
    requires i < |ws| && j < |ws|
    requires LowerEdge(PrefixSums(ws), i) < r <= PrefixSums(ws)[i]
    requires LowerEdge(PrefixSums(ws), j) < r <= PrefixSums(ws)[j]
    ensures i == j
  {
    if i < j {
      EdgeBelow(ws, i, j);
    } else if j < i {
      EdgeBelow(ws, j, i);
    }
  }

  /** How many of the points 1..n the walk sends to bucket i. */
  function PointsSelecting(upperWeights: seq<int>, sumWeight: int, i: nat, n: int): nat
    decreases n
  {
    if n <= 0 then 0
    else PointsSelecting(upperWeights, sumWeight, i, n - 1) + (if Bucket(upperWeights, sumWeight, n) == i then 1 else 0)
  }

  lemma {:induction false} PointsSelectingUpTo(ws: seq<int>, i: nat, n: nat)
    requires forall k :: 0 <= k < |ws| ==> ws[k] >= 1
    requires i < |ws|
    requires n <= Sum(ws)
    ensures var lo, hi := LowerEdge(PrefixSums(ws), i), PrefixSums(ws)[i];
            PointsSelecting(PrefixSums(ws), Sum(ws), i, n) == if n <= lo then 0 else if n <= hi then n - lo else hi - lo
  {
    var ps := PrefixSums(ws);
    PrefixSumsStep(ws, i);
    if n > 0 {
      PointsSelectingUpTo(ws, i, n - 1);
      assert |ws| > 0;
      BucketHoldsPoint(ws, n);
      var b := Bucket(ps, Sum(ws), n);
      if LowerEdge(ps, i) < n <= ps[i] {
        SpansDisjoint(ws, n, i, b);
      }
    } else if i > 0 {
      PrefixSumsPositive(ws, i - 1);
    }
  }

  /**
   * Weighted fairness: with weights of at least 1, exactly ws[i] of the
   * sumWeight equally likely points select bucket i.
   */
  lemma WeightedFairness(ws: seq<int>, i: nat)
    requires forall k :: 0 <= k < |ws| ==> ws[k] >= 1
    requires i < |ws|
    ensures PointsSelecting(PrefixSums(ws), Sum(ws), i, Sum(ws)) == ws[i]
  {
    var ps := PrefixSums(ws);
    var last := |ws| - 1;
    PrefixSumsStep(ws, i);
    PrefixSumsLast(ws);
    if i < last {
      PrefixSumsIncrease(ws, i, last);
    }
    PrefixSumsPositive(ws, last);
    PointsSelectingUpTo(ws, i, Sum(ws));
  }

  class Picker {
    var subConns: seq<SubConn>
    var upperWeights: seq<int>
    var sumWeight: int
    var step: int
    var curPos: int
    var curIndex: int

    /** The table Build lays out: one upper edge per SubConn, the last one the total. */
    ghost predicate Valid()
      reads this
    {
      && |subConns| == |upperWeights|
      && (|upperWeights| > 0 ==> sumWeight == upperWeights[|upperWeights| - 1])
    }

    /**
     * rPickerBuilder.Build: accumulates the weights into upperWeights in
     * snapshot order; sumWeight is the total and step the total divided by the
     * number of SubConns (both 0 for an empty snapshot); the cursor starts at 0.
     */
    constructor Build(readySCs: seq<ReadySubConn>, atoi: string -> Option<int>)
      ensures Valid()
      ensures subConns == Conns(readySCs)
      ensures upperWeights == PrefixSums(Weights(readySCs, atoi))
      ensures sumWeight == (if |readySCs| > 0 then Sum(Weights(readySCs, atoi)) else 0)
      ensures step == (if |readySCs| > 0 then GoDiv(Sum(Weights(readySCs, atoi)), |readySCs|) else 0)
      ensures curPos == 0 && curIndex == 0
    {
      ghost var ws := Weights(readySCs, atoi);
      var scs: seq<SubConn> := [];
      var uppers: seq<int> := [];
      var total := 0;
      var k := 0;
      while k < |readySCs|
        invariant 0 <= k <= |readySCs|
        invariant total == Sum(ws[..k])
        invariant uppers == PrefixSums(ws[..k])
        invariant |scs| == k && forall j :: 0 <= j < k ==> scs[j] == readySCs[j].conn
      {
        var addr := readySCs[k].address;
        var w := 1;
        if addr.metadata.ServiceMetadata? {
          var meta := addr.metadata.service.meta;
          match atoi(if "weight" in meta then meta["weight"] else "") {
            case Some(n) => w := n;
            case None =>
          }
        }
        assert w == ws[k];
        assert ws[..k + 1][..k] == ws[..k];
        total := total + w;
        scs := scs + [readySCs[k].conn];
        uppers := uppers + [total];
        k := k + 1;
      }
      assert ws[..k] == ws;
      step := 0;
      sumWeight := 0;
      curPos := 0;
      curIndex := 0;
      var n := |uppers|;
      if n > 0 {
        step := GoDiv(total, n);
        sumWeight := total;
      }
      subConns := scs;
      upperWeights := uppers;
    }

    /**
     * rPicker.Pick: ErrNoSubConnAvailable (and no change) on an empty picker.
     * Otherwise the cursor is reset to the start and walks the buckets with
     * the point draw + 1; it stops in the bucket Bucket selects, with curPos
     * at that bucket's lower edge, and returns that bucket's SubConn.
     */
    method Pick(draw: int) returns (r: PickResult)
      requires Valid()
      requires |subConns| > 0 ==> 0 <= draw < sumWeight
      modifies this`curPos, this`curIndex
      ensures Valid()
      ensures |subConns| == 0 ==> r == ErrNoSubConnAvailable && curPos == old(curPos) && curIndex == old(curIndex)
      ensures |subConns| > 0 ==>
        && curIndex == Bucket(upperWeights, sumWeight, draw + 1)
        && curIndex < |subConns|
        && curPos == LowerEdge(upperWeights, curIndex)
        && r == Picked(subConns[curIndex])
    {
      if |subConns| <= 0 {
        return ErrNoSubConnAvailable;
      }
      var uppers, sum, point := upperWeights, sumWeight, draw + 1;
      curPos := 0;
      curIndex := 0;
      var leftSpan := point;
      while leftSpan > 0
        invariant 0 <= curIndex < |uppers|
        invariant curPos == LowerEdge(uppers, curIndex)
        invariant leftSpan == point - curPos && leftSpan >= 1
        invariant BucketFrom(uppers, sum, point, curIndex) == Bucket(uppers, sum, point)
        decreases |uppers| - curIndex
      {
        var curSpan := uppers[curIndex] - curPos;
        if leftSpan <= curSpan {
          assert StopsAt(uppers, sum, point, curIndex);
          break;
        }
        leftSpan := leftSpan - curSpan;
        curPos := uppers[curIndex];
        if curPos == sum {
          // unreachable: the point draw + 1 is at most sumWeight
          assert false;
          break;
        } else {
          // the last upper edge is sumWeight, so the walk never wraps around
          WalkContinues(uppers, sum, point, curIndex);
          NoWrap(curIndex + 1, |uppers|);
          curIndex := (curIndex + 1) % |uppers|;
        }
      }
      r := Picked(subConns[curIndex]);
    }
  }
}
